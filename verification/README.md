# vault_starter core in Dafny

This models the three services under the vault screen of vault_starter, a browser password vault:

- **crypto service** (`crypto.service.ts`). It holds:
  - base64 text for binary data (`ab2b64` / `b642ab`, meaning `btoa` / `atob`);
  - `deriveKey`, which runs PBKDF2-HMAC-SHA-256 with 250000 iterations to give an AES-GCM key;
  - `encryptWithMaster`, which seals an entry under a fresh 16-byte salt and a fresh 12-byte IV;
  - `decryptEntry`, which turns every AES-GCM failure into one fixed message;
  - `generatePassword`, which builds a pool from the enabled classes and reduces one `Uint32` draw per position modulo the pool size.
- **auto-lock service** (`auto-lock.service.ts`). It keeps the master password in memory and wipes it when a 5-minute timer fires. The timer restarts on `setMaster`, on click, keydown, mousemove and touchstart, and on `visibilitychange` while the document is hidden.
- **Firebase service** (`firebase.service.ts`). It covers the `vaultEntries` collection:
  - `saveEntry` is an upsert keyed by owner, name and username;
  - `loadEntries` filters documents by owner;
  - `deleteEntry` removes a document by id.

Modules:

| module | contents |
|---|---|
| `Wrappers` | `Option`, `Result` |
| `Ascii` | the letter and digit classes |
| `Base64` | alphabet, sextets, encode, forgiving decode, round trip |
| `CryptoService` | the envelope |
| `PasswordGenerator` | the password generator |
| `AutoLock` | session state, the timer table and the listeners |
| `VaultStore` | the collection as a `map` from document id to document |
| `Vault` | the save-then-reveal path through all three services |

How the outside world enters the model:

- **WebCrypto, `TextEncoder` and `TextDecoder`** are the function-valued fields of `CryptoService.Primitives`. A WebCrypto failure is the name of the `DOMException` it throws.
- **What the envelope needs from AES-GCM** is stated as ghost predicates. The lemmas that rely on them take them as `requires`:
  - `AeadRoundTrip`: decryption undoes encryption under the same key and IV (NIST SP 800-38D);
  - `RejectsUnderKey`: one honestly sealed message fails its tag check when opened under one other given key. AES-GCM does not commit to its key, so this is a per-envelope hypothesis, not a property of every key pair;
  - `Utf8RoundTrip`: UTF-8 decoding undoes encoding for text that does not begin with U+FEFF. A default `TextDecoder` strips a leading byte order mark, so the round trip needs that exception (`CryptoService.StartsWithBom`).
- **Randomness, the clock and generated ids** are parameters:
  - the salt and IV draws of `randomBytes`;
  - the `Uint32Array` filled by `crypto.getRandomValues`;
  - the millisecond clock of the auto-lock timer;
  - `Timestamp.now()`;
  - the id `addDoc` generates.

Base64 encoding follows section 4 of RFC 4648. Decoding is the forgiving-base64 decode of the WHATWG Infra standard, which `atob` uses:

- ASCII whitespace is removed;
- when the length is a multiple of four, one or two trailing `=` are removed;
- the decode fails on a remaining length of 1 modulo 4, or on a character outside the alphabet;
- leftover low bits are discarded.

In `AutoLock`, the browser's table of scheduled callbacks is part of the session state. So "at most one inactivity deadline is pending" is an invariant that every input keeps (`AutoLock.Valid`).

The model follows the code in these places, which its comments do not spell out:

- A `visibilitychange` event resets the timer only when the document becomes hidden, not when it becomes visible.
- The crypto service does not check that a password is held: with an empty master password it derives a key from the empty string.
- The listeners reset the timer whether or not a password is held, not only while unlocked. Activity on a locked or never-unlocked session therefore schedules the lock callback again. Five minutes later it runs again, with a further navigation to the login route and a further "Vault locked due to inactivity" alert. So a session can see more than one lock notification (`AutoLock.ActivityWhileLockedLocksAgain`, `AutoLock.SecondLockAfterClick`).
- `clearMaster` wipes the password but does not cancel the pending timer (`AutoLock.ClearMaster` keeps the deadline).

## Model

| member | source | states |
|---|---|---|
| Base64.Sextets | src/app/services/crypto.service.ts:5-10 | the 6-bit groups of a byte string: four per three bytes, and two or three for a final group of one or two bytes, so there are ceil(4n/3) of them |
| Base64.FromSextets | src/app/services/crypto.service.ts:11-16 | packs 6-bit groups back into bytes, dropping the bits of an incomplete last byte; k groups (k mod 4 not 1) give floor(3k/4) bytes |
| Base64.Unpadded | src/app/services/crypto.service.ts:5-10 | base64 text without padding has ceil(4n/3) characters, all from the RFC 4648 alphabet |
| Base64.Encode | src/app/services/crypto.service.ts:5-10 | `btoa` of a byte string has length 4*ceil(n/3); every character is an alphabet character or `=`, and `=` occurs only in the last two positions |
| Base64.Decode | src/app/services/crypto.service.ts:11-16 | `atob` throws on any text holding a character that is neither alphabet, ASCII whitespace nor `=`, and on text whose length without whitespace is 1 modulo 4; text that is all whitespace decodes to no bytes |
| Base64.AlphabetMembership | src/app/services/crypto.service.ts:9 | a character is in the 64-character RFC 4648 table exactly when it is a letter, a digit, `+` or `/` |
| Base64.SextetsRoundTrip | src/app/services/crypto.service.ts:5-16 | packing the 6-bit groups of any byte string gives back that byte string |
| Base64.DecodeEncode | src/app/services/crypto.service.ts:5-16 | `b642ab(ab2b64(b))` is `b` for every byte string `b`, padding included |
| Base64.EncodeInjective | src/app/services/crypto.service.ts:5-10 | two byte strings with the same base64 text are equal |
| CryptoService.DeriveKey | src/app/services/crypto.service.ts:28-45 | a salt that does not decode throws the decode error before any key work; otherwise the key is PBKDF2 over the UTF-8 bytes of the password, the decoded salt and the iteration count (250000 by default), and a WebCrypto failure surfaces by name |
| CryptoService.EncryptWithMaster | src/app/services/crypto.service.ts:47-62 | the stored salt and IV are exactly `ab2b64` of the bytes drawn (24 and 16 characters), and they decode back to those bytes; the key comes from those salt bytes; a key or encryption failure is returned as is; on success the ciphertext is exactly `ab2b64` of the AES-GCM output and decodes back to it |
| CryptoService.DecryptEntry | src/app/services/crypto.service.ts:64-78 | a key-derivation failure and a ciphertext or IV decode failure reach the caller unchanged; every AES-GCM failure becomes the one fixed message; success is the UTF-8 decoding of the plaintext bytes |
| CryptoService.EncryptDecryptRoundTrip | src/app/services/crypto.service.ts:47-78 | decrypting an envelope with the password that sealed it gives back the plaintext, given the AES-GCM and UTF-8 round trips, for a plaintext that does not begin with a byte order mark |
| CryptoService.B642Ab | src/app/services/crypto.service.ts:11-16 | `b642ab` succeeds exactly when `atob` does and returns the decoded bytes; `atob`'s exception surfaces as the decode error |
| CryptoService.B642AbOfAb2B64 | src/app/services/crypto.service.ts:5-16 | `b642ab` of `ab2b64(b)` is `b`, so the service's own encodings never fail to decode |
| CryptoService.WrongPasswordFails | src/app/services/crypto.service.ts:64-78 | a password whose derived key differs from the sealing key gets exactly "Decryption failed - wrong master password or corrupted data", given that AES-GCM's tag check rejects this envelope under that key |
| PasswordGenerator.Pool | src/app/services/crypto.service.ts:81-86 | the pool holds a character exactly when its class is enabled; its length is the sum of the enabled class sizes 26, 26, 10 and 26 |
| PasswordGenerator.VaultPoolIsAlphanumeric | src/app/components/vault/vault.component.ts:105-114 | the options of the vault screen give exactly the 62 ASCII letters and digits, lower case first |
| PasswordGenerator.GeneratePasswordAsWritten | src/app/services/crypto.service.ts:80-92 | the loop as written: with a nonempty pool it returns one character per draw, position i being pool[rnd[i] mod pool size]; with an empty pool it returns nine characters per draw |
| PasswordGenerator.EmptyPoolSpellsUndefined | src/app/services/crypto.service.ts:86-90 | with an empty pool, each draw appends exactly the nine characters "undefined" at its place, 9*i to 9*i+9 |
| PasswordGenerator.EmptyPoolAsWritten | src/app/services/crypto.service.ts:86-90 | with every class disabled and 16 draws, the code returns 144 characters instead of a 16-character password |
| PasswordGenerator.GeneratePassword | src/app/services/crypto.service.ts:80-92 | a request for more than 16384 draws (65536 bytes) fails with the `getRandomValues` quota error, whatever the pool; within the quota it fails exactly when the pool is empty; otherwise it returns `length` characters (16 by default, every class enabled by default), each pool[rnd[i] mod pool size] and so in the pool, the same string the loop as written builds |
| AutoLock.AtMostOnePending | src/app/services/auto-lock.service.ts:26-39 | in a valid session at most one callback is scheduled, and none is scheduled exactly when there is no deadline |
| AutoLock.Cancel | src/app/services/auto-lock.service.ts:27 | `clearTimeout` on the stored id leaves no callback of a valid session scheduled |
| AutoLock.ResetTimer | src/app/services/auto-lock.service.ts:26-39 | the password is kept; exactly one callback is then scheduled, due five minutes from now; validity is preserved |
| AutoLock.SetMaster | src/app/services/auto-lock.service.ts:15-18 | `getMaster` then returns the new password, and the deadline is five minutes from now |
| AutoLock.GetMasterAfterStep | src/app/services/auto-lock.service.ts:15-36 | `getMaster` reads the password just set after `setMaster`, the empty string after `clearMaster` or a lock, and the unchanged password after any listener event or a time step that does not lock |
| AutoLock.ClearMaster | src/app/services/auto-lock.service.ts:22-24 | the password becomes empty; any pending deadline stays as it was |
| AutoLock.Tick | src/app/services/auto-lock.service.ts:30-36 | the lock callback runs exactly when a deadline is due; it wipes the password and leaves no deadline; before that, nothing changes |
| AutoLock.OnEvent | src/app/services/auto-lock.service.ts:41-48 | no listener touches the password; the four input events and `visibilitychange` to hidden move the deadline to five minutes from now; `visibilitychange` to visible changes nothing |
| AutoLock.InitialIsLocked | src/app/services/auto-lock.service.ts:7-13 | after construction there is no password and no deadline |
| AutoLock.AlwaysAtMostOnePending | src/app/services/auto-lock.service.ts:15-48 | after any sequence of inputs, at most one inactivity callback is scheduled |
| AutoLock.LockAfterInactivity | src/app/services/auto-lock.service.ts:15-36 | after `setMaster(m)` the password reads `m`; five minutes without activity lock the vault once, and no later time locks it again |
| AutoLock.ActivityKeepsSessionAlive | src/app/services/auto-lock.service.ts:41-48 | activity before expiry postpones the lock: at the old deadline nothing fires and the password is still held |
| AutoLock.FiringWhileLockedKeepsLocked | src/app/services/auto-lock.service.ts:22-36 | time passing while the password is empty leaves it empty, whether or not the callback runs |
| AutoLock.ActivityWhileLockedLocksAgain | src/app/services/auto-lock.service.ts:30-47 | on a session without a password, any resetting event schedules the callback again, and five minutes later it runs again (`locked`, with its navigation and alert) |
| AutoLock.SecondLockAfterClick | src/app/services/auto-lock.service.ts:15-47 | after `setMaster` and an inactivity lock, one click and five more idle minutes raise a second lock |
| VaultStore.SaveEntry | src/app/services/firebase.service.ts:52-78 | with a matching document, that document gets the payload and `updatedAt` while its owner and `createdAt` stay, and no id is added; without one, one document with owner and `createdAt` is added under the fresh id; either way the returned id names a matching document and every other document is untouched |
| VaultStore.LoadEntries | src/app/services/firebase.service.ts:80-85 | an (id, data) pair is returned exactly when the store holds that document under that id and it belongs to the user |
| VaultStore.DeleteEntry | src/app/services/firebase.service.ts:87-90 | the id is gone, whether or not it existed; every other document keeps its id and data |
| VaultStore.SaveTwiceAddsNothing | src/app/services/firebase.service.ts:52-78 | saving the same owner, name and username twice adds no second document |
| VaultStore.SaveKeepsKeysUnique | src/app/services/firebase.service.ts:52-78 | if no two documents share owner, name and username, a save keeps it so, and the document it updates is the one matching document |
| VaultStore.SaveIsolatesOwners | src/app/services/firebase.service.ts:52-85 | a save by one user leaves what every other user loads unchanged |
| VaultStore.LoadAfterSave | src/app/services/firebase.service.ts:52-85 | after a save, the owner loads a document under the returned id carrying the saved name, username, ciphertext, IV and salt |
| VaultStore.LoadAfterDelete | src/app/services/firebase.service.ts:80-90 | after a delete, the owner loads exactly what they loaded before minus the deleted id |
| Vault.SavedEntryReveals | src/app/components/vault/vault.component.ts:58-93 | an entry sealed with the master password, saved, then loaded by its owner opens to the sealed plaintext (one not beginning with a byte order mark, which the vault's JSON text never does) |

## Left out

- PBKDF2, AES-GCM, `TextEncoder` and `TextDecoder` are function values, not implementations. Their properties are hypotheses the lemmas state; a failure of `importKey` and one of `deriveKey` are one `pbkdf2` failure.
- The byte-string detour of `ab2b64` and `b642ab` is not modelled step by step: `String.fromCharCode` then `btoa`, and `atob` then `charCodeAt`. The model encodes and decodes bytes directly, which is what that detour amounts to for byte values.
- `randomBytes` and `crypto.getRandomValues` are left out as code: their output is a parameter, and nothing is claimed about its distribution, including the modulo bias of the password draw.
- CryptoService.EncryptWithMaster: takes the salt and IV draws up front, so it does not model that the IV is drawn only after key derivation has succeeded.
- PasswordGenerator.GeneratePassword: takes `length` as a natural number, so it does not model a fractional or negative `length`.
- PasswordGenerator.GeneratePasswordAsWritten: models the loop once the draws exist. The quota failure of the draw before it is stated on `PasswordGenerator.GeneratePassword`.
- Overlapping saves are left out. `saveEntry` reads with `getDocs` and then writes with `updateDoc` or `addDoc` outside a transaction, so two interleaved saves with the same owner, name and username can both add a document. `VaultStore.SaveTwiceAddsNothing` and `VaultStore.SaveKeepsKeysUnique` hold for saves that run one after the other.
- Text the model cannot hold is left out: a JavaScript string with a lone surrogate, which `TextEncoder` replaces by U+FFFD, has no Dafny `string` counterpart.
- CryptoService.WrongPasswordFails: assumes the tag check rejects the one envelope under the one other key. For real AES-GCM that holds only with overwhelming probability, and probability is not modelled.
- CryptoService.EncryptDecryptRoundTrip: excludes plaintexts beginning with U+FEFF, because a default `TextDecoder` drops a leading byte order mark, so the source does not round-trip them either. `Vault.SavedEntryReveals` inherits the same exclusion.
- The `async` and `await` ordering, Angular zones and change detection are left out. So is concurrency between a running crypto call and a lock.
- The router navigation and the `alert` of the lock callback are left out as effects. `AutoLock.Tick` reports them only as its `locked` flag.
- The lock callback does not reset `timeoutId`, and `AutoLock.Fire` keeps that stale id; a later `clearTimeout` on it does nothing, as in the browser.
- The authentication wrappers (`register`, `login`, `logout`, `currentUser`, `getUser`) pass straight to Firebase Auth, so they are left out.
- Firestore is not modelled as a server. It is a map, and the following are left out:
  - network failures;
  - security rules;
  - the order of `snap.docs`;
  - the `Timestamp` type, which is a natural number here.
- VaultStore.SaveEntry: when several documents match, it picks some matching document, not specifically `snap.docs[0]` of Firestore's ordering.
- A payload is the five fields the vault screen stores. Arbitrary extra fields of `...payload` are not modelled.
- The components, the routes, `JSON.stringify`/`JSON.parse` of the sealed payload and the clipboard are left out. Kept are the options `vault.component.ts` passes to `generatePassword` and its save-then-reveal sequence (`Vault.SavedEntryReveals`), where the plaintext is any string not beginning with a byte order mark.

## Findings

| source | as written | input that shows it | evidently intended | confidence | as-written member | corrected member |
|---|---|---|---|---|---|---|
| src/app/services/crypto.service.ts:86-90 | with every class disabled the pool is empty, `rnd[i] % 0` is NaN, `all[NaN]` is `undefined`, and `pw +=` appends the text "undefined" once per position | `generatePassword(16, {upper: false, lower: false, digits: false, symbols: false})` returns "undefined" repeated 16 times, 144 characters | refuse an empty character set instead of returning a non-password | not executed | PasswordGenerator.EmptyPoolAsWritten | PasswordGenerator.GeneratePassword |
