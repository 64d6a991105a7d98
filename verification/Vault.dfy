/** The save-then-reveal path of the vault screen, across the three services. */
module Vault {
  import opened Wrappers
  import CryptoService
  import VaultStore

  /**
   An entry sealed with the master password, saved, and loaded again by its owner, opens to
   the plaintext that was sealed.
   */
  lemma SavedEntryReveals(w: CryptoService.Primitives, master: string, plaintext: string,
                          saltBuf: CryptoService.Bytes, ivBuf: CryptoService.Bytes,
                          store: VaultStore.Store, uid: string, name: string, username: string,
                          now: nat, freshId: VaultStore.Id)
    requires CryptoService.AeadRoundTrip(w) && CryptoService.Utf8RoundTrip(w)
    requires !CryptoService.StartsWithBom(plaintext)
    requires |saltBuf| == CryptoService.SaltLength && |ivBuf| == CryptoService.IvLength
    requires CryptoService.EncryptWithMaster(w, master, plaintext, saltBuf, ivBuf).Success?
    requires freshId !in store
    ensures var e := CryptoService.EncryptWithMaster(w, master, plaintext, saltBuf, ivBuf).value;
            var saved := VaultStore.SaveEntry(store, uid, VaultStore.Payload(name, username, e.ciphertext, e.iv, e.salt),
                                              now, freshId);
            exists d :: VaultStore.Entry(saved.id, d) in VaultStore.LoadEntries(saved.store, uid) &&
                        CryptoService.DecryptEntry(w, master, d.ciphertext, d.iv, d.salt) == Success(plaintext)
  {
    var e := CryptoService.EncryptWithMaster(w, master, plaintext, saltBuf, ivBuf).value;
    var p := VaultStore.Payload(name, username, e.ciphertext, e.iv, e.salt);
    var saved := VaultStore.SaveEntry(store, uid, p, now, freshId);
    VaultStore.LoadAfterSave(store, uid, p, now, freshId);
    CryptoService.EncryptDecryptRoundTrip(w, master, plaintext, saltBuf, ivBuf);
    var d := saved.store[saved.id];
    assert VaultStore.Entry(saved.id, d) in VaultStore.LoadEntries(saved.store, uid);
  }
}
