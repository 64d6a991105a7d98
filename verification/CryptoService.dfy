/**
 The encryption envelope of the crypto service. Every call re-derives an AES-GCM key from the
 master password with PBKDF2-HMAC-SHA-256 (section 5.2 of RFC 8018) over a salt, and the
 salt, the IV and the ciphertext travel as base64 text.

 WebCrypto, TextEncoder and TextDecoder are foreign code: they enter as the function values
 of a `Primitives` record. What the envelope relies on from them is stated as predicates that
 a lemma takes as hypotheses where it needs them: `AeadRoundTrip` (AES-GCM decryption under
 the key and IV of an encryption gives back its plaintext, NIST SP 800-38D), `Utf8RoundTrip`,
 and, for one sealed envelope, `RejectsUnderKey`. The random salt and IV are parameters.
 */
module CryptoService {
  import opened Wrappers
  import Base64

  type Bytes = seq<Base64.uint8>

  /** A derived AES-GCM key; WebCrypto keeps it opaque, the model keeps its raw bits. */
  type Key = Bytes

  const DefaultIterations: nat := 250000
  const SaltLength: nat := 16
  const IvLength: nat := 12
  const DecryptFailedMessage: string := "Decryption failed - wrong master password or corrupted data"

  /** What a call of the service can throw. */
  datatype Error =
    | DecodeFailed(cause: Base64.DecodeError)  // thrown by `atob` inside `b642ab`
    | WebCryptoFailed(name: string)            // a DOMException from `crypto.subtle`, by name
    | Message(text: string)                    // an `Error` the service builds itself

  /** The foreign calls. A WebCrypto failure is the name of the DOMException it throws. */
  datatype Primitives = Primitives(
    utf8Encode: string -> Bytes,                                    // TextEncoder.encode
    utf8Decode: Bytes -> string,                                    // TextDecoder.decode
    pbkdf2: (Bytes, Bytes, nat) -> Result<Key, string>,             // password, salt, iterations
    aesGcmEncrypt: (Key, Bytes, Bytes) -> Result<Bytes, string>,    // key, iv, plaintext
    aesGcmDecrypt: (Key, Bytes, Bytes) -> Result<Bytes, string>)    // key, iv, ciphertext

  /** AES-GCM decryption undoes encryption under the same key and IV. */
  ghost predicate AeadRoundTrip(w: Primitives) {
    forall k, iv, m :: w.aesGcmEncrypt(k, iv, m).Success? ==>
      w.aesGcmDecrypt(k, iv, w.aesGcmEncrypt(k, iv, m).value) == Success(m)
  }

  /**
   The tag check rejects one honestly sealed message when it is opened under one other key.
   AES-GCM does not commit to its key, so no real cipher meets this for every pair of keys;
   for the envelope of one encryption and an independently derived key it holds except with
   negligible probability.
   */
  ghost predicate RejectsUnderKey(w: Primitives, sealKey: Key, openKey: Key, iv: Bytes, m: Bytes) {
    w.aesGcmEncrypt(sealKey, iv, m).Success? &&
    w.aesGcmDecrypt(openKey, iv, w.aesGcmEncrypt(sealKey, iv, m).value).Failure?
  }

  /** The byte order mark a default `TextDecoder` strips from the front of its input. */
  const ByteOrderMark: char := '\U{FEFF}'

  predicate StartsWithBom(s: string) {
    |s| > 0 && s[0] == ByteOrderMark
  }

  /** UTF-8 decoding undoes UTF-8 encoding for text that does not begin with a byte order mark
      (a Dafny string holds no lone surrogate). */
  ghost predicate Utf8RoundTrip(w: Primitives) {
    forall s :: !StartsWithBom(s) ==> w.utf8Decode(w.utf8Encode(s)) == s
  }

  /** The stored triple `{ciphertext, iv, salt}`, each field base64 text. */
  datatype Envelope = Envelope(ciphertext: string, iv: string, salt: string)

  /** `b642ab`, with `atob`'s exception as an `Error`. */
  function B642Ab(s: string): (r: Result<Bytes, Error>)
    ensures r.Success? <==> Base64.Decode(s).Success?
    ensures r.Success? ==> Base64.Decode(s) == Success(r.value)
    ensures r.Failure? ==> r == Failure(DecodeFailed(Base64.InvalidCharacter))
  {
    match Base64.Decode(s)
    case Success(b) => Success(b)
    case Failure(e) => Failure(DecodeFailed(e))
  }

  /** `deriveKey`: decode the salt, then run PBKDF2 over the UTF-8 bytes of the password. */
  function DeriveKey(w: Primitives, masterPassword: string, saltB64: string,
                     iterations: nat := DefaultIterations): (r: Result<Key, Error>)
    ensures Base64.Decode(saltB64).Failure? ==> r == Failure(DecodeFailed(Base64.InvalidCharacter))
    ensures Base64.Decode(saltB64).Success? ==>
              var k := w.pbkdf2(w.utf8Encode(masterPassword), Base64.Decode(saltB64).value, iterations);
              r == if k.Success? then Success(k.value) else Failure(WebCryptoFailed(k.error))
  {
    var salt :- B642Ab(saltB64);
    match w.pbkdf2(w.utf8Encode(masterPassword), salt, iterations)
    case Success(k) => Success(k)
    case Failure(name) => Failure(WebCryptoFailed(name))
  }

  /** The key `encryptWithMaster` derives from the raw salt it drew. */
  function KeyFor(w: Primitives, masterPassword: string, salt: Bytes): Result<Key, string> {
    w.pbkdf2(w.utf8Encode(masterPassword), salt, DefaultIterations)
  }

  /**
   `encryptWithMaster`: `saltBuf` and `ivBuf` are the draws of `randomBytes(16)` and
   `randomBytes(12)`. The key comes from the base64 of the salt, decoded again inside
   `deriveKey`; the result carries exactly the base64 of the salt and the IV.
   */
  function EncryptWithMaster(w: Primitives, masterPassword: string, plaintext: string,
                             saltBuf: Bytes, ivBuf: Bytes): (r: Result<Envelope, Error>)
    requires |saltBuf| == SaltLength && |ivBuf| == IvLength
    ensures r.Success? ==> |r.value.salt| == 24 && |r.value.iv| == 16
    ensures r.Success? ==> Base64.Decode(r.value.salt) == Success(saltBuf)
    ensures r.Success? ==> Base64.Decode(r.value.iv) == Success(ivBuf)
    ensures r.Success? ==> r.value.salt == Base64.Encode(saltBuf) && r.value.iv == Base64.Encode(ivBuf)
    ensures KeyFor(w, masterPassword, saltBuf).Failure? ==>
              r == Failure(WebCryptoFailed(KeyFor(w, masterPassword, saltBuf).error))
    ensures KeyFor(w, masterPassword, saltBuf).Success? ==>
              var c := w.aesGcmEncrypt(KeyFor(w, masterPassword, saltBuf).value, ivBuf, w.utf8Encode(plaintext));
              (c.Failure? ==> r == Failure(WebCryptoFailed(c.error))) &&
              (c.Success? ==> r.Success? && r.value.ciphertext == Base64.Encode(c.value) &&
                              Base64.Decode(r.value.ciphertext) == Success(c.value))
  {
    var saltB64 := Base64.Encode(saltBuf);
    Base64.DecodeEncode(saltBuf);
    var key :- DeriveKey(w, masterPassword, saltB64);
    var ivB64 := Base64.Encode(ivBuf);
    Base64.DecodeEncode(ivBuf);
    match w.aesGcmEncrypt(key, ivBuf, w.utf8Encode(plaintext))
    case Failure(name) => Failure(WebCryptoFailed(name))
    case Success(enc) =>
      Base64.DecodeEncode(enc);
      Success(Envelope(Base64.Encode(enc), ivB64, saltB64))
  }

  /**
   `decryptEntry`: key derivation and the decoding of the ciphertext and IV run before the
   `try`, so their exceptions reach the caller as they are; whatever AES-GCM decryption
   throws is replaced by one fixed message.
   */
  function DecryptEntry(w: Primitives, masterPassword: string, ciphertextB64: string,
                        ivB64: string, saltB64: string): (r: Result<string, Error>)
    ensures DeriveKey(w, masterPassword, saltB64).Failure? ==>
              r == Failure(DeriveKey(w, masterPassword, saltB64).error)
    ensures DeriveKey(w, masterPassword, saltB64).Success? &&
            (Base64.Decode(ciphertextB64).Failure? || Base64.Decode(ivB64).Failure?) ==>
              r == Failure(DecodeFailed(Base64.InvalidCharacter))
    ensures DeriveKey(w, masterPassword, saltB64).Success? &&
            Base64.Decode(ciphertextB64).Success? && Base64.Decode(ivB64).Success? ==>
              var p := w.aesGcmDecrypt(DeriveKey(w, masterPassword, saltB64).value,
                                       Base64.Decode(ivB64).value, Base64.Decode(ciphertextB64).value);
              (p.Failure? ==> r == Failure(Message(DecryptFailedMessage))) &&
              (p.Success? ==> r == Success(w.utf8Decode(p.value)))
  {
    var key :- DeriveKey(w, masterPassword, saltB64);
    var ct :- B642Ab(ciphertextB64);
    var iv :- B642Ab(ivB64);
    match w.aesGcmDecrypt(key, iv, ct)
    case Failure(_) => Failure(Message(DecryptFailedMessage))
    case Success(plain) => Success(w.utf8Decode(plain))
  }

  /** `b642ab(ab2b64(b))` is `b`, so decoding never fails on what the service encoded. */
  lemma B642AbOfAb2B64(b: Bytes)
    ensures B642Ab(Base64.Encode(b)) == Success(b)
  {
    Base64.DecodeEncode(b);
  }

  /** Decrypting an envelope with the password that sealed it gives back the plaintext. */
  lemma EncryptDecryptRoundTrip(w: Primitives, masterPassword: string, plaintext: string,
                                saltBuf: Bytes, ivBuf: Bytes)
    requires AeadRoundTrip(w) && Utf8RoundTrip(w)
    requires !StartsWithBom(plaintext)
    requires |saltBuf| == SaltLength && |ivBuf| == IvLength
    requires EncryptWithMaster(w, masterPassword, plaintext, saltBuf, ivBuf).Success?
    ensures var e := EncryptWithMaster(w, masterPassword, plaintext, saltBuf, ivBuf).value;
            DecryptEntry(w, masterPassword, e.ciphertext, e.iv, e.salt) == Success(plaintext)
  {
    var e := EncryptWithMaster(w, masterPassword, plaintext, saltBuf, ivBuf).value;
    var key := KeyFor(w, masterPassword, saltBuf).value;
    assert DeriveKey(w, masterPassword, e.salt) == Success(key);
    var m := w.utf8Encode(plaintext);
    assert w.aesGcmDecrypt(key, ivBuf, w.aesGcmEncrypt(key, ivBuf, m).value) == Success(m);
  }

  /** A password whose key differs from the sealing key meets the fixed failure message. */
  lemma WrongPasswordFails(w: Primitives, masterPassword: string, otherPassword: string,
                           plaintext: string, saltBuf: Bytes, ivBuf: Bytes)
    requires |saltBuf| == SaltLength && |ivBuf| == IvLength
    requires EncryptWithMaster(w, masterPassword, plaintext, saltBuf, ivBuf).Success?
    requires KeyFor(w, otherPassword, saltBuf).Success?
    requires KeyFor(w, otherPassword, saltBuf) != KeyFor(w, masterPassword, saltBuf)
    requires RejectsUnderKey(w, KeyFor(w, masterPassword, saltBuf).value, KeyFor(w, otherPassword, saltBuf).value,
                             ivBuf, w.utf8Encode(plaintext))
    ensures var e := EncryptWithMaster(w, masterPassword, plaintext, saltBuf, ivBuf).value;
            DecryptEntry(w, otherPassword, e.ciphertext, e.iv, e.salt) == Failure(Message(DecryptFailedMessage))
  {
    var e := EncryptWithMaster(w, masterPassword, plaintext, saltBuf, ivBuf).value;
    var key := KeyFor(w, masterPassword, saltBuf).value;
    var other := KeyFor(w, otherPassword, saltBuf).value;
    assert DeriveKey(w, otherPassword, e.salt) == Success(other);
  }
}
