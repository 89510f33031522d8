/**
 * `encrypt_message` and `decrypt_message` of src/shared.rs: AES-256-GCM
 * keyed by the shared secret, with a fresh nonce drawn from `OsRng` for
 * every encryption. The cipher itself is a `Library` primitive.
 */
module Channel {
  import opened Wrappers
  import opened Shared
  import opened Primitives

  /** The nonce and ciphertext `encrypt_message` returns when `OsRng` yields `seed`. */
  function Seal(lib: Library, plaintext: seq<byte>, secret: SharedSecret, seed: Seed): (r: Result<(Nonce, seq<byte>), Failure>)
    ensures r.Failure? <==> lib.aesGcmEncrypt(secret, lib.generateNonce(seed), plaintext).None?
    ensures r.Failure? ==> r.error == EncryptionFailed
    ensures r.Success? ==>
      && r.value.0 == lib.generateNonce(seed)
      && lib.aesGcmEncrypt(secret, r.value.0, plaintext) == Some(r.value.1)
  {
    var nonce := lib.generateNonce(seed);
    match lib.aesGcmEncrypt(secret, nonce, plaintext)
    case None => Failure(EncryptionFailed)
    case Some(ciphertext) => Success((nonce, ciphertext))
  }

  /** `encrypt_message`: draws one nonce from `rng`, then encrypts. */
  method EncryptMessage(lib: Library, plaintext: seq<byte>, secret: SharedSecret, rng: RandomSource)
    returns (res: Result<(Nonce, seq<byte>), Failure>)
    modifies rng
    ensures rng.drawn == old(rng.drawn) + 1
    ensures res == Seal(lib, plaintext, secret, rng.stream(old(rng.drawn)))
  {
    var seed := rng.Next();
    res := Seal(lib, plaintext, secret, seed);
  }

  /** `decrypt_message`: the plaintext, or a failure when the tag does not verify. */
  function DecryptMessage(lib: Library, ciphertext: seq<byte>, nonce: Nonce, secret: SharedSecret): (r: Result<seq<byte>, Failure>)
    ensures r.Failure? <==> lib.aesGcmDecrypt(secret, nonce, ciphertext).None?
    ensures r.Failure? ==> r.error == DecryptionFailed
    ensures r.Success? ==> lib.aesGcmDecrypt(secret, nonce, ciphertext) == Some(r.value)
  {
    match lib.aesGcmDecrypt(secret, nonce, ciphertext)
    case None => Failure(DecryptionFailed)
    case Some(plaintext) => Success(plaintext)
  }

  /**
   * Under the AEAD assumption, what `encrypt_message` returns decrypts to the
   * plaintext under the same secret, and encryption fails only as the
   * cipher's own failure.
   */
  lemma SealThenDecrypt(lib: Library, plaintext: seq<byte>, secret: SharedSecret, seed: Seed)
    requires AeadCorrect(lib)
    ensures Seal(lib, plaintext, secret, seed).Failure? ==>
              Seal(lib, plaintext, secret, seed).error == EncryptionFailed
    ensures Seal(lib, plaintext, secret, seed).Success? ==>
              var (nonce, ciphertext) := Seal(lib, plaintext, secret, seed).value;
              DecryptMessage(lib, ciphertext, nonce, secret) == Success(plaintext)
  {
    var nonce := lib.generateNonce(seed);
    if lib.aesGcmEncrypt(secret, nonce, plaintext).Some? {
      assert lib.aesGcmDecrypt(secret, nonce, lib.aesGcmEncrypt(secret, nonce, plaintext).value) == Some(plaintext);
    }
  }
}
