/**
 * The foreign crates the peers call (crystals_dilithium, kyberlib, aes_gcm,
 * rand), whose code is not part of this model. Each primitive is an arbitrary
 * total function held in a `Library` value, so that nothing is assumed about
 * it; what the handshake relies on is stated as a predicate over a `Library`
 * and used only as an explicit hypothesis.
 */
module Primitives {
  import opened Wrappers
  import opened Shared

  /** What one draw from a random number generator yields. */
  type Seed = seq<byte>

  type DilithiumSecretKey = seq<byte>
  type DilithiumPublicKey = seq<byte>
  type Signature = seq<byte>
  type KyberPublicKey = seq<byte>
  type KyberSecretKey = seq<byte>

  /** `kyberlib::Keypair`. */
  datatype KyberKeypair = KyberKeypair(public: KyberPublicKey, secret: KyberSecretKey)

  datatype Library = Library(
    /** `dilithium5::SecretKey::sign(msg)`, deterministic. */
    dilithiumSign: (DilithiumSecretKey, seq<byte>) -> Signature,
    /** `dilithium5::PublicKey::verify(msg, sig)`. */
    dilithiumVerify: (DilithiumPublicKey, seq<byte>, Signature) -> bool,
    /** `dilithium5::SECRETKEYBYTES` and `dilithium5::PUBLICKEYBYTES`. */
    dilithiumSecretKeyBytes: nat,
    dilithiumPublicKeyBytes: nat,
    /** `kyberlib::keypair(rng)`; `None` is its `Err`. */
    kyberKeypair: Seed -> Option<KyberKeypair>,
    /** `kyberlib::encapsulate(pk, rng)`, giving `(ciphertext, shared secret)`. */
    kyberEncapsulate: (KyberPublicKey, Seed) -> Option<(CipherText, SharedSecret)>,
    /** `kyberlib::decapsulate(ciphertext, sk)`. */
    kyberDecapsulate: (CipherText, KyberSecretKey) -> Option<SharedSecret>,
    /** `Aes256Gcm::generate_nonce(OsRng)`. */
    generateNonce: Seed -> Nonce,
    /** `Aes256Gcm::new(key).encrypt(nonce, plaintext)`, ciphertext with tag. */
    aesGcmEncrypt: (SharedSecret, Nonce, seq<byte>) -> Option<seq<byte>>,
    /** `Aes256Gcm::new(key).decrypt(nonce, ciphertext)`; `None` when the tag does not verify. */
    aesGcmDecrypt: (SharedSecret, Nonce, seq<byte>) -> Option<seq<byte>>)

  /**
   * A random number generator (`thread_rng`, `OsRng`): an arbitrary stream
   * of seeds, of which `drawn` have been consumed. Every library call that
   * takes `&mut rng` consumes exactly one seed.
   */
  class RandomSource {
    const stream: nat -> Seed
    var drawn: nat

    constructor (stream: nat -> Seed)
      ensures this.stream == stream && drawn == 0
    {
      this.stream := stream;
      drawn := 0;
    }

    /** The next seed of the stream. */
    method Next() returns (seed: Seed)
      modifies this
      ensures drawn == old(drawn) + 1
      ensures seed == stream(old(drawn))
    {
      seed := stream(drawn);
      drawn := drawn + 1;
    }
  }

  // ---------------------------------------------------------------------------
  // Assumptions about the libraries. None of them is proved: each is a
  // hypothesis of the lemmas and scenarios that need it.
  // ---------------------------------------------------------------------------

  /** Assumption: signatures made with `sk` verify under `pk`. */
  ghost predicate SignatureCorrect(lib: Library, sk: DilithiumSecretKey, pk: DilithiumPublicKey)
  {
    forall msg :: lib.dilithiumVerify(pk, msg, lib.dilithiumSign(sk, msg))
  }

  /** Encapsulating against the public half of a generated keypair yields a secret its secret half recovers. */
  ghost predicate KemAgrees(lib: Library, keySeed: Seed, encSeed: Seed)
  {
    match lib.kyberKeypair(keySeed)
    case None => true
    case Some(keys) =>
      match lib.kyberEncapsulate(keys.public, encSeed)
      case None => true
      case Some(enc) => lib.kyberDecapsulate(enc.0, keys.secret) == Some(enc.1)
  }

  /** Assumption: Kyber decapsulation inverts encapsulation. */
  ghost predicate KemCorrect(lib: Library)
  {
    forall keySeed, encSeed :: KemAgrees(lib, keySeed, encSeed)
  }

  /** Assumption: AES-GCM decryption inverts encryption under the same key and nonce. */
  ghost predicate AeadCorrect(lib: Library)
  {
    forall key, nonce, plaintext ::
      lib.aesGcmEncrypt(key, nonce, plaintext).Some? ==>
        lib.aesGcmDecrypt(key, nonce, lib.aesGcmEncrypt(key, nonce, plaintext).value) == Some(plaintext)
  }
}
