/**
 * The responder of src/server.rs. It holds its long-term Dilithium signing
 * key, and optionally the secret half of the ephemeral Kyber keypair and the
 * shared secret; its methods move those two fields forward in place.
 */
module ServerSession {
  import opened Wrappers
  import opened Shared
  import opened Primitives
  import Channel

  class Server {
    const lib: Library
    /** Assigned once, when the server is created. */
    const dilSk: DilithiumSecretKey
    var kybSk: Option<KyberSecretKey>
    var sharedSecret: Option<SharedSecret>

    constructor FromKey(lib: Library, dilSk: DilithiumSecretKey)
      ensures this.lib == lib && this.dilSk == dilSk
      ensures kybSk == None && sharedSecret == None
    {
      this.lib := lib;
      this.dilSk := dilSk;
      kybSk := None;
      sharedSecret := None;
    }

    /**
     * `Server::new`, given the text of the signing-key file: the key is the
     * parsed file, and neither a Kyber key nor a shared secret is held yet.
     */
    static method New(lib: Library, keyFile: string) returns (res: Result<Server, Failure>)
      ensures var key := ReadKey(keyFile, lib.dilithiumSecretKeyBytes);
        && (key.Failure? ==> res == Failure(KeyLoadFailed(key.error)))
        && (key.Success? ==>
              && res.Success? && fresh(res.value)
              && res.value.lib == lib && res.value.dilSk == key.value
              && res.value.kybSk == None && res.value.sharedSecret == None)
    {
      var key := ReadKey(keyFile, lib.dilithiumSecretKeyBytes);
      if key.Failure? {
        return Failure(KeyLoadFailed(key.error));
      }
      var server := new Server.FromKey(lib, key.value);
      res := Success(server);
    }

    /**
     * `sign`: the Dilithium signature of `msg` under the long-term key. It
     * reads only constants, so it depends on neither the Kyber key nor the
     * shared secret.
     */
    function Sign(msg: seq<byte>): (sig: Signature)
      ensures sig == lib.dilithiumSign(dilSk, msg)
    {
      lib.dilithiumSign(dilSk, msg)
    }

    /**
     * `generate_kyber_keys`: draws one seed for a fresh keypair, keeps its
     * secret half (replacing any earlier one) and returns its public half.
     */
    method GenerateKyberKeys(rng: RandomSource) returns (res: Result<KyberPublicKey, Failure>)
      modifies this, rng
      ensures rng.drawn == old(rng.drawn) + 1
      ensures sharedSecret == old(sharedSecret)
      ensures var keys := lib.kyberKeypair(rng.stream(old(rng.drawn)));
        && (keys.None? ==> res == Failure(KeypairFailed) && kybSk == old(kybSk))
        && (keys.Some? ==> res == Success(keys.value.public) && kybSk == Some(keys.value.secret))
    {
      var seed := rng.Next();
      var keys := lib.kyberKeypair(seed);
      if keys.None? {
        return Failure(KeypairFailed);
      }
      kybSk := Some(keys.value.secret);
      res := Success(keys.value.public);
    }

    /**
     * `generate_pk_and_sig`: message 1 of the handshake, the public half of
     * a fresh keypair whose secret half is now held, and the signature of
     * that public key's bytes under the long-term key.
     */
    method GeneratePkAndSig(rng: RandomSource) returns (res: Result<(KyberPublicKey, Signature), Failure>)
      modifies this, rng
      ensures rng.drawn == old(rng.drawn) + 1
      ensures sharedSecret == old(sharedSecret)
      ensures var keys := lib.kyberKeypair(rng.stream(old(rng.drawn)));
        && (keys.None? ==> res == Failure(KeypairFailed) && kybSk == old(kybSk))
        && (keys.Some? ==>
              && kybSk == Some(keys.value.secret)
              && res == Success((keys.value.public, lib.dilithiumSign(dilSk, keys.value.public))))
    {
      var pk := GenerateKyberKeys(rng);
      if pk.Failure? {
        return Failure(pk.error);
      }
      res := Success((pk.value, Sign(pk.value)));
    }

    /**
     * `accept_ciphertext`: with a Kyber secret key held, the shared secret
     * becomes the decapsulation of `ciphertext` (the key is kept); without
     * one, nothing changes and the call returns normally, having only logged.
     */
    method AcceptCiphertext(ciphertext: CipherText) returns (res: Outcome<Failure>)
      modifies this
      ensures kybSk == old(kybSk)
      ensures kybSk.None? ==> res == Pass && sharedSecret == old(sharedSecret)
      ensures kybSk.Some? ==>
        match lib.kyberDecapsulate(ciphertext, kybSk.value)
        case None => res == Fail(DecapsulationFailed) && sharedSecret == old(sharedSecret)
        case Some(ss) => res == Pass && sharedSecret == Some(ss)
    {
      if kybSk.Some? {
        var ss := lib.kyberDecapsulate(ciphertext, kybSk.value);
        if ss.None? {
          return Fail(DecapsulationFailed);
        }
        sharedSecret := Some(ss.value);
      }
      res := Pass;
    }

    /**
     * `encrypt_message`: fails, drawing no randomness, when no shared secret
     * is held; otherwise encrypts under it with a nonce drawn from `rng`.
     */
    method EncryptMessage(plaintext: seq<byte>, rng: RandomSource) returns (res: Result<(Nonce, seq<byte>), Failure>)
      modifies rng
      ensures sharedSecret.None? ==> res == Failure(MissingSharedSecret) && rng.drawn == old(rng.drawn)
      ensures sharedSecret.Some? ==>
        && rng.drawn == old(rng.drawn) + 1
        && res == Channel.Seal(lib, plaintext, sharedSecret.value, rng.stream(old(rng.drawn)))
    {
      if sharedSecret.None? {
        return Failure(MissingSharedSecret);
      }
      res := Channel.EncryptMessage(lib, plaintext, sharedSecret.value, rng);
    }

    /**
     * `decrypt_message`: fails with `MissingSharedSecret` exactly when no
     * shared secret is held; otherwise decrypts under it.
     */
    method DecryptMessage(ciphertext: seq<byte>, nonce: Nonce) returns (res: Result<seq<byte>, Failure>)
      ensures res == Failure(MissingSharedSecret) <==> sharedSecret.None?
      ensures sharedSecret.Some? ==> res == Channel.DecryptMessage(lib, ciphertext, nonce, sharedSecret.value)
    {
      if sharedSecret.None? {
        return Failure(MissingSharedSecret);
      }
      res := Channel.DecryptMessage(lib, ciphertext, nonce, sharedSecret.value);
    }
  }
}
