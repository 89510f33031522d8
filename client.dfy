/**
 * The initiator of src/client.rs. It holds the responder's Dilithium public
 * key and optionally the shared secret, which only `AcceptPkAndSig` sets.
 */
module ClientSession {
  import opened Wrappers
  import opened Shared
  import opened Primitives
  import Channel

  class Client {
    const lib: Library
    /** The responder's verification key, assigned once. */
    const pk: DilithiumPublicKey
    var sharedSecret: Option<SharedSecret>

    constructor FromKey(lib: Library, pk: DilithiumPublicKey)
      ensures this.lib == lib && this.pk == pk
      ensures sharedSecret == None
    {
      this.lib := lib;
      this.pk := pk;
      sharedSecret := None;
    }

    /**
     * `Client::new`, given the text of the verification-key file: the key is
     * the parsed file, and no shared secret is held yet.
     */
    static method New(lib: Library, keyFile: string) returns (res: Result<Client, Failure>)
      ensures var key := ReadKey(keyFile, lib.dilithiumPublicKeyBytes);
        && (key.Failure? ==> res == Failure(KeyLoadFailed(key.error)))
        && (key.Success? ==>
              && res.Success? && fresh(res.value)
              && res.value.lib == lib && res.value.pk == key.value
              && res.value.sharedSecret == None)
    {
      var key := ReadKey(keyFile, lib.dilithiumPublicKeyBytes);
      if key.Failure? {
        return Failure(KeyLoadFailed(key.error));
      }
      var client := new Client.FromKey(lib, key.value);
      res := Success(client);
    }

    /**
     * `verify`: whether `sig` is a signature of `msg` under the responder's
     * key. It reads only constants, so it changes and depends on no session state.
     */
    predicate Verify(sig: Signature, msg: seq<byte>): (ok: bool)
      ensures ok <==> lib.dilithiumVerify(pk, msg, sig)
    {
      lib.dilithiumVerify(pk, msg, sig)
    }

    /**
     * `accept_pk_and_sig`: a signature that does not verify fails before any
     * randomness is drawn and leaves the shared secret alone; a valid one
     * leads to one encapsulation against `kyberPk`, whose secret is kept
     * and whose ciphertext is message 2 of the handshake.
     */
    method AcceptPkAndSig(kyberPk: KyberPublicKey, sig: Signature, rng: RandomSource)
      returns (res: Result<CipherText, Failure>)
      modifies this, rng
      ensures !Verify(sig, kyberPk) ==>
        res == Failure(VerificationFailed) && sharedSecret == old(sharedSecret) && rng.drawn == old(rng.drawn)
      ensures Verify(sig, kyberPk) ==>
        && rng.drawn == old(rng.drawn) + 1
        && match lib.kyberEncapsulate(kyberPk, rng.stream(old(rng.drawn)))
           case None => res == Failure(EncapsulationFailed) && sharedSecret == old(sharedSecret)
           case Some(enc) => res == Success(enc.0) && sharedSecret == Some(enc.1)
    {
      if !Verify(sig, kyberPk) {
        return Failure(VerificationFailed);
      }
      var seed := rng.Next();
      var enc := lib.kyberEncapsulate(kyberPk, seed);
      if enc.None? {
        return Failure(EncapsulationFailed);
      }
      var (ciphertext, ss) := enc.value;
      sharedSecret := Some(ss);
      res := Success(ciphertext);
    }

    /**
     * `encrypt_message`: fails, drawing no randomness, when no shared secret
     * is held; otherwise encrypts under it with a nonce drawn from `rng`.
     */
    method EncryptMessage(plaintext: seq<byte>, rng: RandomSource) returns (res: Result<(Nonce, seq<byte>), Failure>)
      modifies rng
      ensures sharedSecret.None? ==> res == Failure(MissingSharedSecret) && rng.drawn == old(rng.drawn)
      ensures sharedSecret.Some? ==>
        && rng.drawn == old(rng.drawn) + 1
        && res == Channel.Seal(lib, plaintext, sharedSecret.value, rng.stream(old(rng.drawn)))
    {
      if sharedSecret.None? {
        return Failure(MissingSharedSecret);
      }
      res := Channel.EncryptMessage(lib, plaintext, sharedSecret.value, rng);
    }

    /**
     * `decrypt_message`: fails with `MissingSharedSecret` exactly when no
     * shared secret is held; otherwise decrypts under it.
     */
    method DecryptMessage(ciphertext: seq<byte>, nonce: Nonce) returns (res: Result<seq<byte>, Failure>)
      ensures res == Failure(MissingSharedSecret) <==> sharedSecret.None?
      ensures sharedSecret.Some? ==> res == Channel.DecryptMessage(lib, ciphertext, nonce, sharedSecret.value)
    {
      if sharedSecret.None? {
        return Failure(MissingSharedSecret);
      }
      res := Channel.DecryptMessage(lib, ciphertext, nonce, sharedSecret.value);
    }
  }
}
