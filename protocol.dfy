/**
 * The run of src/main.rs over the two peers: the two-message handshake,
 * then one round of the conversation (client to server, server to client).
 * Console output and the UTF-8 decoding of the plaintexts are not modelled.
 */
module Protocol {
  import opened Wrappers
  import opened Shared
  import opened Primitives
  import opened ServerSession
  import opened ClientSession
  import Channel

  /**
   * When the client's verification key matches the server's signing key,
   * whatever the server signs passes the client's check; in particular the
   * Kyber public key of message 1. It applies the signature assumption to
   * the server's signature; `Handshake` uses it for its completeness clause.
   */
  lemma SignedKeyVerifies(server: Server, client: Client, msg: seq<byte>)
    requires server.lib == client.lib
    requires SignatureCorrect(server.lib, server.dilSk, client.pk)
    ensures client.Verify(server.Sign(msg), msg)
  {
    assert server.lib.dilithiumVerify(client.pk, msg, server.lib.dilithiumSign(server.dilSk, msg));
  }

  /**
   * `generate_pk_and_sig`, `accept_pk_and_sig`, `accept_ciphertext` in turn,
   * stopping at the first failure. When it completes and Kyber decapsulation
   * inverts encapsulation, both peers hold the same shared secret; a server
   * whose signing key matches the client's verification key is never
   * rejected; and the server still holds its ephemeral secret key.
   */
  method Handshake(server: Server, client: Client, serverRng: RandomSource, clientRng: RandomSource)
    returns (res: Outcome<Failure>)
    requires server.lib == client.lib
    modifies server, client, serverRng, clientRng
    ensures res.Pass? && KemCorrect(server.lib) ==>
      server.sharedSecret.Some? && server.sharedSecret == client.sharedSecret
    ensures res.Pass? ==> server.kybSk.Some? && client.sharedSecret.Some?
    ensures SignatureCorrect(server.lib, server.dilSk, client.pk) ==> res != Fail(VerificationFailed)
    ensures res == Fail(VerificationFailed) ==>
      client.sharedSecret == old(client.sharedSecret) && server.sharedSecret == old(server.sharedSecret)
  {
    ghost var keySeed := serverRng.stream(serverRng.drawn);
    var message1 := server.GeneratePkAndSig(serverRng);
    if message1.Failure? {
      return Fail(message1.error);
    }
    var (kyberPk, sig) := message1.value;
    if SignatureCorrect(server.lib, server.dilSk, client.pk) {
      SignedKeyVerifies(server, client, kyberPk);
    }
    ghost var encSeed := clientRng.stream(clientRng.drawn);
    var message2 := client.AcceptPkAndSig(kyberPk, sig, clientRng);
    if message2.Failure? {
      return Fail(message2.error);
    }
    res := server.AcceptCiphertext(message2.value);
    assert KemCorrect(server.lib) ==> KemAgrees(server.lib, keySeed, encSeed);
  }

  /**
   * One round of the conversation: the client's message is encrypted by the
   * client and decrypted by the server, then the server's message the other
   * way. With a secret held by both and a correct cipher, each side reads
   * what the other sent.
   */
  method ExchangeRound(client: Client, server: Server, clientMsg: seq<byte>, serverMsg: seq<byte>,
                       clientRng: RandomSource, serverRng: RandomSource)
    returns (res: Result<(seq<byte>, seq<byte>), Failure>)
    requires client.lib == server.lib
    modifies clientRng, serverRng
    ensures client.sharedSecret.None? ==> res == Failure(MissingSharedSecret)
    ensures res.Success? ==> client.sharedSecret.Some? && server.sharedSecret.Some?
    ensures AeadCorrect(client.lib) && client.sharedSecret.Some? && client.sharedSecret == server.sharedSecret ==>
      && (res.Success? ==> res.value == (clientMsg, serverMsg))
      && (res.Failure? ==> res.error == EncryptionFailed)
  {
    ghost var clientSeed := clientRng.stream(clientRng.drawn);
    var sealed := client.EncryptMessage(clientMsg, clientRng);
    if sealed.Failure? {
      return Failure(sealed.error);
    }
    var fromClient := server.DecryptMessage(sealed.value.1, sealed.value.0);
    if fromClient.Failure? {
      if AeadCorrect(client.lib) && client.sharedSecret == server.sharedSecret {
        Channel.SealThenDecrypt(client.lib, clientMsg, client.sharedSecret.value, clientSeed);
      }
      return Failure(fromClient.error);
    }
    ghost var serverSeed := serverRng.stream(serverRng.drawn);
    var reply := server.EncryptMessage(serverMsg, serverRng);
    if reply.Failure? {
      return Failure(reply.error);
    }
    var fromServer := client.DecryptMessage(reply.value.1, reply.value.0);
    if fromServer.Failure? {
      if AeadCorrect(client.lib) && client.sharedSecret == server.sharedSecret {
        Channel.SealThenDecrypt(client.lib, serverMsg, server.sharedSecret.value, serverSeed);
      }
      return Failure(fromServer.error);
    }
    if AeadCorrect(client.lib) && client.sharedSecret.Some? && client.sharedSecret == server.sharedSecret {
      Channel.SealThenDecrypt(client.lib, clientMsg, client.sharedSecret.value, clientSeed);
      Channel.SealThenDecrypt(client.lib, serverMsg, server.sharedSecret.value, serverSeed);
    }
    res := Success((fromClient.value, fromServer.value));
  }
}
