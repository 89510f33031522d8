# Kyber/Dilithium handshake demo, modelled in Dafny

The system is a two-peer authenticated key exchange. A server (the responder) holds a long-term
Dilithium signing key. For each handshake it generates an ephemeral Kyber keypair, keeps the
secret half and sends the public half signed with its long-term key. A client (the initiator)
holds the server's Dilithium verification key. It verifies that signature, encapsulates against
the Kyber public key and keeps the resulting shared secret; it sends the ciphertext back. The
server decapsulates it and gets the same secret. Both peers then use AES-256-GCM keyed by that
secret, with a random 12-byte nonce per message. Keys are loaded from text files of
comma-separated decimal bytes.

The model has these modules:

- `Wrappers` holds `Option`, `Result` and `Outcome`.
- `Shared` models `src/shared.rs`: the fixed sizes (shared secret 32 bytes, Kyber ciphertext
  1088, nonce 12) as subset types, and the failure values that stand for each panic of the
  peers. It also models the parse that `read_key` does on the text of a key file: `str::split(',')`,
  `str::trim` (the full Unicode White_Space set, as Rust's `char::is_whitespace` uses),
  `u8::from_str` (one optional `+`, then digits checked for overflow as they are read), the
  all-or-nothing `collect` and the length check. It adds the lemmas that tie these together: field
  count, split/join inverses, trimming of padding, and the round trip from bytes to text and back.
- `Primitives` stands for the foreign crates. Dilithium sign/verify, Kyber keypair, encapsulate
  and decapsulate, nonce generation and AES-GCM encrypt/decrypt are arbitrary total functions in a
  `Library` value, so nothing is assumed about them. A random number generator is a `RandomSource`
  object: an arbitrary stream of seeds and a count of seeds drawn. Three predicates say what the
  protocol relies on the libraries for: `SignatureCorrect`, `KemCorrect` and `AeadCorrect`. They
  are never assumed. They appear only as hypotheses of the results that need them.
- `Channel` models `encrypt_message` and `decrypt_message` of `src/shared.rs`.
- `ServerSession.Server` models `src/server.rs`. It is a class with `const lib`, `const dilSk`
  (assigned only at creation, so it can never change), and the fields `kybSk` and
  `sharedSecret`, which its methods change in place. `Sign` is `self.dil_sk.sign(msg)`.
- `ClientSession.Client` models `src/client.rs`. It has `const pk` and the field `sharedSecret`.
  `Verify` is the pure predicate `self.pk.verify(msg, &sig)`.
- `Protocol` models the run in `src/main.rs`: the handshake and one round of the conversation.

Each `unwrap`/`panic!` of the source becomes a `Failure` value in the method's result. On that
path the peer's own fields are left as they were (a seed already drawn stays drawn), so the
point where the process would abort is visible to the caller. `Protocol.Handshake` keeps
whatever the steps before the failing one changed. Randomness is a `RandomSource` argument. A method that does not draw a seed cannot
have reached the library call that needs one. That is how the model states that the client
encapsulates only after verification succeeds, and that encrypting without a secret uses no
randomness.

## Model

| member | source | states |
|---|---|---|
| `Shared.Split` | src/shared.rs:16 | `split(',')` always yields at least one field (the empty text gives one empty field) |
| `Shared.SplitFieldCount` | src/shared.rs:15-16 | the number of fields is the number of commas plus one |
| `Shared.SplitFieldsCommaFree` | src/shared.rs:16 | no field contains a comma |
| `Shared.JoinSplit` | src/shared.rs:16 | joining the fields with commas gives back the text |
| `Shared.SplitJoin` | src/shared.rs:16 | splitting comma-free fields joined with commas gives back the fields |
| `Shared.Trim` | src/shared.rs:17 | the trimmed field is no longer than the field, and neither end of it is whitespace |
| `Shared.TrimPadded` | src/shared.rs:17 | trimming removes exactly whitespace-only padding on either side of a text whose ends are not whitespace |
| `Shared.AccumulateDigits` | src/shared.rs:17 | the checked digit loop of `u8::from_str` succeeds exactly when every character is a digit and the decimal value is at most 255, and then returns that value |
| `Shared.ParseU8` | src/shared.rs:17 | `u8::from_str` accepts exactly an optional single `+` followed by one or more digits whose value is at most 255 (leading zeros allowed), and returns that value |
| `Shared.ParseField` | src/shared.rs:17 | the closure of `read_key` accepts a field exactly when its trimmed text is a `u8` literal, and yields that literal's decimal value |
| `Shared.ParseFields` | src/shared.rs:15-19 | the collect succeeds exactly when every trimmed field parses; then it has one byte per field, in field order |
| `Shared.ReadKey` | src/shared.rs:12-28 | success exactly when every field parses and there are `length` of them; the i-th byte is the i-th field's value; a bad field is reported, with no partial result, before any length check; a wrong count is reported with expected and actual counts |
| `Shared.ReadKeyCountsCommas` | src/shared.rs:15-27 | a key that parses has one byte more than the text has commas |
| `Shared.ReadKeyNeverEmpty` | src/shared.rs:15-27 | no text is accepted as a key of length zero |
| `Shared.ParseRenderedField` | src/shared.rs:17 | a byte written as whitespace, optional `+`, leading zeros, its numeral and whitespace is comma-free and parses back to that byte |
| `Shared.ReadKeyRoundTrip` | src/shared.rs:15-27 | any non-empty byte sequence, written as padded decimal fields joined by commas, is read back by `read_key` as exactly those bytes, with the expected length |
| `Shared.ReadKeyPlainRoundTrip` | src/shared.rs:15-27 | the plain rendering `b1,b2,...` of any non-empty byte sequence, with no spaces, signs or leading zeros, is read back as exactly those bytes |
| `Channel.Seal` | src/shared.rs:30-35 | encryption fails with `EncryptionFailed` exactly when the cipher fails; otherwise it returns the nonce generated from the seed together with the cipher's output under that nonce and the secret |
| `Channel.EncryptMessage` | src/shared.rs:30-35 | encryption draws exactly one seed for the nonce and returns that nonce with the cipher's output, or fails when the cipher fails |
| `Channel.DecryptMessage` | src/shared.rs:37-41 | decryption fails with `DecryptionFailed`, giving no plaintext, exactly when the tag does not verify; otherwise it returns the cipher's plaintext |
| `Channel.SealThenDecrypt` | src/shared.rs:30-41 | under the AES-GCM correctness assumption, what `encrypt_message` returns decrypts to the plaintext under the same secret, and encryption fails only as the cipher's own failure |
| `ServerSession.Server.FromKey` | src/server.rs:16-20 | a new server holds the given signing key, no Kyber secret key and no shared secret |
| `ServerSession.Server.New` | src/server.rs:15-21 | `new` fails exactly when the key file does not parse to `SECRETKEYBYTES` bytes; otherwise the signing key is the parsed bytes and `kybSk` and `sharedSecret` are `None` |
| `ServerSession.Server.GenerateKyberKeys` | src/server.rs:56-62 | draws one seed; on success `kybSk` is the new keypair's secret half, overwriting any previous one, and its public half is returned; a keypair failure changes nothing; the shared secret is untouched |
| `ServerSession.Server.GeneratePkAndSig` | src/server.rs:23-26 | returns the new keypair's public key with the Dilithium signature of those bytes under `dilSk`, and keeps the secret half in `kybSk`; the shared secret is untouched |
| `ServerSession.Server.Sign` | src/server.rs:52-54 | the signature is the deterministic Dilithium signature of the message under the long-term key `dilSk`; it reads no session state |
| `ServerSession.Server.AcceptCiphertext` | src/server.rs:28-34 | without a Kyber secret key nothing changes and the call returns normally; with one, the shared secret becomes its decapsulation of the ciphertext, or the call fails leaving it unchanged; `kybSk` is never cleared |
| `ServerSession.Server.EncryptMessage` | src/server.rs:36-42 | fails with `MissingSharedSecret`, drawing no randomness, exactly when there is no shared secret; otherwise it encrypts under that secret; server state is unchanged |
| `ServerSession.Server.DecryptMessage` | src/server.rs:44-50 | fails with `MissingSharedSecret` exactly when there is no shared secret; otherwise it decrypts under that secret; server state is unchanged |
| `ClientSession.Client.FromKey` | src/client.rs:14-17 | a new client holds the given verification key and no shared secret |
| `ClientSession.Client.New` | src/client.rs:13-18 | `new` fails exactly when the key file does not parse to `PUBLICKEYBYTES` bytes; otherwise the key is the parsed bytes and `sharedSecret` is `None` |
| `ClientSession.Client.Verify` | src/client.rs:20-22 | a pure predicate: the Dilithium verdict on the signature of the message under the held key `pk`; it reads and changes no session state |
| `ClientSession.Client.AcceptPkAndSig` | src/client.rs:24-37 | a signature that does not verify under `pk` fails, with the shared secret unchanged and no randomness drawn (so no encapsulation); a valid one leads to exactly one encapsulation, whose secret is stored and whose ciphertext is returned |
| `ClientSession.Client.EncryptMessage` | src/client.rs:39-45 | fails with `MissingSharedSecret`, drawing no randomness, exactly when there is no shared secret; otherwise it encrypts under that secret; client state is unchanged |
| `ClientSession.Client.DecryptMessage` | src/client.rs:47-53 | fails with `MissingSharedSecret` exactly when there is no shared secret; otherwise it decrypts under that secret; client state is unchanged |
| `Protocol.SignedKeyVerifies` | src/server.rs:52-54 | when the client's verification key matches the server's signing key, every signature the server makes passes the client's check |
| `Protocol.Handshake` | src/main.rs:12-19 | after a complete handshake and under the KEM correctness assumption, both peers hold the same shared secret; a server whose signing key matches the client's key is never rejected; a rejected signature leaves both secrets as they were; the server still holds its Kyber secret key |
| `Protocol.ExchangeRound` | src/main.rs:24-36 | with the same secret on both sides and a correct cipher, each peer decrypts exactly what the other encrypted, and the only possible failure is the cipher's own encryption failure; without a client secret the round fails with `MissingSharedSecret` |

## Left out

- Reading the key files (`fs::read_to_string`) is I/O. `New` takes the text of the file as an argument.
- Dilithium, Kyber and AES-256-GCM are foreign crates whose code is not part of this model. They
  are arbitrary functions in `Library`. Only three things are stated about them, and only as
  hypotheses: signature correctness, KEM agreement and AEAD round trip. None is proved.
- The Dilithium key sizes (`SECRETKEYBYTES`, `PUBLICKEYBYTES`) come from that crate and are
  values of `Library`. `from_bytes` on a key is taken to keep its bytes. The lengths of the Kyber
  public and secret keys and of the Dilithium signature are not modelled: those types are byte
  sequences of any length, where the crates use fixed-size arrays.
- Each library call that takes `&mut rng` draws one seed. How many random bytes the crates
  really consume is not modelled. Nonces come from `RandomSource`, and their uniqueness is
  probabilistic, so it is not stated.
- Panic and `eprintln!` messages, `println!` output and the `String::from_utf8(..).unwrap()` in
  `src/main.rs` are not modelled. A panic is a `Failure` value. `u8::from_str` error kinds are
  not told apart.
- `Protocol.ExchangeRound` models one iteration of the three-iteration loop in `src/main.rs` (each iteration sends two messages), not
  the loop.
- The behaviour of the source is kept as written. `accept_ciphertext` without a Kyber secret key
  only logs and returns normally (src/server.rs:31-33). `kyb_sk` is never cleared, not even
  after decapsulation. Calling `generate_pk_and_sig` again replaces the Kyber key and keeps any
  shared secret. Bad input aborts the process; the model shows each abort as a `Failure` value.
