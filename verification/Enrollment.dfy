/** src/enrollment.rs: the key exchange that leaves one seed at both ends. */
module Enrollment {
  import opened Machine
  import opened Primitives

  const TOTP_SEED_DOMAIN: Bytes := AsciiBytes("pqauth-totp-seed-v1")
  const TOTP_SEED_LEN: nat := 32

  datatype EnrollmentError =
    | Kyber(cause: KyberError)
    | InvalidServerIdentity
    | InvalidCiphertextLength(expected: nat, got: nat)
    | InvalidPublicKeyLength(expected: nat, got: nat)

  /** What the client is sent. Server identities are the bytes of their text. */
  datatype EnrollmentChallenge = EnrollmentChallenge(kyberPublicKey: Bytes, serverId: Bytes)

  datatype EnrollmentResponse = EnrollmentResponse(ciphertext: Bytes, dilithiumPublicKey: Bytes)

  datatype EnrollmentRecord = EnrollmentRecord(dilithiumPublicKey: Bytes, totpSeed: Bytes, serverId: Bytes)

  datatype ClientEnrollment = ClientEnrollment(totpSeed: Bytes, serverId: Bytes)

  function SeedInput(sharedSecret: Bytes, serverId: Bytes): Bytes {
    TOTP_SEED_DOMAIN + sharedSecret + serverId
  }

  function DeriveTotpSeed(shake: Xof, sharedSecret: Bytes, serverId: Bytes): Bytes {
    shake(SeedInput(sharedSecret, serverId), TOTP_SEED_LEN)
  }

  /** Secrets of the key exchange's length and identities are separated in the hash input. */
  lemma SeedInputInjective(secret1: Bytes, id1: Bytes, secret2: Bytes, id2: Bytes)
    requires |secret1| == |secret2| == KYBER_SHARED_SECRET
    requires SeedInput(secret1, id1) == SeedInput(secret2, id2)
    ensures secret1 == secret2 && id1 == id2
  {
    var i1, i2, d := SeedInput(secret1, id1), SeedInput(secret2, id2), |TOTP_SEED_DOMAIN|;
    assert secret1 == i1[d..d + KYBER_SHARED_SECRET] == i2[d..d + KYBER_SHARED_SECRET] == secret2;
    assert id1 == i1[d + KYBER_SHARED_SECRET..] == i2[d + KYBER_SHARED_SECRET..] == id2;
  }

  /** Under some hash, the seed of one shared secret and identity is the seed of no other. */
  lemma SeedsSeparated(secret: Bytes, id: Bytes) returns (shake: Xof)
    requires |secret| == 32
    ensures forall secret2, id2 :: |secret2| == 32 ==>
      (DeriveTotpSeed(shake, secret2, id2) == DeriveTotpSeed(shake, secret, id) <==> secret2 == secret && id2 == id)
  {
    shake := TellApart(SeedInput(secret, id));
    forall secret2, id2 | |secret2| == 32
      ensures DeriveTotpSeed(shake, secret2, id2)[3] == if secret2 == secret && id2 == id then 0 else 1
    {
      if SeedInput(secret2, id2) == SeedInput(secret, id) {
        SeedInputInjective(secret2, id2, secret, id);
      }
    }
    assert DeriveTotpSeed(shake, secret, id)[3] == 0;
  }

  datatype ServerEnrollment = ServerEnrollment(kyberPublicKey: Bytes, kyberSecretKey: Bytes, serverId: Bytes)
  {
    static function New(lib: Library, serverId: Bytes, seed: Bytes): ServerEnrollment {
      var kp := lib.kyberKeypair(seed);
      ServerEnrollment(kp.publicKey, kp.secretKey, serverId)
    }

    function ToChallenge(): EnrollmentChallenge {
      EnrollmentChallenge(kyberPublicKey, serverId)
    }

    function Complete(lib: Library, response: EnrollmentResponse): (r: Result<EnrollmentRecord, EnrollmentError>)
      ensures r.Ok? ==>
        && r.value.dilithiumPublicKey == response.dilithiumPublicKey
        && |r.value.dilithiumPublicKey| == DILITHIUM_PUBLIC_KEY
        && |r.value.totpSeed| == TOTP_SEED_LEN
        && r.value.serverId == serverId
    {
      if |response.ciphertext| != KYBER_CIPHERTEXT then
        Err(InvalidCiphertextLength(KYBER_CIPHERTEXT, |response.ciphertext|))
      else if |response.dilithiumPublicKey| != DILITHIUM_PUBLIC_KEY then
        Err(InvalidPublicKeyLength(DILITHIUM_PUBLIC_KEY, |response.dilithiumPublicKey|))
      else
        match lib.decapsulate(kyberSecretKey, response.ciphertext)
        case Err(e) => Err(Kyber(e))
        case Ok(sharedSecret) =>
          Ok(EnrollmentRecord(response.dilithiumPublicKey,
                              DeriveTotpSeed(lib.shake, sharedSecret, serverId),
                              serverId))
    }
  }

  function ClientEnroll(lib: Library, challenge: EnrollmentChallenge, dilithiumPublicKey: Bytes, coins: Bytes)
    : Result<(EnrollmentResponse, ClientEnrollment), EnrollmentError>
  {
    if challenge.serverId == [] then
      Err(InvalidServerIdentity)
    else
      match lib.encapsulate(challenge.kyberPublicKey, coins)
      case Err(e) => Err(Kyber(e))
      case Ok(e) =>
        Ok((EnrollmentResponse(e.ciphertext, dilithiumPublicKey),
            ClientEnrollment(DeriveTotpSeed(lib.shake, e.sharedSecret, challenge.serverId), challenge.serverId)))
  }

  /** An honest exchange goes through exactly when the server has an identity and the
      client's key has the right length, and then both ends hold the same seed. */
  lemma SeedAgreement(lib: Library, serverId: Bytes, seed: Bytes, dilithiumPublicKey: Bytes, coins: Bytes)
    requires lib.KemLaw()
    ensures
      var server := ServerEnrollment.New(lib, serverId, seed);
      var client := ClientEnroll(lib, server.ToChallenge(), dilithiumPublicKey, coins);
      && (client.Ok? <==> serverId != [])
      && (serverId == [] ==> client == Err(InvalidServerIdentity))
      && (client.Ok? ==>
            var (response, data) := client.value;
            var record := server.Complete(lib, response);
            && (record.Ok? <==> |dilithiumPublicKey| == DILITHIUM_PUBLIC_KEY)
            && (record.Ok? ==> record.value == EnrollmentRecord(dilithiumPublicKey, data.totpSeed, serverId)))
  {
  }

  /** A completion goes wrong in exactly three ways, the first that applies: a ciphertext
      not of 1088 bytes, a key not of 1952 bytes, a failed decapsulation. Otherwise the
      record holds the client's key, and the seed hashed from the domain, the decapsulated
      secret and the server's identity. */
  lemma CompleteExactly(lib: Library, server: ServerEnrollment, response: EnrollmentResponse)
    ensures
      var r := server.Complete(lib, response);
      var ct, pk := response.ciphertext, response.dilithiumPublicKey;
      var secret := lib.decapsulate(server.kyberSecretKey, ct);
      && (r == Err(InvalidCiphertextLength(1088, |ct|)) <==> |ct| != 1088)
      && (r == Err(InvalidPublicKeyLength(1952, |pk|)) <==> |ct| == 1088 && |pk| != 1952)
      && (forall cause :: r == Err(Kyber(cause)) <==> |ct| == 1088 && |pk| == 1952 && secret == Err(cause))
      && (r.Ok? <==> |ct| == 1088 && |pk| == 1952 && secret.Ok?)
      && (r.Ok? ==> r.value == EnrollmentRecord(
            pk, lib.shake(TOTP_SEED_DOMAIN + secret.value + server.serverId, 32), server.serverId))
  {
  }

  ghost predicate Decapsulates(lib: Library, server: ServerEnrollment, response: EnrollmentResponse, secret: Bytes) {
    |secret| == 32 && lib.decapsulate(server.kyberSecretKey, response.ciphertext) == Ok(secret)
  }

  /** Under some hash, two stored seeds agree exactly when the decapsulated secrets and the
      servers' identities do. */
  lemma RecordSeedsSeparated(lib: Library, server: ServerEnrollment, response: EnrollmentResponse, secret: Bytes)
    returns (shake: Xof)
    requires server.Complete(lib, response).Ok? && Decapsulates(lib, server, response, secret)
    ensures
      var lib' := lib.(shake := shake);
      && server.Complete(lib', response).Ok?
      && forall server2: ServerEnrollment, response2, secret2 ::
           server2.Complete(lib', response2).Ok? && Decapsulates(lib, server2, response2, secret2) ==>
           (server2.Complete(lib', response2).value.totpSeed == server.Complete(lib', response).value.totpSeed
            <==> secret2 == secret && server2.serverId == server.serverId)
  {
    shake := SeedsSeparated(secret, server.serverId);
  }
}
