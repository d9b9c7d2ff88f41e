/** src/challenge.rs: signed challenges and the replay cache that forgets. */
module Challenges {
  import opened Machine
  import opened Primitives

  const CHALLENGE_VALIDITY_SECS: u64 := 300
  const NONCE_LEN: nat := 32

  type Nonce = b: Bytes | |b| == NONCE_LEN witness seq(NONCE_LEN, _ => 0 as Byte)

  datatype ChallengeError = Expired | Replay | SignatureFailed(cause: DilithiumError) | TimestampOutOfRange

  datatype Challenge = Challenge(nonce: Nonce, issuedAt: u64) {
    function SigningPayload(clientTimestamp: u64): Bytes {
      nonce + BigEndian(clientTimestamp, 8)
    }

    predicate IsExpired(now: u64) {
      SaturatingSub(now, issuedAt) > CHALLENGE_VALIDITY_SECS
    }
  }

  datatype Response = Response(nonce: Nonce, clientTimestamp: u64, signature: Bytes)

  lemma SigningPayloadInjective(c1: Challenge, t1: u64, c2: Challenge, t2: u64)
    requires c1.SigningPayload(t1) == c2.SigningPayload(t2)
    ensures c1.nonce == c2.nonce && t1 == t2
  {
    var p1, p2 := c1.SigningPayload(t1), c2.SigningPayload(t2);
    assert c1.nonce == p1[..NONCE_LEN] == p2[..NONCE_LEN] == c2.nonce;
    assert BigEndian(t1, 8) == p1[NONCE_LEN..] == p2[NONCE_LEN..] == BigEndian(t2, 8);
    BigEndian64Injective(t1, t2);
  }

  /** The signed message: the 32 bytes of the nonce, then the eight base-256 digits of the
      timestamp. */
  lemma SigningPayloadBytes(c: Challenge, clientTimestamp: u64)
    ensures
      var p := c.SigningPayload(clientTimestamp);
      |p| == 40 && p[..32] == c.nonce && Digits64(p[32..], clientTimestamp)
  {
    BigEndian64Digits(BigEndian(clientTimestamp, 8), clientTimestamp);
    assert c.SigningPayload(clientTimestamp)[32..] == BigEndian(clientTimestamp, 8);
  }

  function Respond(lib: Library, keypair: Keypair, challenge: Challenge, clientTimestamp: u64, coins: Bytes)
    : Result<Response, DilithiumError>
  {
    match lib.sign(keypair.secretKey, challenge.SigningPayload(clientTimestamp), coins)
    case Err(e) => Err(e)
    case Ok(signature) => Ok(Response(challenge.nonce, clientTimestamp, signature))
  }

  type Used = map<Nonce, u64>

  /** Entries issued at or before the horizon are forgotten. */
  function Horizon(skew: u64, now: u64): u64 {
    SaturatingSub(SaturatingSub(now, CHALLENGE_VALIDITY_SECS), skew)
  }

  function Prune(used: Used, horizon: u64): Used {
    map n | n in used && used[n] > horizon :: used[n]
  }

  datatype Call = Call(challenge: Challenge, response: Response, publicKey: Bytes, now: u64)

  /** The checks of one call, in order, against a set of nonces that count as used. */
  function Check(lib: Library, skew: u64, used: set<Nonce>, call: Call): Result<(), ChallengeError> {
    if call.challenge.IsExpired(call.now) then
      Err(Expired)
    else if call.response.nonce in used then
      Err(Replay)
    else if AbsDiff(call.response.clientTimestamp, call.now) > skew then
      Err(TimestampOutOfRange)
    else
      match lib.verifySignature(call.publicKey, call.challenge.SigningPayload(call.response.clientTimestamp), call.response.signature)
      case Err(e) => Err(SignatureFailed(e))
      case Ok(_) => Ok(())
  }

  /** One call of the pruning verifier: the cache afterwards and the verdict. */
  function VerifyStep(lib: Library, skew: u64, used: Used, call: Call): (Used, Result<(), ChallengeError>) {
    var kept := Prune(used, Horizon(skew, call.now));
    var verdict := Check(lib, skew, kept.Keys, call);
    (if verdict.Ok? then kept[call.response.nonce := call.challenge.issuedAt] else kept, verdict)
  }

  /** An entry that the cache still holds at `now`. */
  ghost predicate StillRemembered(used: Used, skew: u64, nonce: Nonce, now: u64) {
    nonce in used && used[nonce] >= 1 && used[nonce] + 300 + skew > now
  }

  /** The signature, checked against the nonce of the challenge and the timestamp of the response. */
  function SignatureVerdict(lib: Library, call: Call): Result<(), DilithiumError> {
    lib.verifySignature(call.publicKey, call.challenge.nonce + BigEndian(call.response.clientTimestamp, 8),
                        call.response.signature)
  }

  predicate Late(call: Call) {
    call.now > call.challenge.issuedAt + 300
  }

  predicate OnTime(skew: u64, call: Call) {
    call.now - skew <= call.response.clientTimestamp <= call.now + skew
  }

  /** What a call must satisfy to be accepted. */
  ghost predicate Acceptable(lib: Library, used: Used, skew: u64, call: Call) {
    && !Late(call) && !StillRemembered(used, skew, call.response.nonce, call.now)
    && OnTime(skew, call) && SignatureVerdict(lib, call).Ok?
  }

  lemma RememberedIff(used: Used, skew: u64, nonce: Nonce, now: u64)
    ensures nonce in Prune(used, Horizon(skew, now)) <==> StillRemembered(used, skew, nonce, now)
  {
  }

  /** Exactly which verdict a call gets. */
  lemma VerdictExactly(lib: Library, used: Used, skew: u64, call: Call)
    ensures
      var verdict := VerifyStep(lib, skew, used, call).1;
      var replayed := StillRemembered(used, skew, call.response.nonce, call.now);
      && (verdict == Ok(()) <==> Acceptable(lib, used, skew, call))
      && (verdict == Err(Expired) <==> Late(call))
      && (verdict == Err(Replay) <==> !Late(call) && replayed)
      && (verdict == Err(TimestampOutOfRange) <==> !Late(call) && !replayed && !OnTime(skew, call))
      && (forall cause :: verdict == Err(SignatureFailed(cause)) <==>
            !Late(call) && !replayed && OnTime(skew, call) && SignatureVerdict(lib, call) == Err(cause))
  {
    RememberedIff(used, skew, call.response.nonce, call.now);
  }

  /** Exactly what the cache holds after a call: what it still remembers, and the nonce of an
      accepted response with its challenge's issue time. */
  lemma CacheExactly(lib: Library, used: Used, skew: u64, call: Call, n: Nonce)
    ensures
      var used' := VerifyStep(lib, skew, used, call).0;
      Lookup(used', n) ==
        if Acceptable(lib, used, skew, call) && n == call.response.nonce then Some(call.challenge.issuedAt)
        else if StillRemembered(used, skew, n, call.now) then Some(used[n])
        else None
  {
    VerdictExactly(lib, used, skew, call);
    RememberedIff(used, skew, n, call.now);
  }

  class ChallengeVerifier {
    var usedNonces: Used
    const maxClockSkew: u64

    constructor (maxClockSkew: u64)
      ensures usedNonces == map[] && this.maxClockSkew == maxClockSkew
    {
      this.usedNonces := map[];
      this.maxClockSkew := maxClockSkew;
    }

    method ClearExpired(now: u64)
      modifies this
      ensures usedNonces == Prune(old(usedNonces), Horizon(maxClockSkew, now))
    {
      var horizon := SaturatingSub(SaturatingSub(now, CHALLENGE_VALIDITY_SECS), maxClockSkew);
      usedNonces := map n | n in usedNonces && usedNonces[n] > horizon :: usedNonces[n];
    }

    method Verify(lib: Library, challenge: Challenge, response: Response, publicKey: Bytes, now: u64)
      returns (verdict: Result<(), ChallengeError>)
      modifies this
      ensures (usedNonces, verdict)
           == VerifyStep(lib, maxClockSkew, old(usedNonces), Call(challenge, response, publicKey, now))
      ensures verdict == Ok(())
         <==> Acceptable(lib, old(usedNonces), maxClockSkew, Call(challenge, response, publicKey, now))
    {
      VerdictExactly(lib, usedNonces, maxClockSkew, Call(challenge, response, publicKey, now));
      ClearExpired(now);
      if challenge.IsExpired(now) {
        return Err(Expired);
      }
      if response.nonce in usedNonces {
        return Err(Replay);
      }
      var skew := AbsDiff(response.clientTimestamp, now);
      if skew > maxClockSkew {
        return Err(TimestampOutOfRange);
      }
      var payload := challenge.SigningPayload(response.clientTimestamp);
      var signed := lib.verifySignature(publicKey, payload, response.signature);
      if signed.Err? {
        return Err(SignatureFailed(signed.error));
      }
      usedNonces := usedNonces[response.nonce := challenge.issuedAt];
      return Ok(());
    }
  }

  /** An honest answer in time, within the skew and under a nonce that is not in the
      cache, is accepted. */
  lemma HonestResponseAccepted(lib: Library, skew: u64, used: Used, seed: Bytes, challenge: Challenge,
                               clientTimestamp: u64, coins: Bytes, now: u64)
    requires lib.SignatureLaw()
    requires now <= challenge.issuedAt + CHALLENGE_VALIDITY_SECS
    requires AbsDiff(clientTimestamp, now) <= skew
    requires challenge.nonce !in used
    ensures
      var kp := lib.dilithiumKeypair(seed);
      var r := Respond(lib, kp, challenge, clientTimestamp, coins);
      r.Ok? && VerifyStep(lib, skew, used, Call(challenge, r.value, kp.publicKey, now)).1 == Ok(())
  {
  }
}
