/** src/server.rs: the server's state, one atomic step per locked method, and the class
    whose methods perform those steps in place. */
module Server {
  import opened Machine
  import opened Primitives
  import opened Challenges
  import opened Enrollment
  import opened RateLimiter
  import PqTotp

  const MAX_CLOCK_SKEW: u64 := 60

  datatype Action = EnrollBegun | EnrollCompleted | ChallengeIssued | TotpVerified | ChallengeVerified

  datatype AuditEntry = AuditEntry(
    timestamp: u64, user: string, action: Action, success: bool, detail: Option<ChallengeError>)

  datatype ServerError =
    | UserNotFound(user: string)
    | UserAlreadyEnrolled(user: string)
    | NoPendingEnrollment(user: string)
    | NoPendingChallenge(user: string)
    | EnrollmentFailed(cause: EnrollmentError)
    | RateLimited

  datatype Reply =
    | Begun(kyberPublicKey: Bytes, serverId: Bytes)
    | Enrolled
    | Issued(nonce: Bytes, issuedAt: u64)
    | Verified(valid: bool)
    | Failed(error: ServerError)

  datatype State = State(
    serverId: Bytes,
    users: map<string, EnrollmentRecord>,
    pendingEnrollments: map<string, ServerEnrollment>,
    pendingChallenges: map<string, Challenge>,
    usedNonces: Used,
    auditLog: seq<AuditEntry>,
    rateLimits: map<string, Window>)

  function Init(serverId: Bytes): State {
    State(serverId, map[], map[], map[], map[], [], map[])
  }

  /** The clock readings one operation can take, in the order it takes them: in the rate
      limiter, in the operation itself, and for the audit entry. */
  datatype Clock = Clock(limit: u64, main: u64, audit: u64)

  /** A request together with the random draws made while serving it. */
  datatype Op =
    | EnrollBegin(user: string, seed: Bytes)
    | EnrollComplete(user: string, ciphertextHex: Bytes, publicKeyHex: Bytes)
    | IssueChallenge(user: string, nonce: Nonce)
    | VerifyTotp(user: string, code: u32)
    | VerifyChallenge(user: string, nonceHex: Bytes, clientTimestamp: u64, signatureHex: Bytes)

  /** The two forms of a verification request. */
  datatype VerifyMethod =
    | Totp(code: u32)
    | Answer(nonceHex: Bytes, clientTimestamp: u64, signatureHex: Bytes)

  function VerifyOp(user: string, request: VerifyMethod): Op {
    match request
    case Totp(code) => VerifyTotp(user, code)
    case Answer(nonceHex, clientTimestamp, signatureHex) => VerifyChallenge(user, nonceHex, clientTimestamp, signatureHex)
  }

  datatype Event = Event(clock: Clock, op: Op)

  function DecodeOrEmpty(lib: Library, text: Bytes): Bytes {
    var d := lib.hexDecode(text);
    if d.Some? then d.value else []
  }

  /** The nonce of a response: text that does not decode to 32 bytes counts as zeros. */
  function DecodeNonce(lib: Library, text: Bytes): Nonce {
    var b := DecodeOrEmpty(lib, text);
    if |b| == NONCE_LEN then b else seq(NONCE_LEN, _ => 0 as Byte)
  }

  function Audit(s: State, now: u64, user: string, action: Action, success: bool, detail: Option<ChallengeError>): State {
    s.(auditLog := s.auditLog + [AuditEntry(now, user, action, success, detail)])
  }

  function CheckRateLimit(s: State, user: string, now: u64): (State, bool) {
    var (w, ok) := Admit(SERVER_LIMITS, Lookup(s.rateLimits, user), now);
    (s.(rateLimits := s.rateLimits[user := w]), ok)
  }

  function BeginStep(lib: Library, s: State, clock: Clock, user: string, seed: Bytes): (State, Reply) {
    if user in s.users then
      (s, Failed(UserAlreadyEnrolled(user)))
    else
      var e := ServerEnrollment.New(lib, s.serverId, seed);
      (Audit(s.(pendingEnrollments := s.pendingEnrollments[user := e]), clock.audit, user, EnrollBegun, true, None),
       Begun(lib.hexEncode(e.kyberPublicKey), e.serverId))
  }

  function CompleteStep(lib: Library, s: State, clock: Clock, user: string, ciphertextHex: Bytes, publicKeyHex: Bytes)
    : (State, Reply)
  {
    if user !in s.pendingEnrollments then
      (s, Failed(NoPendingEnrollment(user)))
    else
      var taken := s.(pendingEnrollments := s.pendingEnrollments - {user});
      var response := EnrollmentResponse(DecodeOrEmpty(lib, ciphertextHex), DecodeOrEmpty(lib, publicKeyHex));
      match s.pendingEnrollments[user].Complete(lib, response)
      case Err(e) => (taken, Failed(EnrollmentFailed(e)))
      case Ok(record) =>
        (Audit(taken.(users := taken.users[user := record]), clock.audit, user, EnrollCompleted, true, None), Enrolled)
  }

  function IssueStep(lib: Library, s: State, clock: Clock, user: string, nonce: Nonce): (State, Reply) {
    if user !in s.users then
      (s, Failed(UserNotFound(user)))
    else
      var (limited, ok) := CheckRateLimit(s, user, clock.limit);
      if !ok then
        (limited, Failed(RateLimited))
      else
        var c := Challenge(nonce, clock.main);
        (Audit(limited.(pendingChallenges := limited.pendingChallenges[user := c]),
               clock.audit, user, ChallengeIssued, true, None),
         Issued(lib.hexEncode(nonce), clock.main))
  }

  ghost function TotpStep(lib: Library, s: State, clock: Clock, user: string, code: u32): (State, Reply) {
    if user !in s.users then
      (s, Failed(UserNotFound(user)))
    else
      var (limited, ok) := CheckRateLimit(s, user, clock.limit);
      if !ok then
        (limited, Failed(RateLimited))
      else
        var valid := PqTotp.Accepts(lib.shake, s.users[user].totpSeed, code, clock.main, 1);
        (Audit(limited, clock.audit, user, TotpVerified, valid, None), Verified(valid))
  }

  function ChallengeStep(lib: Library, s: State, clock: Clock, user: string,
                         nonceHex: Bytes, clientTimestamp: u64, signatureHex: Bytes): (State, Reply)
  {
    if user !in s.users then
      (s, Failed(UserNotFound(user)))
    else
      var (limited, ok) := CheckRateLimit(s, user, clock.limit);
      if !ok then
        (limited, Failed(RateLimited))
      else if user !in s.pendingChallenges then
        (limited, Failed(NoPendingChallenge(user)))
      else
        var response := Response(DecodeNonce(lib, nonceHex), clientTimestamp, DecodeOrEmpty(lib, signatureHex));
        var call := Call(s.pendingChallenges[user], response, s.users[user].dilithiumPublicKey, clock.main);
        var (used, verdict) := VerifyStep(lib, MAX_CLOCK_SKEW, s.usedNonces, call);
        var detail := if verdict.Err? then Some(verdict.error) else None;
        (Audit(limited.(pendingChallenges := limited.pendingChallenges - {user}, usedNonces := used),
               clock.audit, user, ChallengeVerified, verdict.Ok?, detail),
         Verified(verdict.Ok?))
  }

  /** One atomic step. */
  ghost function Step(lib: Library, s: State, e: Event): (State, Reply) {
    match e.op
    case EnrollBegin(user, seed) => BeginStep(lib, s, e.clock, user, seed)
    case EnrollComplete(user, ciphertextHex, publicKeyHex) => CompleteStep(lib, s, e.clock, user, ciphertextHex, publicKeyHex)
    case IssueChallenge(user, nonce) => IssueStep(lib, s, e.clock, user, nonce)
    case VerifyTotp(user, code) => TotpStep(lib, s, e.clock, user, code)
    case VerifyChallenge(user, nonceHex, clientTimestamp, signatureHex) =>
      ChallengeStep(lib, s, e.clock, user, nonceHex, clientTimestamp, signatureHex)
  }

  // Who is let in, written out.

  /** The limiter lets an attempt through. */
  predicate LetsThrough(s: State, user: string, now: u64) {
    user in s.rateLimits ==>
      var Window(count, start) := s.rateLimits[user];
      WrappingSub(now, start) > 300 || WrappingAdd32(count, 1) <= 5
  }

  /** The code belongs to the enrolled user's stored seed, for the present step or one next to it. */
  ghost predicate GoodCode(lib: Library, s: State, clock: Clock, user: string, code: u32) {
    && user in s.users && LetsThrough(s, user, clock.limit)
    && exists step: u64 :: clock.main / 30 - 1 <= step <= clock.main / 30 + 1
                        && PqTotp.GenerateAtStep(lib.shake, s.users[user].totpSeed, step) == code
  }

  /** The answer is in time, not a replay, and signed with the enrolled user's stored key for
      the nonce of the user's pending challenge and the answer's own timestamp. */
  ghost predicate GoodAnswer(lib: Library, s: State, clock: Clock, user: string,
                             nonceHex: Bytes, clientTimestamp: u64, signatureHex: Bytes)
  {
    && user in s.users && LetsThrough(s, user, clock.limit) && user in s.pendingChallenges
    && var pk, c, now := s.users[user].dilithiumPublicKey, s.pendingChallenges[user], clock.main;
    var nonce, signature := lib.hexDecode(nonceHex), lib.hexDecode(signatureHex);
    && now <= c.issuedAt + 300
    && now - 60 <= clientTimestamp <= now + 60
    && !StillRemembered(s.usedNonces, 60,
         if nonce.Some? && |nonce.value| == 32 then nonce.value else seq(32, _ => 0 as Byte), now)
    && lib.verifySignature(pk, c.nonce + BigEndian(clientTimestamp, 8),
                           if signature.Some? then signature.value else []).Ok?
  }

  lemma LetsThroughIff(s: State, user: string, now: u64)
    ensures CheckRateLimit(s, user, now).1 <==> LetsThrough(s, user, now)
  {
  }

  /** A code logs in exactly when it is good. */
  lemma GoodCodeIff(lib: Library, s: State, clock: Clock, user: string, code: u32)
    ensures TotpStep(lib, s, clock, user, code).1 == Verified(true) <==> GoodCode(lib, s, clock, user, code)
  {
    LetsThroughIff(s, user, clock.limit);
    if user in s.users {
      SearchedStepsIff(lib.shake, s.users[user].totpSeed, code, clock.main);
    }
  }

  lemma SearchedStepsIff(shake: Xof, secret: Bytes, code: u32, now: u64)
    ensures PqTotp.Accepts(shake, secret, code, now, 1) <==>
      exists step: u64 :: now / 30 - 1 <= step <= now / 30 + 1 && PqTotp.GenerateAtStep(shake, secret, step) == code
  {
    if PqTotp.Accepts(shake, secret, code, now, 1) {
      var step: u64 :| PqTotp.InWindow(step, now, 1) && PqTotp.GenerateAtStep(shake, secret, step) == code;
      assert now / 30 - 1 <= step <= now / 30 + 1;
    }
    if step: u64 :| now / 30 - 1 <= step <= now / 30 + 1 && PqTotp.GenerateAtStep(shake, secret, step) == code {
      assert PqTotp.InWindow(step, now, 1);
    }
  }

  /** An answer logs in exactly when it is good. */
  lemma GoodAnswerIff(lib: Library, s: State, clock: Clock, user: string,
                      nonceHex: Bytes, clientTimestamp: u64, signatureHex: Bytes)
    ensures ChallengeStep(lib, s, clock, user, nonceHex, clientTimestamp, signatureHex).1 == Verified(true)
       <==> GoodAnswer(lib, s, clock, user, nonceHex, clientTimestamp, signatureHex)
  {
    LetsThroughIff(s, user, clock.limit);
    if user in s.users && user in s.pendingChallenges {
      var response := Response(DecodeNonce(lib, nonceHex), clientTimestamp, DecodeOrEmpty(lib, signatureHex));
      VerdictExactly(lib, s.usedNonces, MAX_CLOCK_SKEW,
                     Call(s.pendingChallenges[user], response, s.users[user].dilithiumPublicKey, clock.main));
    }
  }

  lemma GoodRequestIff(lib: Library, s: State, clock: Clock, user: string, request: VerifyMethod)
    ensures Step(lib, s, Event(clock, VerifyOp(user, request))).1 == Verified(true) <==>
      match request
      case Totp(code) => GoodCode(lib, s, clock, user, code)
      case Answer(nonceHex, clientTimestamp, signatureHex) =>
        GoodAnswer(lib, s, clock, user, nonceHex, clientTimestamp, signatureHex)
  {
    match request {
      case Totp(code) => GoodCodeIff(lib, s, clock, user, code);
      case Answer(nonceHex, clientTimestamp, signatureHex) =>
        GoodAnswerIff(lib, s, clock, user, nonceHex, clientTimestamp, signatureHex);
    }
  }

  class PqAuthServer {
    const lib: Library
    const serverId: Bytes
    var users: map<string, EnrollmentRecord>
    var pendingEnrollments: map<string, ServerEnrollment>
    var pendingChallenges: map<string, Challenge>
    const verifier: ChallengeVerifier
    var auditLog: seq<AuditEntry>
    var rateLimits: map<string, Window>
    const limits: Limits

    ghost predicate Valid() {
      verifier.maxClockSkew == MAX_CLOCK_SKEW && limits == SERVER_LIMITS
    }

    ghost function Contents(): State
      reads this, verifier
    {
      State(serverId, users, pendingEnrollments, pendingChallenges, verifier.usedNonces, auditLog, rateLimits)
    }

    constructor (lib: Library, serverId: Bytes)
      ensures Valid() && fresh(verifier)
      ensures this.lib == lib && Contents() == Init(serverId)
    {
      this.lib := lib;
      this.serverId := serverId;
      users := map[];
      pendingEnrollments := map[];
      pendingChallenges := map[];
      verifier := new ChallengeVerifier(60);
      auditLog := [];
      rateLimits := map[];
      limits := Limits(5, 300);
    }

    method AppendAudit(now: u64, user: string, action: Action, success: bool, detail: Option<ChallengeError>)
      modifies this`auditLog
      ensures auditLog == old(auditLog) + [AuditEntry(now, user, action, success, detail)]
    {
      auditLog := auditLog + [AuditEntry(now, user, action, success, detail)];
    }

    method CheckLimit(user: string, now: u64) returns (ok: bool)
      requires Valid()
      modifies this`rateLimits
      ensures (Contents(), ok) == CheckRateLimit(old(Contents()), user, now)
    {
      if user !in rateLimits {
        rateLimits := rateLimits[user := Window(0, now)];
      }
      var entry := rateLimits[user];
      if WrappingSub(now, entry.start) > limits.rateWindow {
        rateLimits := rateLimits[user := Window(1, now)];
        assert rateLimits == old(rateLimits)[user := Window(1, now)];
        return true;
      } else {
        entry := entry.(count := WrappingAdd32(entry.count, 1));
        rateLimits := rateLimits[user := entry];
        assert rateLimits == old(rateLimits)[user := entry];
        return entry.count <= limits.maxAttempts;
      }
    }

    method EnrollBegin(clock: Clock, user: string, seed: Bytes) returns (reply: Reply)
      requires Valid()
      modifies this, verifier
      ensures (Contents(), reply) == Step(lib, old(Contents()), Event(clock, Op.EnrollBegin(user, seed)))
    {
      if user in users {
        return Failed(UserAlreadyEnrolled(user));
      }
      var enrollment := ServerEnrollment.New(lib, serverId, seed);
      var challenge := enrollment.ToChallenge();
      reply := Begun(lib.hexEncode(challenge.kyberPublicKey), challenge.serverId);
      pendingEnrollments := pendingEnrollments[user := enrollment];
      AppendAudit(clock.audit, user, EnrollBegun, true, None);
    }

    method EnrollComplete(clock: Clock, user: string, ciphertextHex: Bytes, publicKeyHex: Bytes) returns (reply: Reply)
      requires Valid()
      modifies this, verifier
      ensures (Contents(), reply)
           == Step(lib, old(Contents()), Event(clock, Op.EnrollComplete(user, ciphertextHex, publicKeyHex)))
    {
      if user !in pendingEnrollments {
        return Failed(NoPendingEnrollment(user));
      }
      var enrollment := pendingEnrollments[user];
      pendingEnrollments := pendingEnrollments - {user};
      var response := EnrollmentResponse(DecodeOrEmpty(lib, ciphertextHex), DecodeOrEmpty(lib, publicKeyHex));
      var completed := enrollment.Complete(lib, response);
      if completed.Err? {
        return Failed(EnrollmentFailed(completed.error));
      }
      users := users[user := completed.value];
      AppendAudit(clock.audit, user, EnrollCompleted, true, None);
      return Enrolled;
    }

    method IssueChallenge(clock: Clock, user: string, nonce: Nonce) returns (reply: Reply)
      requires Valid()
      modifies this, verifier
      ensures (Contents(), reply) == Step(lib, old(Contents()), Event(clock, Op.IssueChallenge(user, nonce)))
    {
      if user !in users {
        return Failed(UserNotFound(user));
      }
      var ok := CheckLimit(user, clock.limit);
      if !ok {
        return Failed(RateLimited);
      }
      var challenge := Challenge(nonce, clock.main);
      reply := Issued(lib.hexEncode(challenge.nonce), challenge.issuedAt);
      pendingChallenges := pendingChallenges[user := challenge];
      AppendAudit(clock.audit, user, ChallengeIssued, true, None);
    }

    method Verify(clock: Clock, user: string, request: VerifyMethod) returns (reply: Reply)
      requires Valid()
      modifies this, verifier
      ensures (Contents(), reply) == Step(lib, old(Contents()), Event(clock, VerifyOp(user, request)))
      ensures reply == Verified(true) <==>
        match request
        case Totp(code) => GoodCode(lib, old(Contents()), clock, user, code)
        case Answer(nonceHex, clientTimestamp, signatureHex) =>
          GoodAnswer(lib, old(Contents()), clock, user, nonceHex, clientTimestamp, signatureHex)
    {
      GoodRequestIff(lib, Contents(), clock, user, request);
      if user !in users {
        return Failed(UserNotFound(user));
      }
      var record := users[user];
      var ok := CheckLimit(user, clock.limit);
      if !ok {
        return Failed(RateLimited);
      }
      match request {
        case Totp(code) =>
          var valid := PqTotp.Verify(lib.shake, record.totpSeed, code, clock.main, 1);
          AppendAudit(clock.audit, user, TotpVerified, valid, None);
          return Verified(valid);
        case Answer(nonceHex, clientTimestamp, signatureHex) =>
          if user !in pendingChallenges {
            return Failed(NoPendingChallenge(user));
          }
          var challenge := pendingChallenges[user];
          pendingChallenges := pendingChallenges - {user};
          var response := Response(DecodeNonce(lib, nonceHex), clientTimestamp, DecodeOrEmpty(lib, signatureHex));
          var verdict := verifier.Verify(lib, challenge, response, record.dilithiumPublicKey, clock.main);
          var detail := if verdict.Err? then Some(verdict.error) else None;
          AppendAudit(clock.audit, user, ChallengeVerified, verdict.Ok?, detail);
          return Verified(verdict.Ok?);
      }
    }
  }
}
