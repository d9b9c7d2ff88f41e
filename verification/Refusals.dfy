/** Which requests the server refuses, with which error, and what a refusal leaves behind. */
module Refusals {
  import opened Machine
  import opened Primitives
  import opened Challenges
  import opened Enrollment
  import opened Server
  import opened ServerRuns

  /** A response that cannot be completed. */
  predicate Unfit(lib: Library, secretKey: Bytes, ciphertextHex: Bytes, publicKeyHex: Bytes) {
    var ct, pk := lib.hexDecode(ciphertextHex), lib.hexDecode(publicKeyHex);
    ct.None? || |ct.value| != 1088 || pk.None? || |pk.value| != 1952 || lib.decapsulate(secretKey, ct.value).Err?
  }

  /** Each error comes exactly when its guard holds and none before it does. */
  ghost predicate RefusedFor(lib: Library, s: State, reply: Reply, e: Event) {
    var user := e.op.user;
    var limited := !LetsThrough(s, user, e.clock.limit);
    && (reply == Failed(UserAlreadyEnrolled(user)) <==> e.op.EnrollBegin? && user in s.users)
    && (reply == Failed(NoPendingEnrollment(user)) <==> e.op.EnrollComplete? && user !in s.pendingEnrollments)
    && (reply.Failed? && reply.error.EnrollmentFailed? <==>
          e.op.EnrollComplete? && user in s.pendingEnrollments
          && Unfit(lib, s.pendingEnrollments[user].kyberSecretKey, e.op.ciphertextHex, e.op.publicKeyHex))
    && (reply == Failed(UserNotFound(user)) <==> Limited(e) && user !in s.users)
    && (reply == Failed(RateLimited) <==> Limited(e) && user in s.users && limited)
    && (reply == Failed(NoPendingChallenge(user)) <==>
          Answers(e) && user in s.users && !limited && user !in s.pendingChallenges)
  }

  /** A refused request changes the user's rate counter, if the limiter saw it, and takes
      away the pending enrollment that it could not complete; and nothing else. */
  ghost predicate LeavesOnly(s: State, s': State, reply: Reply, e: Event)
    requires reply.Failed?
  {
    s' == s.(pendingEnrollments := if reply.error.EnrollmentFailed? then s.pendingEnrollments - {e.op.user} else s.pendingEnrollments,
             rateLimits := if reply.error.RateLimited? || reply.error.NoPendingChallenge?
                           then CheckRateLimit(s, e.op.user, e.clock.limit).0.rateLimits else s.rateLimits)
  }

  ghost predicate RefusedExactlyFor(lib: Library, s: State, step: (State, Reply), e: Event) {
    RefusedFor(lib, s, step.1, e) && (step.1.Failed? ==> LeavesOnly(s, step.0, step.1, e))
  }

  lemma BeginRefused(lib: Library, s: State, e: Event)
    requires e.op.EnrollBegin?
    ensures RefusedExactlyFor(lib, s, BeginStep(lib, s, e.clock, e.op.user, e.op.seed), e)
  {
  }

  lemma CompleteRefused(lib: Library, s: State, e: Event)
    requires e.op.EnrollComplete?
    ensures RefusedExactlyFor(lib, s, CompleteStep(lib, s, e.clock, e.op.user, e.op.ciphertextHex, e.op.publicKeyHex), e)
  {
    if e.op.user in s.pendingEnrollments {
      CompleteExactly(lib, s.pendingEnrollments[e.op.user],
                      EnrollmentResponse(DecodeOrEmpty(lib, e.op.ciphertextHex), DecodeOrEmpty(lib, e.op.publicKeyHex)));
    }
  }

  lemma IssueRefused(lib: Library, s: State, e: Event)
    requires e.op.IssueChallenge?
    ensures RefusedExactlyFor(lib, s, IssueStep(lib, s, e.clock, e.op.user, e.op.nonce), e)
  {
    LetsThroughIff(s, e.op.user, e.clock.limit);
  }

  lemma TotpRefused(lib: Library, s: State, e: Event)
    requires e.op.VerifyTotp?
    ensures RefusedExactlyFor(lib, s, TotpStep(lib, s, e.clock, e.op.user, e.op.code), e)
  {
    LetsThroughIff(s, e.op.user, e.clock.limit);
  }

  lemma AnswerRefused(lib: Library, s: State, e: Event)
    requires Answers(e)
    ensures RefusedExactlyFor(lib, s, AnswerStep(lib, s, e), e)
  {
    LetsThroughIff(s, e.op.user, e.clock.limit);
  }

  /** Refusals of every step, exactly. */
  lemma RefusedExactly(lib: Library, s: State, e: Event)
    ensures RefusedExactlyFor(lib, s, Step(lib, s, e), e)
  {
    match e.op {
      case EnrollBegin(_, _) => BeginRefused(lib, s, e);
      case EnrollComplete(_, _, _) => CompleteRefused(lib, s, e);
      case IssueChallenge(_, _) => IssueRefused(lib, s, e);
      case VerifyTotp(_, _) => TotpRefused(lib, s, e);
      case VerifyChallenge(_, _, _, _) => AnswerRefused(lib, s, e);
    }
  }

  /** The reason the log gives for an answer that reached the verifier. */
  ghost predicate LoggedFor(lib: Library, s: State, e: Event, detail: Option<ChallengeError>)
    requires Answers(e) && e.op.user in s.users && e.op.user in s.pendingChallenges
  {
    var signature := lib.hexDecode(e.op.signatureHex);
    var response := Response(NonceOf(lib, e), e.op.clientTimestamp, if signature.Some? then signature.value else []);
    var call := Call(s.pendingChallenges[e.op.user], response, s.users[e.op.user].dilithiumPublicKey, e.clock.main);
    if Late(call) then detail == Some(Expired)
    else if StillRemembered(s.usedNonces, 60, response.nonce, e.clock.main) then detail == Some(Replay)
    else if !OnTime(60, call) then detail == Some(TimestampOutOfRange)
    else match SignatureVerdict(lib, call)
      case Err(cause) => detail == Some(SignatureFailed(cause))
      case Ok(_) => detail == None
  }

  /** Every answer that is not refused is logged with its verdict and the exact reason, and
      its challenge is gone. */
  lemma AnswersLoggedExactly(lib: Library, s: State, e: Event)
    requires Answers(e) && !AnswerStep(lib, s, e).1.Failed?
    ensures e.op.user in s.users && e.op.user in s.pendingChallenges
    ensures
      var (s', reply) := AnswerStep(lib, s, e);
      && e.op.user !in s'.pendingChallenges
      && exists detail :: LoggedFor(lib, s, e, detail) && reply == Verified(detail.None?)
           && s'.auditLog == s.auditLog + [Entry(e, ChallengeVerified, detail.None?, detail)]
  {
    var (s', reply) := AnswerStep(lib, s, e);
    var response := Response(NonceOf(lib, e), e.op.clientTimestamp, DecodeOrEmpty(lib, e.op.signatureHex));
    var call := Call(s.pendingChallenges[e.op.user], response, s.users[e.op.user].dilithiumPublicKey, e.clock.main);
    VerdictExactly(lib, s.usedNonces, MAX_CLOCK_SKEW, call);
    var verdict := VerifyStep(lib, MAX_CLOCK_SKEW, s.usedNonces, call).1;
    var detail := if verdict.Err? then Some(verdict.error) else None;
    assert LoggedFor(lib, s, e, detail);
  }
}
