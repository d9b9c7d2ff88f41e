/** What every run of the server keeps. A run is the sequence of atomic steps, in the
    order in which the requests took the lock. */
module ServerRuns {
  import opened Machine
  import opened Primitives
  import opened Challenges
  import opened Enrollment
  import opened RateLimiter
  import opened Server
  import PqTotp
  import ReplayCache

  ghost function Run(lib: Library, s: State, events: seq<Event>): State
    decreases |events|
  {
    if events == [] then s else Run(lib, Step(lib, s, events[0]).0, events[1..])
  }

  /** Clock readings never go back, within an operation or between operations. */
  ghost predicate ClockFrom(events: seq<Event>, start: u64) {
    events == [] ||
    var c := events[0].clock;
    start <= c.limit <= c.main <= c.audit && ClockFrom(events[1..], c.audit)
  }

  // What one step does, user by user.

  /** Everything the server holds about one user, apart from the log. */
  datatype View = View(
    record: Option<EnrollmentRecord>,
    enrolling: Option<ServerEnrollment>,
    challenge: Option<Challenge>,
    window: Option<Window>)

  function ViewOf(s: State, user: string): View {
    View(Lookup(s.users, user), Lookup(s.pendingEnrollments, user),
         Lookup(s.pendingChallenges, user), Lookup(s.rateLimits, user))
  }

  /** What one request does to what is held about its user, what it logs, and the reply. */
  datatype Effect = Effect(view: View, logged: seq<AuditEntry>, reply: Reply)

  function EffectOf(s: State, step: (State, Reply), user: string): Effect
    requires |s.auditLog| <= |step.0.auditLog|
  {
    Effect(ViewOf(step.0, user), step.0.auditLog[|s.auditLog|..], step.1)
  }

  predicate Answers(e: Event) {
    e.op.VerifyChallenge?
  }

  function NonceOf(lib: Library, e: Event): Nonce
    requires Answers(e)
  {
    DecodeNonce(lib, e.op.nonceHex)
  }

  function AnswerStep(lib: Library, s: State, e: Event): (State, Reply)
    requires Answers(e)
  {
    ChallengeStep(lib, s, e.clock, e.op.user, e.op.nonceHex, e.op.clientTimestamp, e.op.signatureHex)
  }

  /** Whether the answer's nonce is remembered: all a request sees of other users. */
  predicate Replayed(lib: Library, s: State, e: Event) {
    Answers(e) && NonceOf(lib, e) in Prune(s.usedNonces, Horizon(MAX_CLOCK_SKEW, e.clock.main))
  }

  /** The requests the rate limiter guards. */
  predicate Limited(e: Event) {
    e.op.IssueChallenge? || e.op.VerifyTotp? || e.op.VerifyChallenge?
  }

  function Entry(e: Event, action: Action, success: bool, detail: Option<ChallengeError>): AuditEntry {
    AuditEntry(e.clock.audit, e.op.user, action, success, detail)
  }

  /** An answer that reaches the verifier while its challenge is valid. */
  predicate Live(v: View, e: Event) {
    && Answers(e) && v.record.Some? && v.challenge.Some?
    && Admit(SERVER_LIMITS, v.window, e.clock.limit).1
    && !v.challenge.value.IsExpired(e.clock.main)
  }

  /** The machine one user sees: it has no maps and no other users. */
  ghost function LocalStep(lib: Library, serverId: Bytes, v: View, replayed: bool, e: Event): Effect {
    match e.op
    case EnrollBegin(user, seed) =>
      if v.record.Some? then Effect(v, [], Failed(UserAlreadyEnrolled(user)))
      else
        var enrolling := ServerEnrollment.New(lib, serverId, seed);
        Effect(v.(enrolling := Some(enrolling)), [Entry(e, EnrollBegun, true, None)],
               Begun(lib.hexEncode(enrolling.kyberPublicKey), serverId))
    case EnrollComplete(user, ciphertextHex, publicKeyHex) =>
      if v.enrolling.None? then Effect(v, [], Failed(NoPendingEnrollment(user)))
      else
        var response := EnrollmentResponse(DecodeOrEmpty(lib, ciphertextHex), DecodeOrEmpty(lib, publicKeyHex));
        (match v.enrolling.value.Complete(lib, response)
         case Err(cause) => Effect(v.(enrolling := None), [], Failed(EnrollmentFailed(cause)))
         case Ok(record) =>
           Effect(v.(enrolling := None, record := Some(record)), [Entry(e, EnrollCompleted, true, None)], Enrolled))
    case _ =>
      if v.record.None? then Effect(v, [], Failed(UserNotFound(e.op.user)))
      else
        var (window, ok) := Admit(SERVER_LIMITS, v.window, e.clock.limit);
        var limited := v.(window := Some(window));
        if !ok then Effect(limited, [], Failed(RateLimited))
        else LocalAuthentication(lib, limited, replayed, e)
  }

  ghost function LocalAuthentication(lib: Library, v: View, replayed: bool, e: Event): Effect
    requires v.record.Some? && Limited(e)
  {
    match e.op
    case IssueChallenge(_, nonce) =>
      Effect(v.(challenge := Some(Challenge(nonce, e.clock.main))), [Entry(e, ChallengeIssued, true, None)],
             Issued(lib.hexEncode(nonce), e.clock.main))
    case VerifyTotp(_, code) =>
      var valid := PqTotp.Accepts(lib.shake, v.record.value.totpSeed, code, e.clock.main, 1);
      Effect(v, [Entry(e, TotpVerified, valid, None)], Verified(valid))
    case VerifyChallenge(user, nonceHex, clientTimestamp, signatureHex) =>
      if v.challenge.None? then Effect(v, [], Failed(NoPendingChallenge(user)))
      else
        var response := Response(DecodeNonce(lib, nonceHex), clientTimestamp, DecodeOrEmpty(lib, signatureHex));
        var call := Call(v.challenge.value, response, v.record.value.dilithiumPublicKey, e.clock.main);
        var verdict := Check(lib, MAX_CLOCK_SKEW, if replayed then {response.nonce} else {}, call);
        var detail := if verdict.Err? then Some(verdict.error) else None;
        Effect(v.(challenge := None), [Entry(e, ChallengeVerified, verdict.Ok?, detail)], Verified(verdict.Ok?))
  }

  /** A step appends to the log, about its own user, and leaves other users' views alone. */
  ghost predicate Frames(s: State, s': State, e: Event) {
    && s'.serverId == s.serverId
    && |s.auditLog| <= |s'.auditLog| && s'.auditLog[..|s.auditLog|] == s.auditLog
    && forall u :: u != e.op.user ==> ViewOf(s', u) == ViewOf(s, u)
  }

  ghost predicate IsLocal(lib: Library, s: State, step: (State, Reply), e: Event) {
    Frames(s, step.0, e) &&
    EffectOf(s, step, e.op.user) == LocalStep(lib, s.serverId, ViewOf(s, e.op.user), Replayed(lib, s, e), e)
  }

  lemma BeginIsLocal(lib: Library, s: State, e: Event)
    requires e.op.EnrollBegin?
    ensures IsLocal(lib, s, BeginStep(lib, s, e.clock, e.op.user, e.op.seed), e)
  {
  }

  lemma CompleteIsLocal(lib: Library, s: State, e: Event)
    requires e.op.EnrollComplete?
    ensures IsLocal(lib, s, CompleteStep(lib, s, e.clock, e.op.user, e.op.ciphertextHex, e.op.publicKeyHex), e)
  {
  }

  lemma IssueIsLocal(lib: Library, s: State, e: Event)
    requires e.op.IssueChallenge?
    ensures IsLocal(lib, s, IssueStep(lib, s, e.clock, e.op.user, e.op.nonce), e)
  {
  }

  lemma TotpIsLocal(lib: Library, s: State, e: Event)
    requires e.op.VerifyTotp?
    ensures IsLocal(lib, s, TotpStep(lib, s, e.clock, e.op.user, e.op.code), e)
  {
  }

  lemma AnswerIsLocal(lib: Library, s: State, e: Event)
    requires Answers(e)
    ensures IsLocal(lib, s, AnswerStep(lib, s, e), e)
  {
    AnswerFrames(lib, s, e);
    AnswerEffect(lib, s, e);
  }

  lemma AnswerFrames(lib: Library, s: State, e: Event)
    requires Answers(e)
    ensures Frames(s, AnswerStep(lib, s, e).0, e)
  {
  }

  lemma AnswerEffect(lib: Library, s: State, e: Event)
    requires Answers(e)
    ensures
      var step := AnswerStep(lib, s, e);
      && |s.auditLog| <= |step.0.auditLog|
      && EffectOf(s, step, e.op.user) == LocalStep(lib, s.serverId, ViewOf(s, e.op.user), Replayed(lib, s, e), e)
  {
    var user := e.op.user;
    if user in s.users && user in s.pendingChallenges {
      var response := Response(NonceOf(lib, e), e.op.clientTimestamp, DecodeOrEmpty(lib, e.op.signatureHex));
      var call := Call(s.pendingChallenges[user], response, s.users[user].dilithiumPublicKey, e.clock.main);
      CheckSeesOwnNonce(lib, MAX_CLOCK_SKEW, Prune(s.usedNonces, Horizon(MAX_CLOCK_SKEW, e.clock.main)).Keys,
                        if Replayed(lib, s, e) then {response.nonce} else {}, call);
    }
  }

  lemma CheckSeesOwnNonce(lib: Library, skew: u64, used1: set<Nonce>, used2: set<Nonce>, call: Call)
    requires call.response.nonce in used1 <==> call.response.nonce in used2
    ensures Check(lib, skew, used1, call) == Check(lib, skew, used2, call)
  {
  }

  /** Seen by its user, every step is a step of that user's own machine; nobody else sees
      it. The cache of used nonces is the only thing users share. */
  lemma StepIsLocal(lib: Library, s: State, e: Event)
    ensures IsLocal(lib, s, Step(lib, s, e), e)
  {
    match e.op {
      case EnrollBegin(_, _) => BeginIsLocal(lib, s, e);
      case EnrollComplete(_, _, _) => CompleteIsLocal(lib, s, e);
      case IssueChallenge(_, _) => IssueIsLocal(lib, s, e);
      case VerifyTotp(_, _) => TotpIsLocal(lib, s, e);
      case VerifyChallenge(_, _, _, _) => AnswerIsLocal(lib, s, e);
    }
  }

  ghost predicate WellFormedRecord(r: EnrollmentRecord, serverId: Bytes) {
    |r.dilithiumPublicKey| == DILITHIUM_PUBLIC_KEY && |r.totpSeed| == TOTP_SEED_LEN && r.serverId == serverId
  }

  /** The ways a request can change what is held about its user and what it logs. */
  ghost predicate Advances(v: View, effect: Effect, serverId: Bytes, e: Event) {
    var Effect(v', logged, reply) := effect;
    if logged == [] then
      && !reply.Issued?
      && (|| v' == v
          || (v.enrolling.Some? && v' == v.(enrolling := None))
          || (v.record.Some? && v'.window.Some? && v' == v.(window := v'.window)))
    else
      && |logged| == 1
      && logged[0].user == e.op.user && logged[0].timestamp == e.clock.audit
      && match logged[0].action
         case EnrollBegun =>
           && logged[0].success && logged[0].detail.None?
           && reply.Begun? && v.record.None?
           && v'.enrolling.Some? && v'.enrolling.value.serverId == serverId && v' == v.(enrolling := v'.enrolling)
         case EnrollCompleted =>
           && logged[0].success && logged[0].detail.None?
           && reply.Enrolled? && v.enrolling.Some?
           && v'.record.Some? && WellFormedRecord(v'.record.value, v.enrolling.value.serverId)
           && v' == v.(enrolling := None, record := v'.record)
         case ChallengeIssued =>
           && logged[0].success && logged[0].detail.None?
           && reply.Issued? && v.record.Some?
           && v'.challenge.Some? && v'.window.Some? && v' == v.(challenge := v'.challenge, window := v'.window)
         case TotpVerified =>
           && logged[0].detail.None?
           && reply == Verified(logged[0].success) && v.record.Some?
           && v'.window.Some? && v' == v.(window := v'.window)
         case ChallengeVerified =>
           && reply == Verified(logged[0].success) && v.record.Some? && v.challenge.Some?
           && v'.window.Some? && v' == v.(challenge := None, window := v'.window)
  }

  lemma LocalAdvances(lib: Library, serverId: Bytes, v: View, replayed: bool, e: Event)
    ensures Advances(v, LocalStep(lib, serverId, v, replayed, e), serverId, e)
  {
  }

  /** What every step does to one user: advance if the request is theirs, else nothing. */
  ghost predicate Moved(s: State, s': State, reply: Reply, e: Event, user: string) {
    && s'.serverId == s.serverId
    && |s.auditLog| <= |s'.auditLog| <= |s.auditLog| + 1 && s'.auditLog[..|s.auditLog|] == s.auditLog
    && (forall entry :: entry in s'.auditLog[|s.auditLog|..] ==> entry.user == e.op.user)
    && (if user == e.op.user then Advances(ViewOf(s, user), EffectOf(s, (s', reply), user), s.serverId, e)
        else ViewOf(s', user) == ViewOf(s, user))
  }

  lemma StepMoves(lib: Library, s: State, e: Event, user: string)
    ensures var (s', reply) := Step(lib, s, e); Moved(s, s', reply, e, user)
  {
    var (s', reply) := Step(lib, s, e);
    StepIsLocal(lib, s, e);
    LocalAdvances(lib, s.serverId, ViewOf(s, e.op.user), Replayed(lib, s, e), e);
    LocalIsMoved(s, s', reply, e, user);
  }

  lemma LocalIsMoved(s: State, s': State, reply: Reply, e: Event, user: string)
    requires Frames(s, s', e)
    requires Advances(ViewOf(s, e.op.user), EffectOf(s, (s', reply), e.op.user), s.serverId, e)
    ensures Moved(s, s', reply, e, user)
  {
    var logged := s'.auditLog[|s.auditLog|..];
    assert logged == [] || logged == [logged[0]];
  }

  // The cache of used nonces, nonce by nonce.

  /** An answer that is accepted. */
  ghost predicate AcceptsAnswer(lib: Library, s: State, e: Event) {
    Answers(e) && AnswerStep(lib, s, e).1 == Verified(true)
  }

  /** What is remembered of a nonce at a given time. */
  function Remembered(used: Used, nonce: Nonce, now: u64): Option<u64> {
    Lookup(Prune(used, Horizon(MAX_CLOCK_SKEW, now)), nonce)
  }

  lemma RememberedLater(used1: Used, used2: Used, nonce: Nonce, earlier: u64, later: u64)
    requires earlier <= later && Remembered(used1, nonce, earlier) == Remembered(used2, nonce, earlier)
    ensures Remembered(used1, nonce, later) == Remembered(used2, nonce, later)
  {
  }

  /** What a step leaves remembered of a nonce: an accepted answer's own nonce with its
      challenge's issue time, and of every other nonce what was remembered before. */
  ghost predicate CacheMoves(lib: Library, s: State, s': State, reply: Reply, e: Event, nonce: Nonce) {
    Remembered(s'.usedNonces, nonce, e.clock.main) ==
      if Answers(e) && NonceOf(lib, e) == nonce && reply == Verified(true) && e.op.user in s.pendingChallenges then
        var issuedAt := s.pendingChallenges[e.op.user].issuedAt;
        if issuedAt > Horizon(MAX_CLOCK_SKEW, e.clock.main) then Some(issuedAt) else None
      else
        Remembered(s.usedNonces, nonce, e.clock.main)
  }

  lemma CacheStep(lib: Library, s: State, e: Event, nonce: Nonce)
    ensures var (s', reply) := Step(lib, s, e); CacheMoves(lib, s, s', reply, e, nonce)
  {
    if Answers(e) {
      AnswerCache(lib, s, e, nonce);
    }
  }

  lemma AnswerCache(lib: Library, s: State, e: Event, nonce: Nonce)
    requires Answers(e)
    ensures
      var (s', reply) := AnswerStep(lib, s, e);
      CacheMoves(lib, s, s', reply, e, nonce)
  {
    ReplayCache.PruneAbsorbs(s.usedNonces, MAX_CLOCK_SKEW, e.clock.main, e.clock.main);
  }
}
