/** An honest user gets in, whatever else the server does in between. */
module EndToEnd {
  import opened Machine
  import opened Primitives
  import opened Challenges
  import opened Enrollment
  import opened RateLimiter
  import opened Server
  import opened ServerRuns
  import opened ServerInvariants
  import PqTotp

  predicate Enrolls(e: Event) {
    e.op.EnrollBegin? || e.op.EnrollComplete?
  }

  ghost predicate NoEnrollmentBy(events: seq<Event>, user: string) {
    forall e :: e in events && e.op.user == user ==> !Enrolls(e)
  }

  lemma {:induction false} EnrollmentWaits(lib: Library, s: State, events: seq<Event>, user: string)
    requires NoEnrollmentBy(events, user)
    requires ViewOf(s, user).record.None? && ViewOf(s, user).enrolling.Some?
    ensures ViewOf(Run(lib, s, events), user).enrolling == ViewOf(s, user).enrolling
    ensures Run(lib, s, events).serverId == s.serverId
    decreases |events|
  {
    if events != [] {
      var s' := Step(lib, s, events[0]).0;
      assert events[0] in events;
      assert forall e :: e in events[1..] ==> e in events;
      StepIsLocal(lib, s, events[0]);
      assert ViewOf(s', user) == ViewOf(s, user);
      EnrollmentWaits(lib, s', events[1..], user);
    }
  }

  /** The client's side: what it sends back for the reply to its begin, and what it keeps. */
  function ClientAnswer(lib: Library, reply: Reply, dilithiumPublicKey: Bytes, coins: Bytes)
    : Result<(EnrollmentResponse, ClientEnrollment), EnrollmentError>
    requires reply.Begun?
  {
    ClientEnroll(lib, EnrollmentChallenge(DecodeOrEmpty(lib, reply.kyberPublicKey), reply.serverId), dilithiumPublicKey, coins)
  }

  /** The request that carries it. */
  function CompleteOp(lib: Library, user: string, r: EnrollmentResponse): Op {
    EnrollComplete(user, lib.hexEncode(r.ciphertext), lib.hexEncode(r.dilithiumPublicKey))
  }

  /** An honest exchange, with anything but another enrollment of the same user between
      its two requests, leaves the client's key and seed on the server. */
  lemma HonestEnrollment(lib: Library, s: State, user: string, seed: Bytes, begin: Clock, between: seq<Event>,
                         complete: Clock, dilithiumPublicKey: Bytes, coins: Bytes)
    requires lib.Lawful() && s.serverId != [] && |dilithiumPublicKey| == DILITHIUM_PUBLIC_KEY
    requires user !in s.users
    requires NoEnrollmentBy(between, user)
    ensures
      var (s1, reply) := Step(lib, s, Event(begin, EnrollBegin(user, seed)));
      && reply.Begun?
      && var client := ClientAnswer(lib, reply, dilithiumPublicKey, coins);
      && client.Ok?
      && var (response, data) := client.value;
      var op := CompleteOp(lib, user, response);
      var (s2, done) := Step(lib, Run(lib, s1, between), Event(complete, op));
      && done == Enrolled
      && user in s2.users
      && s2.users[user] == EnrollmentRecord(dilithiumPublicKey, data.totpSeed, s.serverId)
  {
    var e1 := Event(begin, EnrollBegin(user, seed));
    var enrolling := ServerEnrollment.New(lib, s.serverId, seed);
    var (s1, reply) := Step(lib, s, e1);
    StepIsLocal(lib, s, e1);
    assert ViewOf(s, user).record.None?;
    assert ViewOf(s1, user).enrolling == Some(enrolling) && ViewOf(s1, user).record.None?;
    assert lib.hexDecode(lib.hexEncode(enrolling.kyberPublicKey)) == Some(enrolling.kyberPublicKey);
    SeedAgreement(lib, s.serverId, seed, dilithiumPublicKey, coins);
    var (response, data) := ClientAnswer(lib, reply, dilithiumPublicKey, coins).value;
    EnrollmentWaits(lib, s1, between, user);
    CompleteHonestly(lib, Run(lib, s1, between), user, enrolling, complete, response);
  }

  lemma CompleteHonestly(lib: Library, s: State, user: string, enrolling: ServerEnrollment, clock: Clock,
                         response: EnrollmentResponse)
    requires lib.HexLaw() && ViewOf(s, user).enrolling == Some(enrolling)
    requires enrolling.Complete(lib, response).Ok?
    ensures
      var op := CompleteOp(lib, user, response);
      var (s', reply) := Step(lib, s, Event(clock, op));
      && reply == Enrolled && user in s'.users
      && s'.users[user] == enrolling.Complete(lib, response).value
  {
    var op := CompleteOp(lib, user, response);
    StepIsLocal(lib, s, Event(clock, op));
    var s' := Step(lib, s, Event(clock, op)).0;
    assert lib.hexDecode(lib.hexEncode(response.ciphertext)) == Some(response.ciphertext);
    assert lib.hexDecode(lib.hexEncode(response.dilithiumPublicKey)) == Some(response.dilithiumPublicKey);
    assert ViewOf(s', user).record == Some(enrolling.Complete(lib, response).value);
    assert Lookup(s'.users, user) == ViewOf(s', user).record;
  }

  predicate AdmitsAttempt(s: State, user: string, clock: Clock) {
    Admit(SERVER_LIMITS, Lookup(s.rateLimits, user), clock.limit).1
  }

  /** A code made by the enrolled user's seed is accepted at every later state, by any
      attempt the limiter admits within 30 seconds of the code's making. */
  lemma CodeLogsIn(lib: Library, s: State, serverId: Bytes, user: string, later: seq<Event>, clock: Clock, made: u64)
    requires WellFormed(s, serverId) && user in s.users
    requires AdmitsAttempt(Run(lib, s, later), user, clock)
    requires AbsDiff(made, clock.main) <= 30
    ensures
      var code := PqTotp.Generate(lib.shake, s.users[user].totpSeed, made);
      Step(lib, Run(lib, s, later), Event(clock, VerifyTotp(user, code))).1 == Verified(true)
  {
    var s' := Run(lib, s, later);
    RecordsWrittenOnce(lib, s, later, serverId, user);
    PqTotp.ServerWindowFits(clock.main);
    PqTotp.CodeAcceptedWithinDrift(lib.shake, s.users[user].totpSeed, made, clock.main, 1);
    var code := PqTotp.Generate(lib.shake, s.users[user].totpSeed, made);
    TotpReply(lib, s', clock, user, code);
  }

  lemma TotpReply(lib: Library, s: State, clock: Clock, user: string, code: u32)
    requires user in s.users && AdmitsAttempt(s, user, clock)
    ensures TotpStep(lib, s, clock, user, code).1
         == Verified(PqTotp.Accepts(lib.shake, s.users[user].totpSeed, code, clock.main, 1))
  {
  }

  /** The same from the empty server, after any history: the state is well formed. */
  lemma HonestEnrollmentInRuns(
    lib: Library, serverId: Bytes, history: seq<Event>, user: string, seed: Bytes, begin: Clock, between: seq<Event>,
    complete: Clock, dilithiumPublicKey: Bytes, coins: Bytes)
    requires lib.Lawful() && serverId != [] && |dilithiumPublicKey| == DILITHIUM_PUBLIC_KEY
    requires user !in Run(lib, Init(serverId), history).users
    requires NoEnrollmentBy(between, user)
    ensures
      var (s1, reply) := Step(lib, Run(lib, Init(serverId), history), Event(begin, EnrollBegin(user, seed)));
      && reply.Begun?
      && var client := ClientAnswer(lib, reply, dilithiumPublicKey, coins);
      && client.Ok?
      && var (response, data) := client.value;
      var s2 := Step(lib, Run(lib, s1, between), Event(complete, CompleteOp(lib, user, response))).0;
      && WellFormed(s2, serverId) && user in s2.users
      && s2.users[user] == EnrollmentRecord(dilithiumPublicKey, data.totpSeed, serverId)
  {
    var s0, e1 := Run(lib, Init(serverId), history), Event(begin, EnrollBegin(user, seed));
    ReachableWellFormed(lib, serverId, history);
    HonestEnrollment(lib, s0, user, seed, begin, between, complete, dilithiumPublicKey, coins);
    var (s1, reply) := Step(lib, s0, e1);
    var (response, data) := ClientAnswer(lib, reply, dilithiumPublicKey, coins).value;
    StepWellFormed(lib, s0, e1, serverId);
    RunWellFormed(lib, s1, between, serverId);
    StepWellFormed(lib, Run(lib, s1, between), Event(complete, CompleteOp(lib, user, response)), serverId);
  }

  /** End to end, for codes: any history, an honest enrollment, anything afterwards. */
  lemma EnrolledUserLogsInByCode(
    lib: Library, serverId: Bytes, history: seq<Event>, user: string, seed: Bytes, begin: Clock, between: seq<Event>,
    complete: Clock, dilithiumPublicKey: Bytes, coins: Bytes, later: seq<Event>, clock: Clock, made: u64)
    requires lib.Lawful() && serverId != [] && |dilithiumPublicKey| == DILITHIUM_PUBLIC_KEY
    requires user !in Run(lib, Init(serverId), history).users
    requires NoEnrollmentBy(between, user)
    requires AbsDiff(made, clock.main) <= 30
    ensures
      var (s1, reply) := Step(lib, Run(lib, Init(serverId), history), Event(begin, EnrollBegin(user, seed)));
      && reply.Begun?
      && var client := ClientAnswer(lib, reply, dilithiumPublicKey, coins);
      && client.Ok?
      && var (response, data) := client.value;
      var s2 := Run(lib, Step(lib, Run(lib, s1, between), Event(complete, CompleteOp(lib, user, response))).0, later);
      var code := PqTotp.Generate(lib.shake, data.totpSeed, made);
      AdmitsAttempt(s2, user, clock) ==> Step(lib, s2, Event(clock, VerifyTotp(user, code))).1 == Verified(true)
  {
    HonestEnrollmentInRuns(lib, serverId, history, user, seed, begin, between, complete, dilithiumPublicKey, coins);
    var (s1, reply) := Step(lib, Run(lib, Init(serverId), history), Event(begin, EnrollBegin(user, seed)));
    var (response, data) := ClientAnswer(lib, reply, dilithiumPublicKey, coins).value;
    var s2 := Step(lib, Run(lib, s1, between), Event(complete, CompleteOp(lib, user, response))).0;
    if AdmitsAttempt(Run(lib, s2, later), user, clock) {
      CodeLogsIn(lib, s2, serverId, user, later, clock, made);
    }
  }

  // Logging in by challenge.

  predicate AsksOrAnswers(e: Event) {
    e.op.IssueChallenge? || e.op.VerifyChallenge?
  }

  /** The user's own requests for challenges and answers are all refused, by the limiter
      for instance, and nobody's answer under the nonce is accepted. */
  ghost predicate Undisturbed(lib: Library, s: State, events: seq<Event>, user: string, nonce: Nonce)
    decreases |events|
  {
    events == [] ||
    var e := events[0];
    var (s', reply) := Step(lib, s, e);
    && (e.op.user == user && AsksOrAnswers(e) ==> reply.Failed?)
    && (Answers(e) && NonceOf(lib, e) == nonce ==> reply != Verified(true))
    && Undisturbed(lib, s', events[1..], user, nonce)
  }

  lemma StepKeepsNonceUnused(lib: Library, s: State, e: Event, nonce: Nonce)
    requires nonce !in s.usedNonces
    requires Answers(e) && NonceOf(lib, e) == nonce ==> Step(lib, s, e).1 != Verified(true)
    ensures nonce !in Step(lib, s, e).0.usedNonces
  {
    if Answers(e) {
      AnswerKeepsNonceUnused(lib, s, e, nonce);
    }
  }

  lemma AnswerKeepsNonceUnused(lib: Library, s: State, e: Event, nonce: Nonce)
    requires Answers(e) && nonce !in s.usedNonces
    requires NonceOf(lib, e) == nonce ==> AnswerStep(lib, s, e).1 != Verified(true)
    ensures nonce !in AnswerStep(lib, s, e).0.usedNonces
  {
  }

  lemma {:induction false} ChallengeWaits(lib: Library, s: State, events: seq<Event>, user: string, nonce: Nonce)
    requires user in s.pendingChallenges && nonce !in s.usedNonces
    requires Undisturbed(lib, s, events, user, nonce)
    ensures
      var s' := Run(lib, s, events);
      && user in s'.pendingChallenges && s'.pendingChallenges[user] == s.pendingChallenges[user]
      && nonce !in s'.usedNonces
    decreases |events|
  {
    if events != [] {
      var e := events[0];
      var (s', reply) := Step(lib, s, e);
      StepIsLocal(lib, s, e);
      StepKeepsNonceUnused(lib, s, e, nonce);
      ChallengeKept(lib, s, s', reply, e, user);
      ChallengeWaits(lib, s', events[1..], user, nonce);
    }
  }

  lemma LocalKeepsChallenge(lib: Library, serverId: Bytes, v: View, replayed: bool, e: Event)
    requires AsksOrAnswers(e) ==> LocalStep(lib, serverId, v, replayed, e).reply.Failed?
    ensures LocalStep(lib, serverId, v, replayed, e).view.challenge == v.challenge
  {
  }

  lemma ChallengeKept(lib: Library, s: State, s': State, reply: Reply, e: Event, user: string)
    requires IsLocal(lib, s, (s', reply), e)
    requires user in s.pendingChallenges
    requires e.op.user == user && AsksOrAnswers(e) ==> reply.Failed?
    ensures user in s'.pendingChallenges && s'.pendingChallenges[user] == s.pendingChallenges[user]
  {
    assert Lookup(s.pendingChallenges, user) == ViewOf(s, user).challenge;
    assert Lookup(s'.pendingChallenges, user) == ViewOf(s', user).challenge;
    if e.op.user == user {
      LocalKeepsChallenge(lib, s.serverId, ViewOf(s, user), Replayed(lib, s, e), e);
      assert EffectOf(s, (s', reply), user).view == ViewOf(s', user);
    }
  }

  /** An enrolled user's signed answer to the pending challenge is accepted after anything
      that leaves the challenge pending and its nonce unused, within 300 seconds of issue
      and 60 seconds of skew, if the limiter admits the attempt. */
  lemma AnswerLogsIn(lib: Library, s: State, serverId: Bytes, user: string, keySeed: Bytes, later: seq<Event>,
                     clock: Clock, clientTimestamp: u64, coins: Bytes)
    requires lib.Lawful() && WellFormed(s, serverId)
    requires user in s.users && s.users[user].dilithiumPublicKey == lib.dilithiumKeypair(keySeed).publicKey
    requires user in s.pendingChallenges && s.pendingChallenges[user].nonce !in s.usedNonces
    requires Undisturbed(lib, s, later, user, s.pendingChallenges[user].nonce)
    requires AdmitsAttempt(Run(lib, s, later), user, clock)
    requires clock.main <= s.pendingChallenges[user].issuedAt + 300 && AbsDiff(clientTimestamp, clock.main) <= 60
    ensures
      var r := Respond(lib, lib.dilithiumKeypair(keySeed), s.pendingChallenges[user], clientTimestamp, coins);
      r.Ok? && Step(lib, Run(lib, s, later), Event(clock, AnswerOp(lib, user, r.value))).1 == Verified(true)
  {
    var s', c, kp := Run(lib, s, later), s.pendingChallenges[user], lib.dilithiumKeypair(keySeed);
    RecordsWrittenOnce(lib, s, later, serverId, user);
    ChallengeWaits(lib, s, later, user, c.nonce);
    HonestResponseAccepted(lib, MAX_CLOCK_SKEW, s'.usedNonces, keySeed, c, clientTimestamp, coins, clock.main);
    AnswerReply(lib, s', clock, user, Respond(lib, kp, c, clientTimestamp, coins).value);
  }

  /** The request that carries a response. */
  function AnswerOp(lib: Library, user: string, r: Response): Op {
    VerifyChallenge(user, lib.hexEncode(r.nonce), r.clientTimestamp, lib.hexEncode(r.signature))
  }

  lemma AnswerReply(lib: Library, s: State, clock: Clock, user: string, r: Response)
    requires lib.HexLaw() && user in s.users && user in s.pendingChallenges && AdmitsAttempt(s, user, clock)
    ensures
      var e := Event(clock, AnswerOp(lib, user, r));
      var call := Call(s.pendingChallenges[user], r, s.users[user].dilithiumPublicKey, clock.main);
      && Answers(e) && NonceOf(lib, e) == r.nonce
      && AnswerStep(lib, s, e).1 == Verified(VerifyStep(lib, MAX_CLOCK_SKEW, s.usedNonces, call).1.Ok?)
  {
    assert lib.hexDecode(lib.hexEncode(r.nonce)) == Some(r.nonce);
    assert lib.hexDecode(lib.hexEncode(r.signature)) == Some(r.signature);
  }

  /** A challenge asked for now, and answered as the reply says after the later requests,
      logs the user in: in time, if the limiter admits the answer and nothing disturbs it. */
  ghost predicate ChallengeLogsIn(lib: Library, s: State, user: string, keySeed: Bytes, issue: Clock, nonce: Nonce,
                                  later: seq<Event>, clock: Clock, clientTimestamp: u64, coins: Bytes)
  {
    var (s1, reply) := Step(lib, s, Event(issue, IssueChallenge(user, nonce)));
    && reply.Issued?
    && var c := Challenge(DecodeNonce(lib, reply.nonce), reply.issuedAt);
    var r := Respond(lib, lib.dilithiumKeypair(keySeed), c, clientTimestamp, coins);
    && r.Ok?
    && (&& Undisturbed(lib, s1, later, user, nonce) && AdmitsAttempt(Run(lib, s1, later), user, clock)
        && clock.main <= reply.issuedAt + 300 && AbsDiff(clientTimestamp, clock.main) <= 60 ==>
          Step(lib, Run(lib, s1, later), Event(clock, AnswerOp(lib, user, r.value))).1 == Verified(true))
  }

  /** An enrolled user's, when the limiter admits the request and the nonce is unused. */
  lemma RequestedChallengeLogsIn(
    lib: Library, s: State, serverId: Bytes, user: string, keySeed: Bytes, issue: Clock, nonce: Nonce,
    later: seq<Event>, clock: Clock, clientTimestamp: u64, coins: Bytes)
    requires lib.Lawful() && WellFormed(s, serverId)
    requires user in s.users && s.users[user].dilithiumPublicKey == lib.dilithiumKeypair(keySeed).publicKey
    requires nonce !in s.usedNonces && AdmitsAttempt(s, user, issue)
    ensures ChallengeLogsIn(lib, s, user, keySeed, issue, nonce, later, clock, clientTimestamp, coins)
  {
    var e, kp := Event(issue, IssueChallenge(user, nonce)), lib.dilithiumKeypair(keySeed);
    var (s1, reply) := Step(lib, s, e);
    IssueReply(lib, s, issue, user, nonce);
    StepWellFormed(lib, s, e, serverId);
    assert lib.hexDecode(lib.hexEncode(nonce)) == Some(nonce);
    var c := Challenge(nonce, issue.main);
    assert lib.sign(kp.secretKey, c.SigningPayload(clientTimestamp), coins).Ok?;
    if Undisturbed(lib, s1, later, user, nonce) && AdmitsAttempt(Run(lib, s1, later), user, clock)
       && clock.main <= issue.main + 300 && AbsDiff(clientTimestamp, clock.main) <= 60 {
      AnswerLogsIn(lib, s1, serverId, user, keySeed, later, clock, clientTimestamp, coins);
    }
  }

  /** End to end, for challenges: any history, an honest enrollment, anything in between, a
      challenge under a nonce not used before, and its answer. */
  lemma EnrolledUserLogsInByChallenge(
    lib: Library, serverId: Bytes, history: seq<Event>, user: string, seed: Bytes, begin: Clock, between: seq<Event>,
    complete: Clock, keySeed: Bytes, coins: Bytes, since: seq<Event>,
    issue: Clock, nonce: Nonce, later: seq<Event>, clock: Clock, clientTimestamp: u64, signCoins: Bytes)
    requires lib.Lawful() && serverId != []
    requires user !in Run(lib, Init(serverId), history).users
    requires NoEnrollmentBy(between, user)
    ensures
      var (s1, reply) := Step(lib, Run(lib, Init(serverId), history), Event(begin, EnrollBegin(user, seed)));
      && reply.Begun?
      && var client := ClientAnswer(lib, reply, lib.dilithiumKeypair(keySeed).publicKey, coins);
      && client.Ok?
      && var (response, data) := client.value;
      var s2 := Run(lib, Step(lib, Run(lib, s1, between), Event(complete, CompleteOp(lib, user, response))).0, since);
      nonce !in s2.usedNonces && AdmitsAttempt(s2, user, issue) ==>
        ChallengeLogsIn(lib, s2, user, keySeed, issue, nonce, later, clock, clientTimestamp, signCoins)
  {
    var kp := lib.dilithiumKeypair(keySeed);
    assert lib.sign(kp.secretKey, [], coins).Ok?;
    HonestEnrollmentInRuns(lib, serverId, history, user, seed, begin, between, complete, kp.publicKey, coins);
    var (s1, reply) := Step(lib, Run(lib, Init(serverId), history), Event(begin, EnrollBegin(user, seed)));
    var (response, data) := ClientAnswer(lib, reply, kp.publicKey, coins).value;
    var s2 := Step(lib, Run(lib, s1, between), Event(complete, CompleteOp(lib, user, response))).0;
    RecordsWrittenOnce(lib, s2, since, serverId, user);
    RunWellFormed(lib, s2, since, serverId);
    var s3 := Run(lib, s2, since);
    if nonce !in s3.usedNonces && AdmitsAttempt(s3, user, issue) {
      RequestedChallengeLogsIn(lib, s3, serverId, user, keySeed, issue, nonce, later, clock, clientTimestamp, signCoins);
    }
  }

  lemma IssueReply(lib: Library, s: State, clock: Clock, user: string, nonce: Nonce)
    requires user in s.users && AdmitsAttempt(s, user, clock)
    ensures
      var (s', reply) := IssueStep(lib, s, clock, user, nonce);
      && reply == Issued(lib.hexEncode(nonce), clock.main)
      && user in s'.pendingChallenges && s'.pendingChallenges[user] == Challenge(nonce, clock.main)
      && s'.users == s.users && s'.usedNonces == s.usedNonces
  {
  }
}
