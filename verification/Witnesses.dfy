/** Runs that reach the bounds: more than five attempts in five minutes, and one user's
    accepted answer standing in another user's way. */
module Witnesses {
  import opened Machine
  import opened Primitives
  import opened Challenges
  import opened RateLimiter
  import opened RateBounds
  import opened Server
  import opened ServerRuns
  import opened ServerInvariants
  import opened ServerLimits
  import opened ServerReplay
  import opened NonInterference
  import opened EndToEnd

  function At(time: u64): Clock {
    Clock(time, time, time)
  }

  lemma RunFirst(lib: Library, s: State, e: Event, rest: seq<Event>)
    ensures Run(lib, s, [e] + rest) == Run(lib, Step(lib, s, e).0, rest)
  {
    assert ([e] + rest)[1..] == rest;
  }

  lemma ClockFirst(e: Event, time: u64, rest: seq<Event>, start: u64)
    requires e.clock == At(time) && start <= time && ClockFrom(rest, time)
    ensures ClockFrom([e] + rest, start)
  {
    assert ([e] + rest)[1..] == rest;
  }

  lemma RequestsFirst(e: Event, rest: seq<Event>, user: string)
    ensures RequestsOf([e] + rest, user) == (if e.op.user == user then [e] else []) + RequestsOf(rest, user)
  {
    assert ([e] + rest)[1..] == rest;
  }

  /** A user with the key of this seed who has not attempted anything yet. */
  ghost predicate Fresh(lib: Library, s: State, user: string, keySeed: Bytes) {
    && user in s.users && s.users[user].dilithiumPublicKey == lib.dilithiumKeypair(keySeed).publicKey
    && user !in s.rateLimits
  }

  ghost predicate EnrollsAtZero(e: Event, user: string) {
    e.op.user == user && e.clock == At(0) && Enrolls(e)
  }

  /** The two requests of an honest exchange. */
  lemma Enroll(lib: Library, s: State, serverId: Bytes, user: string, keySeed: Bytes) returns (e1: Event, e2: Event)
    requires lib.Lawful() && serverId != [] && WellFormed(s, serverId) && user !in s.users
    ensures EnrollsAtZero(e1, user) && EnrollsAtZero(e2, user)
    ensures
      var s' := Step(lib, Step(lib, s, e1).0, e2).0;
      && WellFormed(s', serverId) && Fresh(lib, s', user, keySeed) && s'.usedNonces == s.usedNonces
      && forall u :: u != user ==> ViewOf(s', u) == ViewOf(s, u)
  {
    var kp := lib.dilithiumKeypair(keySeed);
    assert lib.sign(kp.secretKey, [], []).Ok?;
    e1 := Event(At(0), EnrollBegin(user, []));
    var (s1, reply) := Step(lib, s, e1);
    HonestEnrollment(lib, s, user, [], At(0), [], At(0), kp.publicKey, []);
    e2 := Event(At(0), CompleteOp(lib, user, ClientAnswer(lib, reply, kp.publicKey, []).value.0));
    StepIsLocal(lib, s, e1);
    StepIsLocal(lib, s1, e2);
    StepWellFormed(lib, s, e1, serverId);
    StepWellFormed(lib, s1, e2, serverId);
    StepWindow(lib, s, e1, user);
    StepWindow(lib, s1, e2, user);
    assert Good(ViewOf(s, user), serverId);
    assert Lookup(s.rateLimits, user) == None;
  }

  // The rate bound.

  function Requests(user: string, nonce: Nonce, times: seq<u64>): seq<Event> {
    if times == [] then []
    else [Event(At(times[0]), IssueChallenge(user, nonce))] + Requests(user, nonce, times[1..])
  }

  lemma {:induction false} RequestsInOrder(user: string, nonce: Nonce, times: seq<u64>, start: u64)
    requires TimesFrom(times, start)
    ensures ClockFrom(Requests(user, nonce, times), start)
    decreases |times|
  {
    if times != [] {
      RequestsInOrder(user, nonce, times[1..], times[0]);
      ClockFirst(Event(At(times[0]), IssueChallenge(user, nonce)), times[0], Requests(user, nonce, times[1..]), start);
    }
  }

  lemma AttemptsFirst(lib: Library, s: State, e: Event, rest: seq<Event>, user: string)
    ensures AttemptTimes(lib, s, [e] + rest, user)
         == (if Attempt(s, e, user) then [e.clock.limit] else []) + AttemptTimes(lib, Step(lib, s, e).0, rest, user)
  {
    assert ([e] + rest)[1..] == rest;
  }

  lemma {:induction false} RequestsAreAttempts(lib: Library, s: State, serverId: Bytes, user: string, nonce: Nonce, times: seq<u64>)
    requires WellFormed(s, serverId) && user in s.users
    ensures AttemptTimes(lib, s, Requests(user, nonce, times), user) == times
    decreases |times|
  {
    if times != [] {
      var e := Event(At(times[0]), IssueChallenge(user, nonce));
      var (s', reply) := Step(lib, s, e);
      StepWellFormed(lib, s, e, serverId);
      StepMoves(lib, s, e, user);
      RecordKept(s, s', reply, e, serverId, user);
      RequestsAreAttempts(lib, s', serverId, user, nonce, times[1..]);
      AttemptsFirst(lib, s, e, Requests(user, nonce, times[1..]), user);
    }
  }

  /** Any attempt times in order are those of a run. */
  lemma RunWithAttempts(lib: Library, serverId: Bytes, user: string, times: seq<u64>) returns (events: seq<Event>)
    requires lib.Lawful() && serverId != [] && TimesFrom(times, 0)
    ensures ClockFrom(events, 0) && AttemptTimes(lib, Init(serverId), events, user) == times
  {
    var s := Init(serverId);
    ReachableWellFormed(lib, serverId, []);
    var e1, e2 := Enroll(lib, s, serverId, user, []);
    var nonce: Nonce := seq(NONCE_LEN, _ => 0 as Byte);
    var requests := Requests(user, nonce, times);
    events := [e1] + ([e2] + requests);
    RequestsInOrder(user, nonce, times, 0);
    ClockFirst(e2, 0, requests, 0);
    ClockFirst(e1, 0, [e2] + requests, 0);
    var s1 := Step(lib, s, e1).0;
    RequestsAreAttempts(lib, Step(lib, s1, e2).0, serverId, user, nonce, times);
    AttemptsFirst(lib, s1, e2, requests, user);
    AttemptsFirst(lib, s, e1, [e2] + requests, user);
  }

  /** The server's bound is reached, in every interval that starts late enough for a whole
      window before it: nine attempts are let through in 300 seconds. */
  lemma ServerBoundReached(lib: Library, serverId: Bytes, user: string, lo: u64, hi: u64) returns (events: seq<Event>)
    requires lib.Lawful() && serverId != [] && 300 <= lo <= hi
    ensures Countable(lib, serverId, events, user)
    ensures LetThrough(lib, Init(serverId), events, user, lo, hi) == Most(SERVER_LIMITS, hi - lo)
    ensures hi == lo + 300 ==> LetThrough(lib, Init(serverId), events, user, lo, hi) == 9
  {
    var times := BoundReached(SERVER_LIMITS, lo, hi);
    events := RunWithAttempts(lib, serverId, user, times);
    LetThroughIsAdmitted(lib, Init(serverId), events, user, lo, hi);
  }

  // One user in another's way.

  const NOW: u64 := 1000

  function Ask(user: string, nonce: Nonce): Event {
    Event(At(NOW), IssueChallenge(user, nonce))
  }

  function Signature(lib: Library, keySeed: Bytes, asked: Nonce): Bytes {
    match lib.sign(lib.dilithiumKeypair(keySeed).secretKey, Challenge(asked, NOW).SigningPayload(NOW), [])
    case Ok(signature) => signature
    case Err(_) => []
  }

  /** The answer to a challenge of now, under a nonce that need not be the challenge's. */
  function AnswerUnder(lib: Library, user: string, keySeed: Bytes, asked: Nonce, nonce: Nonce): Event {
    Event(At(NOW), AnswerOp(lib, user, Response(nonce, NOW, Signature(lib, keySeed, asked))))
  }

  /** The state right after a challenge was issued for the first attempt. */
  ghost predicate Asked(lib: Library, s: State, user: string, keySeed: Bytes, nonce: Nonce) {
    && user in s.users && s.users[user].dilithiumPublicKey == lib.dilithiumKeypair(keySeed).publicKey
    && Lookup(s.pendingChallenges, user) == Some(Challenge(nonce, NOW))
    && Lookup(s.rateLimits, user) == Some(Window(1, NOW))
  }

  lemma AskStep(lib: Library, s: State, user: string, keySeed: Bytes, nonce: Nonce)
    requires Fresh(lib, s, user, keySeed)
    ensures
      var s' := Step(lib, s, Ask(user, nonce)).0;
      && Asked(lib, s', user, keySeed, nonce) && s'.usedNonces == s.usedNonces
  {
    assert Lookup(s.rateLimits, user) == None;
    IssueReply(lib, s, At(NOW), user, nonce);
    StepWindow(lib, s, Ask(user, nonce), user);
  }

  lemma OthersKept(lib: Library, s: State, e: Event, user: string)
    requires e.op.user != user
    ensures
      var s' := Step(lib, s, e).0;
      && Lookup(s'.users, user) == Lookup(s.users, user)
      && Lookup(s'.pendingChallenges, user) == Lookup(s.pendingChallenges, user)
      && Lookup(s'.rateLimits, user) == Lookup(s.rateLimits, user)
  {
    StepIsLocal(lib, s, e);
    assert ViewOf(Step(lib, s, e).0, user) == ViewOf(s, user);
  }

  /** With an empty cache the answer is accepted under any nonce. */
  lemma AnswerAccepted(lib: Library, s: State, user: string, keySeed: Bytes, asked: Nonce, nonce: Nonce)
    requires lib.Lawful() && Asked(lib, s, user, keySeed, asked) && s.usedNonces == map[]
    ensures Step(lib, s, AnswerUnder(lib, user, keySeed, asked, nonce)).1 == Verified(true)
  {
    var kp, c := lib.dilithiumKeypair(keySeed), Challenge(asked, NOW);
    HonestResponseAccepted(lib, MAX_CLOCK_SKEW, map[], keySeed, c, NOW, [], NOW);
    var r := Response(nonce, NOW, Signature(lib, keySeed, asked));
    AnswerReply(lib, s, At(NOW), user, r);
    assert VerifyStep(lib, MAX_CLOCK_SKEW, map[], Call(c, r, kp.publicKey, NOW)).1 == Ok(());
  }

  /** Once somebody else was accepted under its nonce, the user's answer is refused. */
  lemma AnswerBlocked(lib: Library, s: State, user: string, keySeed: Bytes, nonce: Nonce)
    requires lib.Lawful() && Asked(lib, s, user, keySeed, nonce)
    requires Remembered(s.usedNonces, nonce, NOW).Some?
    ensures
      var e := AnswerUnder(lib, user, keySeed, nonce, nonce);
      && Answers(e) && RefusedAsReplay(lib, s, e) && Step(lib, s, e).1 == Verified(false)
  {
    var e := AnswerUnder(lib, user, keySeed, nonce, nonce);
    var r := Response(nonce, NOW, Signature(lib, keySeed, nonce));
    AnswerReply(lib, s, At(NOW), user, r);
    RefusalIsReplay(lib, s, e);
  }

  /** Two users are enrolled and are issued challenges; the other's accepted answer carries
      the user's nonce, and the user's own answer is refused as a replay. */
  lemma Interference(lib: Library, s: State, user: string, other: string, keySeed: Bytes, nonce: Nonce, otherNonce: Nonce)
    requires lib.Lawful() && user != other && s.usedNonces == map[]
    requires Fresh(lib, s, user, keySeed) && Fresh(lib, s, other, keySeed)
    ensures
      var s1 := Step(lib, s, Ask(user, nonce)).0;
      var s2 := Step(lib, s1, Ask(other, otherNonce)).0;
      var (s3, accepted) := Step(lib, s2, AnswerUnder(lib, other, keySeed, otherNonce, nonce));
      var e := AnswerUnder(lib, user, keySeed, nonce, nonce);
      && accepted == Verified(true)
      && Answers(e) && RefusedAsReplay(lib, s3, e) && Step(lib, s3, e).1 == Verified(false)
  {
    var x := AnswerUnder(lib, other, keySeed, otherNonce, nonce);
    var s1 := Step(lib, s, Ask(user, nonce)).0;
    AskStep(lib, s, user, keySeed, nonce);
    OthersKept(lib, s, Ask(user, nonce), other);
    var s2 := Step(lib, s1, Ask(other, otherNonce)).0;
    AskStep(lib, s1, other, keySeed, otherNonce);
    OthersKept(lib, s1, Ask(other, otherNonce), user);
    var s3 := Step(lib, s2, x).0;
    AnswerAccepted(lib, s2, other, keySeed, otherNonce, nonce);
    OthersKept(lib, s2, x, user);
    NonceOfAnswer(lib, other, keySeed, otherNonce, nonce);
    CacheStep(lib, s2, x, nonce);
    AnswerBlocked(lib, s3, user, keySeed, nonce);
  }

  lemma NonceOfAnswer(lib: Library, user: string, keySeed: Bytes, asked: Nonce, nonce: Nonce)
    requires lib.Lawful()
    ensures var e := AnswerUnder(lib, user, keySeed, asked, nonce); Answers(e) && NonceOf(lib, e) == nonce
  {
    assert lib.hexDecode(lib.hexEncode(nonce)) == Some(nonce);
  }

  /** The three requests after the enrollments: two challenges and the other's answer. */
  function Meeting(lib: Library, user: string, other: string, keySeed: Bytes, nonce: Nonce, otherNonce: Nonce): seq<Event> {
    [Ask(user, nonce)] + ([Ask(other, otherNonce)] + ([AnswerUnder(lib, other, keySeed, otherNonce, nonce)] + []))
  }

  lemma MeetingRun(lib: Library, s: State, user: string, other: string, keySeed: Bytes, nonce: Nonce, otherNonce: Nonce)
    requires user != other
    ensures
      var meeting, ask := Meeting(lib, user, other, keySeed, nonce, otherNonce), Ask(user, nonce);
      var s2 := Step(lib, Step(lib, s, ask).0, Ask(other, otherNonce)).0;
      && Run(lib, s, meeting) == Step(lib, s2, AnswerUnder(lib, other, keySeed, otherNonce, nonce)).0
      && RequestsOf(meeting, user) == [ask] && ClockFrom(meeting, 0)
  {
    var ask, otherAsk, x := Ask(user, nonce), Ask(other, otherNonce), AnswerUnder(lib, other, keySeed, otherNonce, nonce);
    var s1 := Step(lib, s, ask).0;
    RunFirst(lib, s, ask, [otherAsk] + ([x] + []));
    RunFirst(lib, s1, otherAsk, [x] + []);
    RunFirst(lib, Step(lib, s1, otherAsk).0, x, []);
    RequestsFirst(ask, [otherAsk] + ([x] + []), user);
    RequestsFirst(otherAsk, [x] + [], user);
    RequestsFirst(x, [], user);
    ClockFirst(x, NOW, [], NOW);
    ClockFirst(otherAsk, NOW, [x] + [], NOW);
    ClockFirst(ask, NOW, [otherAsk] + ([x] + []), 0);
  }

  lemma EnrollmentFirst(lib: Library, s: State, e1: Event, e2: Event, rest: seq<Event>, user: string)
    requires e1.op.user == e2.op.user && e1.clock == e2.clock == At(0) && ClockFrom(rest, 0)
    ensures
      var all := [e1] + ([e2] + rest);
      && Run(lib, s, all) == Run(lib, Step(lib, Step(lib, s, e1).0, e2).0, rest)
      && RequestsOf(all, user)
         == (if e1.op.user == user then [e1] + ([e2] + RequestsOf(rest, user)) else RequestsOf(rest, user))
      && ClockFrom(all, 0)
  {
    RunFirst(lib, s, e1, [e2] + rest);
    RunFirst(lib, Step(lib, s, e1).0, e2, rest);
    RequestsFirst(e1, [e2] + rest, user);
    RequestsFirst(e2, rest, user);
    ClockFirst(e2, 0, rest, 0);
    ClockFirst(e1, 0, [e2] + rest, 0);
  }

  /** The proviso of `UsersDoNotInterfere` is needed: a run after which the user's answer is
      refused as a replay, though it would be accepted had only the user made requests. */
  lemma UsersCanInterfere(
    lib: Library, serverId: Bytes, user: string, other: string, keySeed: Bytes, nonce: Nonce, otherNonce: Nonce)
    returns (history: seq<Event>, answer: Event)
    requires lib.Lawful() && serverId != [] && user != other
    ensures ClockFrom(history, 0) && Answers(answer) && answer.op.user == user && answer.clock == At(NOW)
    ensures RefusedAsReplay(lib, Run(lib, Init(serverId), history), answer)
    ensures Step(lib, Run(lib, Init(serverId), history), answer).1 == Verified(false)
    ensures Step(lib, Run(lib, Init(serverId), RequestsOf(history, user)), answer).1 == Verified(true)
  {
    var s0 := Init(serverId);
    ReachableWellFormed(lib, serverId, []);
    var e1, e2 := Enroll(lib, s0, serverId, user, keySeed);
    var s2 := Step(lib, Step(lib, s0, e1).0, e2).0;
    assert Lookup(s2.users, other) == ViewOf(s0, other).record == None;
    var f1, f2 := Enroll(lib, s2, serverId, other, keySeed);
    var s4 := Step(lib, Step(lib, s2, f1).0, f2).0;
    StillFresh(lib, s2, s4, user, keySeed);
    var meeting := Meeting(lib, user, other, keySeed, nonce, otherNonce);
    history := [e1] + ([e2] + ([f1] + ([f2] + meeting)));
    answer := AnswerUnder(lib, user, keySeed, nonce, nonce);
    MeetingRun(lib, s4, user, other, keySeed, nonce, otherNonce);
    EnrollmentFirst(lib, s2, f1, f2, meeting, user);
    EnrollmentFirst(lib, s0, e1, e2, [f1] + ([f2] + meeting), user);
    Interference(lib, s4, user, other, keySeed, nonce, otherNonce);
    RunFirst(lib, s2, Ask(user, nonce), []);
    EnrollmentFirst(lib, s0, e1, e2, [Ask(user, nonce)], user);
    AskStep(lib, s2, user, keySeed, nonce);
    AnswerAccepted(lib, Step(lib, s2, Ask(user, nonce)).0, user, keySeed, nonce, nonce);
  }

  lemma StillFresh(lib: Library, s: State, s': State, user: string, keySeed: Bytes)
    requires Fresh(lib, s, user, keySeed) && ViewOf(s', user) == ViewOf(s, user)
    ensures Fresh(lib, s', user, keySeed)
  {
    assert Lookup(s'.users, user) == Lookup(s.users, user) && Lookup(s'.rateLimits, user) == Lookup(s.rateLimits, user);
  }
}
