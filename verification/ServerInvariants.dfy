/** What every run of the server keeps. */
module ServerInvariants {
  import opened Machine
  import opened Primitives
  import opened Challenges
  import opened Enrollment
  import opened Server
  import opened ServerRuns

  // Well-formedness of reachable states.

  /** A record has the right lengths and the server's identity; nobody is enrolled and
      enrolling at once; challenges and rate counters belong to enrolled users. */
  ghost predicate Good(v: View, serverId: Bytes) {
    && (v.record.Some? ==> WellFormedRecord(v.record.value, serverId) && v.enrolling.None?)
    && (v.enrolling.Some? ==> v.enrolling.value.serverId == serverId)
    && (v.challenge.Some? ==> v.record.Some?)
    && (v.window.Some? ==> v.record.Some?)
  }

  ghost predicate WellFormed(s: State, serverId: Bytes) {
    s.serverId == serverId && forall u :: Good(ViewOf(s, u), serverId)
  }

  lemma MovedWellFormed(s: State, s': State, reply: Reply, e: Event, serverId: Bytes)
    requires WellFormed(s, serverId)
    requires forall u :: Moved(s, s', reply, e, u)
    ensures WellFormed(s', serverId)
  {
    forall u ensures Good(ViewOf(s', u), serverId) {
      assert Moved(s, s', reply, e, u);
      assert Good(ViewOf(s, u), serverId);
    }
    assert Moved(s, s', reply, e, e.op.user);
  }

  lemma StepWellFormed(lib: Library, s: State, e: Event, serverId: Bytes)
    requires WellFormed(s, serverId)
    ensures WellFormed(Step(lib, s, e).0, serverId)
  {
    var (s', reply) := Step(lib, s, e);
    forall u ensures Moved(s, s', reply, e, u) {
      StepMoves(lib, s, e, u);
    }
    MovedWellFormed(s, s', reply, e, serverId);
  }

  lemma {:induction false} RunWellFormed(lib: Library, s: State, events: seq<Event>, serverId: Bytes)
    requires WellFormed(s, serverId)
    ensures WellFormed(Run(lib, s, events), serverId)
    decreases |events|
  {
    if events != [] {
      StepWellFormed(lib, s, events[0], serverId);
      RunWellFormed(lib, Step(lib, s, events[0]).0, events[1..], serverId);
    }
  }

  lemma ReachableWellFormed(lib: Library, serverId: Bytes, events: seq<Event>)
    ensures WellFormed(Run(lib, Init(serverId), events), serverId)
  {
    RunWellFormed(lib, Init(serverId), events, serverId);
  }

  // Records are written once.

  /** Although completing an enrollment inserts without looking, no run from a reachable
      state replaces or removes a record. */
  lemma {:induction false} RecordsWrittenOnce(lib: Library, s: State, events: seq<Event>, serverId: Bytes, user: string)
    requires WellFormed(s, serverId) && user in s.users
    ensures user in Run(lib, s, events).users && Run(lib, s, events).users[user] == s.users[user]
    decreases |events|
  {
    if events != [] {
      StepWellFormed(lib, s, events[0], serverId);
      var (s', reply) := Step(lib, s, events[0]);
      StepMoves(lib, s, events[0], user);
      RecordKept(s, s', reply, events[0], serverId, user);
      RecordsWrittenOnce(lib, s', events[1..], serverId, user);
    }
  }

  lemma RecordKept(s: State, s': State, reply: Reply, e: Event, serverId: Bytes, user: string)
    requires WellFormed(s, serverId) && user in s.users
    requires Moved(s, s', reply, e, user)
    ensures user in s'.users && s'.users[user] == s.users[user]
  {
    assert Good(ViewOf(s, user), serverId);
    assert ViewOf(s', user).record == ViewOf(s, user).record;
  }

  // The audit log, user by user.

  ghost function LogOf(log: seq<AuditEntry>, user: string): seq<AuditEntry> {
    if log == [] then []
    else
      var last, rest := log[|log| - 1], LogOf(log[..|log| - 1], user);
      if last.user == user then rest + [last] else rest
  }

  /** What a step adds to a user's log: what it logs, if the request was the user's. */
  lemma MovedLog(s: State, s': State, reply: Reply, e: Event, user: string)
    requires Moved(s, s', reply, e, user)
    ensures LogOf(s'.auditLog, user)
         == LogOf(s.auditLog, user) + (if e.op.user == user then s'.auditLog[|s.auditLog|..] else [])
  {
    var logged := s'.auditLog[|s.auditLog|..];
    assert s'.auditLog == s.auditLog + logged;
    if logged != [] {
      assert s'.auditLog[..|s.auditLog|] == s.auditLog;
      assert logged == [s'.auditLog[|s'.auditLog| - 1]];
      assert logged[0] in logged;
    } else {
      assert s'.auditLog == s.auditLog;
    }
  }

  predicate Authenticates(a: Action) {
    a == ChallengeIssued || a == TotpVerified || a == ChallengeVerified
  }

  /** The log of an enrolled user: begins up to `k`, a completion there, then only
      authentication. */
  ghost predicate EnrolledAt(log: seq<AuditEntry>, k: int) {
    && 1 <= k < |log| && log[k].action == EnrollCompleted
    && (forall i :: 0 <= i < k ==> log[i].action == EnrollBegun)
    && (forall i :: k < i < |log| ==> Authenticates(log[i].action))
  }

  ghost predicate InLanguage(log: seq<AuditEntry>, enrolled: bool) {
    if enrolled then exists k :: EnrolledAt(log, k)
    else forall i :: 0 <= i < |log| ==> log[i].action == EnrollBegun
  }

  lemma LanguageStep(log: seq<AuditEntry>, entry: AuditEntry, enrolled: bool, enrolled': bool)
    requires InLanguage(log, enrolled)
    requires
      || (!enrolled && !enrolled' && entry.action == EnrollBegun)
      || (!enrolled && enrolled' && entry.action == EnrollCompleted && log != [])
      || (enrolled && enrolled' && Authenticates(entry.action))
    ensures InLanguage(log + [entry], enrolled')
  {
    if enrolled {
      var k :| EnrolledAt(log, k);
      assert EnrolledAt(log + [entry], k);
    } else if enrolled' {
      assert EnrolledAt(log + [entry], |log|);
    }
  }

  ghost predicate Traced(s: State, user: string) {
    var log, v := LogOf(s.auditLog, user), ViewOf(s, user);
    InLanguage(log, v.record.Some?) && (v.enrolling.Some? ==> log != [])
  }

  lemma MovedTraced(s: State, s': State, reply: Reply, e: Event, serverId: Bytes, user: string)
    requires WellFormed(s, serverId) && Traced(s, user) && Moved(s, s', reply, e, user)
    ensures Traced(s', user)
  {
    var log, log' := LogOf(s.auditLog, user), LogOf(s'.auditLog, user);
    var logged := s'.auditLog[|s.auditLog|..];
    MovedLog(s, s', reply, e, user);
    assert Good(ViewOf(s, user), serverId);
    if e.op.user == user && logged != [] {
      assert logged == [logged[0]];
      LanguageStep(log, logged[0], ViewOf(s, user).record.Some?, ViewOf(s', user).record.Some?);
    } else {
      assert log' == log;
    }
  }

  lemma {:induction false} RunTraced(lib: Library, s: State, events: seq<Event>, serverId: Bytes, user: string)
    requires WellFormed(s, serverId) && Traced(s, user)
    ensures Traced(Run(lib, s, events), user)
    decreases |events|
  {
    if events != [] {
      var (s', reply) := Step(lib, s, events[0]);
      StepWellFormed(lib, s, events[0], serverId);
      StepMoves(lib, s, events[0], user);
      MovedTraced(s, s', reply, events[0], serverId, user);
      RunTraced(lib, s', events[1..], serverId, user);
    }
  }

  /** In every run, a user's log is a run of enrollment begins, followed for an enrolled
      user, and only then, by one completion and any authentication; so the log tells
      who is enrolled. */
  lemma AuditTrace(lib: Library, serverId: Bytes, events: seq<Event>, user: string)
    ensures
      var s := Run(lib, Init(serverId), events);
      var log := LogOf(s.auditLog, user);
      && InLanguage(log, user in s.users)
      && (user in s.users <==> exists i :: 0 <= i < |log| && log[i].action == EnrollCompleted)
  {
    RunTraced(lib, Init(serverId), events, serverId, user);
    var s := Run(lib, Init(serverId), events);
    assert user in s.users <==> ViewOf(s, user).record.Some?;
  }

  // Challenges are conserved.

  ghost function Count(log: seq<AuditEntry>, action: Action): nat {
    if log == [] then 0
    else Count(log[..|log| - 1], action) + (if log[|log| - 1].action == action then 1 else 0)
  }

  ghost function Logins(log: seq<AuditEntry>): nat {
    if log == [] then 0
    else
      var last := log[|log| - 1];
      Logins(log[..|log| - 1]) + (if last.action == ChallengeVerified && last.success then 1 else 0)
  }

  /** Challenges issued less challenges answered. */
  ghost function Open(log: seq<AuditEntry>): int {
    Count(log, ChallengeIssued) - Count(log, ChallengeVerified)
  }

  function Opens(a: Action): int {
    if a == ChallengeIssued then 1 else if a == ChallengeVerified then -1 else 0
  }

  lemma OpenAppend(log: seq<AuditEntry>, entry: AuditEntry)
    ensures Open(log + [entry]) == Open(log) + Opens(entry.action)
  {
    assert (log + [entry])[..|log|] == log;
  }

  lemma {:induction false} LoginsAreAnswers(log: seq<AuditEntry>)
    ensures Logins(log) <= Count(log, ChallengeVerified)
  {
    if log != [] {
      LoginsAreAnswers(log[..|log| - 1]);
    }
  }

  function Pending(s: State, user: string): nat {
    if user in s.pendingChallenges then 1 else 0
  }

  /** Whether a step issues a challenge to the user over one that is still pending. */
  ghost predicate Overwrites(s: State, reply: Reply, e: Event, user: string) {
    e.op.user == user && reply.Issued? && user in s.pendingChallenges
  }

  ghost function Overwritten(lib: Library, s: State, events: seq<Event>, user: string): nat
    decreases |events|
  {
    if events == [] then 0
    else
      var (s', reply) := Step(lib, s, events[0]);
      (if Overwrites(s, reply, events[0], user) then 1 else 0) + Overwritten(lib, s', events[1..], user)
  }

  ghost function Balance(s: State, user: string): int {
    Open(LogOf(s.auditLog, user)) - Pending(s, user)
  }

  function Waiting(v: View): nat {
    if v.challenge.Some? then 1 else 0
  }

  lemma AdvanceBalance(v: View, effect: Effect, serverId: Bytes, e: Event)
    requires Advances(v, effect, serverId, e)
    ensures (if effect.logged == [] then 0 else Opens(effect.logged[0].action)) + Waiting(v) - Waiting(effect.view)
         == if effect.reply.Issued? && v.challenge.Some? then 1 else 0
  {
  }

  lemma MovedBalance(s: State, s': State, reply: Reply, e: Event, user: string)
    requires Moved(s, s', reply, e, user)
    ensures Balance(s', user) == Balance(s, user) + (if Overwrites(s, reply, e, user) then 1 else 0)
  {
    var v, v', logged := ViewOf(s, user), ViewOf(s', user), s'.auditLog[|s.auditLog|..];
    MovedLog(s, s', reply, e, user);
    assert Pending(s, user) == Waiting(v) && Pending(s', user) == Waiting(v');
    if e.op.user == user {
      AdvanceBalance(v, EffectOf(s, (s', reply), user), s.serverId, e);
      if logged != [] {
        assert logged == [logged[0]];
        OpenAppend(LogOf(s.auditLog, user), logged[0]);
      } else {
        assert LogOf(s'.auditLog, user) == LogOf(s.auditLog, user);
      }
    } else {
      assert LogOf(s'.auditLog, user) == LogOf(s.auditLog, user);
    }
  }

  lemma {:induction false} RunBalance(lib: Library, s: State, events: seq<Event>, user: string)
    ensures Balance(Run(lib, s, events), user) == Balance(s, user) + Overwritten(lib, s, events, user)
    decreases |events|
  {
    if events != [] {
      var (s', reply) := Step(lib, s, events[0]);
      StepMoves(lib, s, events[0], user);
      MovedBalance(s, s', reply, events[0], user);
      RunBalance(lib, s', events[1..], user);
    }
  }

  /** In every run, the challenges issued to a user are those answered, those overwritten
      by a later one and the one pending; so logins by challenge never outnumber them. */
  lemma ChallengeConservation(lib: Library, serverId: Bytes, events: seq<Event>, user: string)
    ensures
      var s := Run(lib, Init(serverId), events);
      var log := LogOf(s.auditLog, user);
      && Count(log, ChallengeIssued)
         == Count(log, ChallengeVerified) + Overwritten(lib, Init(serverId), events, user) + Pending(s, user)
      && Logins(log) <= Count(log, ChallengeVerified) <= Count(log, ChallengeIssued)
  {
    RunBalance(lib, Init(serverId), events, user);
    LoginsAreAnswers(LogOf(Run(lib, Init(serverId), events).auditLog, user));
  }

  // Each answer consumes a challenge of its own.

  predicate IssuesOrAnswers(a: Action) {
    a == ChallengeIssued || a == ChallengeVerified
  }

  /** Entry `i` issues the challenge that is open just before entry `j`. */
  ghost predicate OpenedAt(log: seq<AuditEntry>, i: int, j: int) {
    && 0 <= i < j <= |log| && log[i].action == ChallengeIssued
    && forall k :: i < k < j ==> !IssuesOrAnswers(log[k].action)
  }

  /** Two answers, in this order. */
  ghost predicate Answered(log: seq<AuditEntry>, j1: int, j2: int) {
    0 <= j1 < j2 < |log| && log[j1].action == log[j2].action == ChallengeVerified
  }

  ghost predicate EachAnswerOpened(log: seq<AuditEntry>) {
    forall j :: 0 <= j < |log| && log[j].action == ChallengeVerified ==> exists i :: OpenedAt(log, i, j)
  }

  /** The log shows an open challenge exactly when one is pending. */
  ghost predicate Matched(log: seq<AuditEntry>, waiting: bool) {
    EachAnswerOpened(log) && (waiting <==> exists i :: OpenedAt(log, i, |log|))
  }

  lemma OpenedAppend(log: seq<AuditEntry>, entry: AuditEntry, i: int, j: int)
    requires j <= |log|
    ensures OpenedAt(log + [entry], i, j) <==> OpenedAt(log, i, j)
  {
    assert forall k :: 0 <= k < |log| ==> (log + [entry])[k] == log[k];
  }

  lemma OpenAfter(log: seq<AuditEntry>, entry: AuditEntry, i: int)
    ensures OpenedAt(log + [entry], i, |log + [entry]|) <==>
      if i == |log| then entry.action == ChallengeIssued
      else OpenedAt(log, i, |log|) && !IssuesOrAnswers(entry.action)
  {
    var all := log + [entry];
    assert all[|log|] == entry;
    if i < |log| && OpenedAt(all, i, |log| + 1) {
      assert forall k :: i < k < |log| ==> all[k] == log[k];
    }
  }

  lemma MatchedStep(log: seq<AuditEntry>, entry: AuditEntry, waiting: bool, waiting': bool)
    requires Matched(log, waiting)
    requires match entry.action
      case ChallengeIssued => waiting'
      case ChallengeVerified => waiting && !waiting'
      case _ => waiting' == waiting
    ensures Matched(log + [entry], waiting')
  {
    var all := log + [entry];
    forall j | 0 <= j < |all| && all[j].action == ChallengeVerified ensures exists i :: OpenedAt(all, i, j) {
      assert j < |log| ==> log[j].action == ChallengeVerified;
      var i :| OpenedAt(log, i, j);
      OpenedAppend(log, entry, i, j);
    }
    forall i ensures OpenedAt(all, i, |all|) <==>
      if i == |log| then entry.action == ChallengeIssued else OpenedAt(log, i, |log|) && !IssuesOrAnswers(entry.action)
    {
      OpenAfter(log, entry, i);
    }
    if entry.action == ChallengeIssued {
      assert OpenedAt(all, |log|, |all|);
    } else if waiting && waiting' {
      var i :| OpenedAt(log, i, |log|);
      assert OpenedAt(all, i, |all|);
    }
  }

  lemma MovedMatched(s: State, s': State, reply: Reply, e: Event, user: string)
    requires Moved(s, s', reply, e, user)
    requires Matched(LogOf(s.auditLog, user), user in s.pendingChallenges)
    ensures Matched(LogOf(s'.auditLog, user), user in s'.pendingChallenges)
  {
    var log, logged := LogOf(s.auditLog, user), s'.auditLog[|s.auditLog|..];
    MovedLog(s, s', reply, e, user);
    assert user in s.pendingChallenges <==> ViewOf(s, user).challenge.Some?;
    assert user in s'.pendingChallenges <==> ViewOf(s', user).challenge.Some?;
    if e.op.user == user && logged != [] {
      assert logged == [logged[0]];
      MatchedStep(log, logged[0], user in s.pendingChallenges, user in s'.pendingChallenges);
    } else {
      assert LogOf(s'.auditLog, user) == log;
    }
  }

  lemma {:induction false} RunMatched(lib: Library, s: State, events: seq<Event>, user: string)
    requires Matched(LogOf(s.auditLog, user), user in s.pendingChallenges)
    ensures Matched(LogOf(Run(lib, s, events).auditLog, user), user in Run(lib, s, events).pendingChallenges)
    decreases |events|
  {
    if events != [] {
      var (s', reply) := Step(lib, s, events[0]);
      StepMoves(lib, s, events[0], user);
      MovedMatched(s, s', reply, events[0], user);
      RunMatched(lib, s', events[1..], user);
    }
  }

  /** In every run, each answer in a user's log consumes the challenge issued last before
      it, which no other answer consumes, whatever nonces the answers carry; and the log
      ends with an open challenge exactly when one is pending. */
  lemma AnswersConsumeDistinctChallenges(lib: Library, serverId: Bytes, events: seq<Event>, user: string)
    ensures
      var s := Run(lib, Init(serverId), events);
      var log := LogOf(s.auditLog, user);
      && EachAnswerOpened(log)
      && (user in s.pendingChallenges <==> exists i :: OpenedAt(log, i, |log|))
      && forall i1, j1, i2, j2 :: OpenedAt(log, i1, j1) && OpenedAt(log, i2, j2) && Answered(log, j1, j2) ==> i1 < j1 < i2
  {
    RunMatched(lib, Init(serverId), events, user);
  }
}
