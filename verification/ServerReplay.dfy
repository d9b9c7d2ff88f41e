/** Replays across whole runs of the server. */
module ServerReplay {
  import opened Machine
  import opened Primitives
  import opened Challenges
  import opened Server
  import opened ServerRuns
  import opened RateLimiter
  import ReplayCache

  function IssueTime(s: State, e: Event): u64
    requires e.op.user in s.pendingChallenges
  {
    s.pendingChallenges[e.op.user].issuedAt
  }

  ghost predicate Remembers(s: State, nonce: Nonce, issuedAt: u64, now: u64) {
    ReplayCache.Remembers(s.usedNonces, MAX_CLOCK_SKEW, nonce, issuedAt, now)
  }

  lemma AnswerKeepsMemory(lib: Library, s: State, e: Event, nonce: Nonce, issuedAt: u64, before: u64)
    requires Answers(e) && Remembers(s, nonce, issuedAt, before) && before <= e.clock.main
    ensures
      var s' := AnswerStep(lib, s, e).0;
      Remembers(s', nonce, issuedAt, e.clock.main)
  {
  }

  lemma StepKeepsMemory(lib: Library, s: State, e: Event, nonce: Nonce, issuedAt: u64, before: u64)
    requires Remembers(s, nonce, issuedAt, before) && before <= e.clock.main
    ensures Remembers(Step(lib, s, e).0, nonce, issuedAt, e.clock.main)
  {
    if Answers(e) {
      AnswerKeepsMemory(lib, s, e, nonce, issuedAt, before);
    } else {
      assert Step(lib, s, e).0.usedNonces == s.usedNonces;
    }
  }

  /** What acceptance needs of the state before and leaves in the state after. */
  lemma AcceptedAnswer(lib: Library, s: State, e: Event, issuedAt: u64, before: u64)
    requires AcceptsAnswer(lib, s, e)
    ensures e.op.user in s.pendingChallenges
    ensures Remembers(AnswerStep(lib, s, e).0, NonceOf(lib, e), IssueTime(s, e), e.clock.main)
    ensures issuedAt >= 1 && before <= e.clock.main && Remembers(s, NonceOf(lib, e), issuedAt, before) ==>
      e.clock.main >= issuedAt + 360 && IssueTime(s, e) >= issuedAt + 60
  {
  }

  lemma {:induction false} AcceptancesFarApart(
    lib: Library, s: State, nonce: Nonce, issuedAt: u64, events: seq<Event>, last: Event, before: u64, now: u64)
    requires Remembers(s, nonce, issuedAt, before) && before <= now && issuedAt >= 1
    requires ClockFrom(events + [last], now)
    requires AcceptsAnswer(lib, Run(lib, s, events), last) && NonceOf(lib, last) == nonce
    ensures last.op.user in Run(lib, s, events).pendingChallenges
    ensures last.clock.main >= issuedAt + 360
    ensures IssueTime(Run(lib, s, events), last) >= issuedAt + 60
    decreases |events|
  {
    var all := events + [last];
    if events == [] {
      assert all[0] == last;
      AcceptedAnswer(lib, s, last, issuedAt, before);
    } else {
      var e := events[0];
      assert all[0] == e && all[1..] == events[1..] + [last];
      StepKeepsMemory(lib, s, e, nonce, issuedAt, before);
      AcceptancesFarApart(lib, Step(lib, s, e).0, nonce, issuedAt, events[1..], last, e.clock.main, e.clock.audit);
    }
  }

  /** In every run on a clock that does not go back, if answers are accepted twice under
      one nonce, by any users, the second comes at least 360 seconds after the first
      challenge was issued, and for a challenge issued at least 60 seconds after it. */
  lemma NonceAcceptedAgain(lib: Library, s: State, first: Event, events: seq<Event>, last: Event)
    requires Answers(first) && Answers(last) && NonceOf(lib, first) == NonceOf(lib, last)
    requires first.clock.main <= first.clock.audit && ClockFrom(events + [last], first.clock.audit)
    ensures
      var s' := Run(lib, AnswerStep(lib, s, first).0, events);
      AcceptsAnswer(lib, s, first) && AcceptsAnswer(lib, s', last) ==>
        && first.op.user in s.pendingChallenges && last.op.user in s'.pendingChallenges
        && (IssueTime(s, first) >= 1 ==>
              last.clock.main >= IssueTime(s, first) + 360 && IssueTime(s', last) >= IssueTime(s, first) + 60)
  {
    var s1 := AnswerStep(lib, s, first).0;
    var s' := Run(lib, s1, events);
    if AcceptsAnswer(lib, s, first) && AcceptsAnswer(lib, s', last) {
      AcceptedAnswer(lib, s, first, 0, 0);
      AcceptedAnswer(lib, s', last, 0, 0);
      if IssueTime(s, first) >= 1 {
        AcceptancesFarApart(lib, s1, NonceOf(lib, first), IssueTime(s, first), events, last,
                            first.clock.main, first.clock.audit);
      }
    }
  }

  // Against a server that never forgets.

  /** The nonces accepted so far, with the issue times they were accepted for. */
  ghost function Accepted(lib: Library, s: State, events: seq<Event>, ledger: Used): Used
    decreases |events|
  {
    if events == [] then ledger
    else Accepted(lib, Step(lib, s, events[0]).0, events[1..], Record(lib, s, events[0], ledger))
  }

  ghost function Record(lib: Library, s: State, e: Event, ledger: Used): Used {
    if AcceptsAnswer(lib, s, e) && e.op.user in s.pendingChallenges then ledger[NonceOf(lib, e) := IssueTime(s, e)]
    else ledger
  }

  /** Cache and ledger remember the same beyond the horizon. */
  ghost predicate Agree(used: Used, ledger: Used, now: u64) {
    forall n :: Remembered(used, n, now) == Remembered(ledger, n, now)
  }

  lemma StepAgrees(lib: Library, s: State, e: Event, ledger: Used, before: u64)
    requires Agree(s.usedNonces, ledger, before) && before <= e.clock.main
    ensures Agree(Step(lib, s, e).0.usedNonces, Record(lib, s, e, ledger), e.clock.main)
  {
    var (s', reply) := Step(lib, s, e);
    forall n ensures Remembered(s'.usedNonces, n, e.clock.main) == Remembered(Record(lib, s, e, ledger), n, e.clock.main) {
      CacheStep(lib, s, e, n);
      RememberedLater(s.usedNonces, ledger, n, before, e.clock.main);
      RecordRemembered(lib, s, s', reply, e, ledger, n);
    }
  }

  lemma RecordRemembered(lib: Library, s: State, s': State, reply: Reply, e: Event, ledger: Used, nonce: Nonce)
    requires CacheMoves(lib, s, s', reply, e, nonce) && (Answers(e) ==> reply == AnswerStep(lib, s, e).1)
    requires Remembered(s.usedNonces, nonce, e.clock.main) == Remembered(ledger, nonce, e.clock.main)
    ensures Remembered(s'.usedNonces, nonce, e.clock.main) == Remembered(Record(lib, s, e, ledger), nonce, e.clock.main)
  {
  }

  lemma {:induction false} RunAgrees(lib: Library, s: State, events: seq<Event>, last: Event, ledger: Used, before: u64, now: u64)
    requires Agree(s.usedNonces, ledger, before) && before <= now && ClockFrom(events + [last], now)
    ensures Agree(Run(lib, s, events).usedNonces, Accepted(lib, s, events, ledger), last.clock.main)
    decreases |events|
  {
    var all := events + [last];
    if events == [] {
      assert all[0] == last;
      forall n ensures Remembered(s.usedNonces, n, last.clock.main) == Remembered(ledger, n, last.clock.main) {
        RememberedLater(s.usedNonces, ledger, n, before, last.clock.main);
      }
    } else {
      var e := events[0];
      assert all[0] == e && all[1..] == events[1..] + [last];
      StepAgrees(lib, s, e, ledger, before);
      RunAgrees(lib, Step(lib, s, e).0, events[1..], last, Record(lib, s, e, ledger), e.clock.main, e.clock.audit);
    }
  }

  ghost predicate RefusedAsReplay(lib: Library, s: State, e: Event)
    requires Answers(e)
  {
    AnswerStep(lib, s, e).0.auditLog == s.auditLog + [Entry(e, ChallengeVerified, false, Some(Replay))]
  }

  /** After every run on a clock that does not go back, an admitted answer to a pending,
      valid challenge is refused as a replay exactly when its nonce has been accepted
      before, from anybody, the last time for a challenge issued after the horizon. */
  lemma ReplayRefusedIff(lib: Library, serverId: Bytes, events: seq<Event>, e: Event)
    requires Answers(e) && ClockFrom(events + [e], 0)
    requires Live(ViewOf(Run(lib, Init(serverId), events), e.op.user), e)
    ensures
      var s, accepted := Run(lib, Init(serverId), events), Accepted(lib, Init(serverId), events, map[]);
      RefusedAsReplay(lib, s, e)
      <==> NonceOf(lib, e) in accepted && accepted[NonceOf(lib, e)] > Horizon(MAX_CLOCK_SKEW, e.clock.main)
  {
    var s, accepted := Run(lib, Init(serverId), events), Accepted(lib, Init(serverId), events, map[]);
    RunAgrees(lib, Init(serverId), events, e, map[], 0, 0);
    assert Remembered(s.usedNonces, NonceOf(lib, e), e.clock.main) == Remembered(accepted, NonceOf(lib, e), e.clock.main);
    RefusalIsReplay(lib, s, e);
  }

  /** While a nonce goes with one positive issue time, the cache forgets nothing that
      matters: the answer is refused exactly when the nonce was ever accepted before. */
  lemma SameIssueRefusedIff(lib: Library, serverId: Bytes, events: seq<Event>, e: Event)
    requires Answers(e) && ClockFrom(events + [e], 0)
    requires Live(ViewOf(Run(lib, Init(serverId), events), e.op.user), e)
    requires
      var s, accepted := Run(lib, Init(serverId), events), Accepted(lib, Init(serverId), events, map[]);
      IssueTime(s, e) >= 1 && (NonceOf(lib, e) in accepted ==> accepted[NonceOf(lib, e)] == IssueTime(s, e))
    ensures RefusedAsReplay(lib, Run(lib, Init(serverId), events), e)
       <==> NonceOf(lib, e) in Accepted(lib, Init(serverId), events, map[])
  {
    ReplayRefusedIff(lib, serverId, events, e);
  }

  lemma RefusalIsReplay(lib: Library, s: State, e: Event)
    requires Answers(e) && Live(ViewOf(s, e.op.user), e)
    ensures RefusedAsReplay(lib, s, e) <==> Remembered(s.usedNonces, NonceOf(lib, e), e.clock.main).Some?
  {
    var log' := AnswerStep(lib, s, e).0.auditLog;
    assert log'[|s.auditLog|] == log'[|log'| - 1];
    if log' == s.auditLog + [Entry(e, ChallengeVerified, false, Some(Replay))] {
      assert log'[|s.auditLog|].detail == Some(Replay);
    }
  }
}
