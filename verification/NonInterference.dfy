/** Users do not interfere: what one user sees of any run is what they would see alone. */
module NonInterference {
  import opened Machine
  import opened Primitives
  import opened Challenges
  import opened RateLimiter
  import opened Server
  import opened ServerRuns
  import opened ServerInvariants

  /** The states agree on everything about the user. */
  ghost predicate SameUser(s1: State, s2: State, user: string) {
    && s1.serverId == s2.serverId
    && ViewOf(s1, user) == ViewOf(s2, user)
    && LogOf(s1.auditLog, user) == LogOf(s2.auditLog, user)
  }

  lemma OtherStep(lib: Library, s1: State, s2: State, e: Event, user: string)
    requires SameUser(s1, s2, user) && e.op.user != user
    ensures SameUser(Step(lib, s1, e).0, s2, user)
  {
    var (s', reply) := Step(lib, s1, e);
    StepMoves(lib, s1, e, user);
    MovedLog(s1, s', reply, e, user);
    assert LogOf(s'.auditLog, user) == LogOf(s1.auditLog, user);
  }

  /** Others can change a request's effect through the cache only when it is an admitted
      answer to a pending challenge that is still valid; then the log shows it. */
  lemma ReplayMattersIff(lib: Library, serverId: Bytes, v: View, e: Event)
    ensures
      var refused, free := LocalStep(lib, serverId, v, true, e), LocalStep(lib, serverId, v, false, e);
      && (refused != free <==> Live(v, e))
      && (Live(v, e) ==> |refused.logged| == |free.logged| == 1 && refused.logged != free.logged)
  {
    var refused, free := LocalStep(lib, serverId, v, true, e), LocalStep(lib, serverId, v, false, e);
    if Live(v, e) {
      assert refused.logged[0].detail == Some(Replay) != free.logged[0].detail;
    }
  }

  /** The user's request meets the same memory of its nonce, where that matters. */
  ghost predicate SeesSameMemory(lib: Library, s1: State, s2: State, e: Event) {
    Live(ViewOf(s1, e.op.user), e) ==> (Replayed(lib, s1, e) <==> Replayed(lib, s2, e))
  }

  ghost function Logged(s: State, s': State): seq<AuditEntry>
    requires |s.auditLog| <= |s'.auditLog|
  {
    s'.auditLog[|s.auditLog|..]
  }

  ghost predicate SameEffect(s1: State, step1: (State, Reply), s2: State, step2: (State, Reply), user: string)
    requires |s1.auditLog| <= |step1.0.auditLog| && |s2.auditLog| <= |step2.0.auditLog|
  {
    && step1.1 == step2.1 && ViewOf(step1.0, user) == ViewOf(step2.0, user)
    && Logged(s1, step1.0) == Logged(s2, step2.0)
  }

  lemma OwnEffect(lib: Library, s1: State, s2: State, e: Event)
    requires s1.serverId == s2.serverId && ViewOf(s1, e.op.user) == ViewOf(s2, e.op.user)
    ensures |s1.auditLog| <= |Step(lib, s1, e).0.auditLog| && |s2.auditLog| <= |Step(lib, s2, e).0.auditLog|
    ensures
      var step1, step2 := Step(lib, s1, e), Step(lib, s2, e);
      if SeesSameMemory(lib, s1, s2, e) then SameEffect(s1, step1, s2, step2, e.op.user)
      else |Logged(s1, step1.0)| == |Logged(s2, step2.0)| == 1 && Logged(s1, step1.0) != Logged(s2, step2.0)
  {
    StepIsLocal(lib, s1, e);
    StepIsLocal(lib, s2, e);
    ReplayMattersIff(lib, s1.serverId, ViewOf(s1, e.op.user), e);
  }

  lemma OwnLog(lib: Library, s: State, e: Event)
    ensures
      var s' := Step(lib, s, e).0;
      && s'.serverId == s.serverId && |s.auditLog| <= |s'.auditLog|
      && LogOf(s'.auditLog, e.op.user) == LogOf(s.auditLog, e.op.user) + Logged(s, s')
  {
    var (s', reply) := Step(lib, s, e);
    StepMoves(lib, s, e, e.op.user);
    MovedLog(s, s', reply, e, e.op.user);
  }

  lemma OwnStep(lib: Library, s1: State, s2: State, e: Event)
    requires SameUser(s1, s2, e.op.user)
    ensures
      var (s1', r1) := Step(lib, s1, e);
      var (s2', r2) := Step(lib, s2, e);
      var log1, log2 := LogOf(s1'.auditLog, e.op.user), LogOf(s2'.auditLog, e.op.user);
      if SeesSameMemory(lib, s1, s2, e) then r1 == r2 && SameUser(s1', s2', e.op.user)
      else |log1| == |log2| && log1 != log2
  {
    OwnEffect(lib, s1, s2, e);
    OwnLog(lib, s1, e);
    OwnLog(lib, s2, e);
    var log := LogOf(s1.auditLog, e.op.user);
    var l1, l2 := Logged(s1, Step(lib, s1, e).0), Logged(s2, Step(lib, s2, e).0);
    assert (log + l1)[|log|..] == l1 && (log + l2)[|log|..] == l2;
  }

  // Whole runs.

  ghost function RepliesTo(lib: Library, s: State, events: seq<Event>, user: string): seq<Reply>
    decreases |events|
  {
    if events == [] then []
    else
      var (s', reply) := Step(lib, s, events[0]);
      (if events[0].op.user == user then [reply] else []) + RepliesTo(lib, s', events[1..], user)
  }

  /** The run with everybody else's requests erased. */
  ghost function RequestsOf(events: seq<Event>, user: string): seq<Event> {
    if events == [] then []
    else (if events[0].op.user == user then [events[0]] else []) + RequestsOf(events[1..], user)
  }

  /** Erasing everybody else's requests changes neither the replies the user gets, nor
      anything held about the user, nor the user's part of the audit log. */
  ghost predicate Unaffected(lib: Library, s1: State, s2: State, events: seq<Event>, user: string) {
    var own := RequestsOf(events, user);
    && RepliesTo(lib, s1, events, user) == RepliesTo(lib, s2, own, user)
    && ViewOf(Run(lib, s1, events), user) == ViewOf(Run(lib, s2, own), user)
    && LogOf(Run(lib, s1, events).auditLog, user) == LogOf(Run(lib, s2, own).auditLog, user)
  }

  /** Each of the user's answers that reaches the verifier in time finds its nonce
      remembered in the full run exactly when it does in the run of the user's own
      requests. */
  ghost predicate MemoryAgrees(lib: Library, s1: State, s2: State, events: seq<Event>, user: string)
    decreases |events|
  {
    events == [] ||
    var e := events[0];
    var s1' := Step(lib, s1, e).0;
    if e.op.user == user then
      SeesSameMemory(lib, s1, s2, e) && MemoryAgrees(lib, s1', Step(lib, s2, e).0, events[1..], user)
    else
      MemoryAgrees(lib, s1', s2, events[1..], user)
  }

  lemma {:induction false} LogGrows(lib: Library, s: State, events: seq<Event>, user: string)
    ensures LogOf(s.auditLog, user) <= LogOf(Run(lib, s, events).auditLog, user)
    decreases |events|
  {
    if events != [] {
      var (s', reply) := Step(lib, s, events[0]);
      StepMoves(lib, s, events[0], user);
      MovedLog(s, s', reply, events[0], user);
      LogGrows(lib, s', events[1..], user);
    }
  }

  lemma {:induction false} UnaffectedIff(lib: Library, s1: State, s2: State, events: seq<Event>, user: string)
    requires SameUser(s1, s2, user)
    ensures Unaffected(lib, s1, s2, events, user) <==> MemoryAgrees(lib, s1, s2, events, user)
    decreases |events|
  {
    if events != [] {
      var e, rest := events[0], events[1..];
      var s1' := Step(lib, s1, e).0;
      if e.op.user == user {
        OwnStep(lib, s1, s2, e);
        OwnUnaffectedIff(lib, s1, s2, events, user);
        if SeesSameMemory(lib, s1, s2, e) {
          UnaffectedIff(lib, s1', Step(lib, s2, e).0, rest, user);
        }
      } else {
        OtherStep(lib, s1, s2, e, user);
        UnaffectedIff(lib, s1', s2, rest, user);
        assert RequestsOf(events, user) == RequestsOf(rest, user);
      }
    }
  }

  lemma OwnUnaffectedIff(lib: Library, s1: State, s2: State, events: seq<Event>, user: string)
    requires SameUser(s1, s2, user) && events != [] && events[0].op.user == user
    ensures Unaffected(lib, s1, s2, events, user) <==>
      && SeesSameMemory(lib, s1, s2, events[0])
      && Unaffected(lib, Step(lib, s1, events[0]).0, Step(lib, s2, events[0]).0, events[1..], user)
  {
    var e, rest, own := events[0], events[1..], RequestsOf(events, user);
    var (s1', r1) := Step(lib, s1, e);
    var (s2', r2) := Step(lib, s2, e);
    assert own[0] == e && own[1..] == RequestsOf(rest, user);
    OwnStep(lib, s1, s2, e);
    if SeesSameMemory(lib, s1, s2, e) {
      var tail1, tail2 := RepliesTo(lib, s1', rest, user), RepliesTo(lib, s2', own[1..], user);
      assert ([r1] + tail1)[1..] == tail1 && ([r2] + tail2)[1..] == tail2;
    } else {
      LogGrows(lib, s1', rest, user);
      LogGrows(lib, s2', own[1..], user);
    }
  }

  /** In every run, erasing everybody else's requests changes nothing for the user exactly
      when nobody else changes what the cache remembers of the user's live answers. */
  lemma UsersDoNotInterfereIff(lib: Library, serverId: Bytes, events: seq<Event>, user: string)
    ensures Unaffected(lib, Init(serverId), Init(serverId), events, user)
       <==> MemoryAgrees(lib, Init(serverId), Init(serverId), events, user)
  {
    UnaffectedIff(lib, Init(serverId), Init(serverId), events, user);
  }

  // Nonces apart.

  ghost predicate SameMemory(s1: State, s2: State, mine: set<Nonce>, now: u64) {
    forall n :: n in mine ==> Remembered(s1.usedNonces, n, now) == Remembered(s2.usedNonces, n, now)
  }

  lemma SameMemoryLater(s1: State, s2: State, mine: set<Nonce>, earlier: u64, later: u64)
    requires SameMemory(s1, s2, mine, earlier) && earlier <= later
    ensures SameMemory(s1, s2, mine, later)
  {
    forall n | n in mine ensures Remembered(s1.usedNonces, n, later) == Remembered(s2.usedNonces, n, later) {
      RememberedLater(s1.usedNonces, s2.usedNonces, n, earlier, later);
    }
  }

  lemma OtherMemory(lib: Library, s1: State, s2: State, e: Event, mine: set<Nonce>)
    requires SameMemory(s1, s2, mine, e.clock.main)
    requires Answers(e) && NonceOf(lib, e) in mine ==> Step(lib, s1, e).1 != Verified(true)
    ensures SameMemory(Step(lib, s1, e).0, s2, mine, e.clock.main)
  {
    var s1' := Step(lib, s1, e).0;
    forall n | n in mine
      ensures Remembered(s1'.usedNonces, n, e.clock.main) == Remembered(s2.usedNonces, n, e.clock.main)
    {
      CacheStep(lib, s1, e, n);
    }
  }

  lemma OwnMemory(lib: Library, s1: State, s2: State, e: Event, mine: set<Nonce>)
    requires SameMemory(s1, s2, mine, e.clock.main)
    requires ViewOf(s1, e.op.user) == ViewOf(s2, e.op.user) && Step(lib, s1, e).1 == Step(lib, s2, e).1
    ensures SameMemory(Step(lib, s1, e).0, Step(lib, s2, e).0, mine, e.clock.main)
  {
    var s1', s2' := Step(lib, s1, e).0, Step(lib, s2, e).0;
    assert Lookup(s1.pendingChallenges, e.op.user) == ViewOf(s1, e.op.user).challenge
        == ViewOf(s2, e.op.user).challenge == Lookup(s2.pendingChallenges, e.op.user);
    forall n | n in mine
      ensures Remembered(s1'.usedNonces, n, e.clock.main) == Remembered(s2'.usedNonces, n, e.clock.main)
    {
      CacheStep(lib, s1, e, n);
      CacheStep(lib, s2, e, n);
    }
  }

  /** The user answers challenges under these nonces, and no answer of anybody else under
      them is accepted. */
  ghost predicate NoncesApart(lib: Library, s: State, events: seq<Event>, user: string, mine: set<Nonce>)
    decreases |events|
  {
    events == [] ||
    var e := events[0];
    var (s', reply) := Step(lib, s, e);
    && (Answers(e) ==> if e.op.user == user then NonceOf(lib, e) in mine
                       else NonceOf(lib, e) in mine ==> reply != Verified(true))
    && NoncesApart(lib, s', events[1..], user, mine)
  }

  lemma {:induction false} ApartAgrees(lib: Library, s1: State, s2: State, events: seq<Event>,
                                       user: string, mine: set<Nonce>, before: u64, now: u64)
    requires SameUser(s1, s2, user) && SameMemory(s1, s2, mine, before) && before <= now
    requires ClockFrom(events, now) && NoncesApart(lib, s1, events, user, mine)
    ensures MemoryAgrees(lib, s1, s2, events, user)
    decreases |events|
  {
    if events != [] {
      var e, rest := events[0], events[1..];
      var s1' := Step(lib, s1, e).0;
      SameMemoryLater(s1, s2, mine, before, e.clock.main);
      if e.op.user == user {
        assert SeesSameMemory(lib, s1, s2, e);
        OwnStep(lib, s1, s2, e);
        OwnMemory(lib, s1, s2, e, mine);
        ApartAgrees(lib, s1', Step(lib, s2, e).0, rest, user, mine, e.clock.main, e.clock.audit);
      } else {
        OtherStep(lib, s1, s2, e, user);
        OtherMemory(lib, s1, s2, e, mine);
        ApartAgrees(lib, s1', s2, rest, user, mine, e.clock.main, e.clock.audit);
      }
    }
  }

  /** In every run on a clock that does not go back, that is so whenever nobody else is
      accepted under a nonce the user answers under; rejected answers do no harm. */
  lemma UsersDoNotInterfere(lib: Library, serverId: Bytes, events: seq<Event>, user: string, mine: set<Nonce>)
    requires ClockFrom(events, 0) && NoncesApart(lib, Init(serverId), events, user, mine)
    ensures Unaffected(lib, Init(serverId), Init(serverId), events, user)
  {
    ApartAgrees(lib, Init(serverId), Init(serverId), events, user, mine, 0, 0);
    UsersDoNotInterfereIff(lib, serverId, events, user);
  }
}
