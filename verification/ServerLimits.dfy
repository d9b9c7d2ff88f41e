/** The rate limiter inside runs of the server. */
module ServerLimits {
  import opened Machine
  import opened Primitives
  import opened RateLimiter
  import opened RateBounds
  import opened Server
  import opened ServerRuns

  /** Whether a request is one of the user's that the limiter gets to see. */
  predicate Attempt(s: State, e: Event, user: string) {
    e.op.user == user && Limited(e) && user in s.users
  }

  ghost function AttemptTimes(lib: Library, s: State, events: seq<Event>, user: string): seq<u64>
    decreases |events|
  {
    if events == [] then []
    else (if Attempt(s, events[0], user) then [events[0].clock.limit] else [])
         + AttemptTimes(lib, Step(lib, s, events[0]).0, events[1..], user)
  }

  /** How many of the user's attempts between `lo` and `hi` are let through, challenges
      and verifications together. */
  ghost function LetThrough(lib: Library, s: State, events: seq<Event>, user: string, lo: u64, hi: u64): nat
    decreases |events|
  {
    if events == [] then 0
    else
      var e := events[0];
      var (s', reply) := Step(lib, s, e);
      (if Attempt(s, e, user) && reply != Failed(RateLimited) && lo <= e.clock.limit <= hi then 1 else 0)
      + LetThrough(lib, s', events[1..], user, lo, hi)
  }

  lemma LocalWindow(lib: Library, serverId: Bytes, v: View, replayed: bool, e: Event)
    ensures
      var effect := LocalStep(lib, serverId, v, replayed, e);
      var (w, ok) := Admit(SERVER_LIMITS, v.window, e.clock.limit);
      if Limited(e) && v.record.Some? then
        effect.view.window == Some(w) && (effect.reply == Failed(RateLimited) <==> !ok)
      else
        effect.view.window == v.window
  {
  }

  /** Only the user's own attempts move the user's window, the way the limiter says. */
  ghost predicate WindowMoves(s: State, s': State, reply: Reply, e: Event, user: string) {
    var (w, ok) := Admit(SERVER_LIMITS, Lookup(s.rateLimits, user), e.clock.limit);
    if Attempt(s, e, user) then
      Lookup(s'.rateLimits, user) == Some(w) && (reply == Failed(RateLimited) <==> !ok)
    else
      Lookup(s'.rateLimits, user) == Lookup(s.rateLimits, user)
  }

  lemma StepWindow(lib: Library, s: State, e: Event, user: string)
    ensures var (s', reply) := Step(lib, s, e); WindowMoves(s, s', reply, e, user)
  {
    var (s', reply) := Step(lib, s, e);
    StepIsLocal(lib, s, e);
    if e.op.user == user {
      LocalWindow(lib, s.serverId, ViewOf(s, user), Replayed(lib, s, e), e);
      OwnWindow(s, s', reply, e, LocalStep(lib, s.serverId, ViewOf(s, user), Replayed(lib, s, e), e));
    } else {
      OtherWindow(s, s', reply, e, user);
    }
  }

  lemma OwnWindow(s: State, s': State, reply: Reply, e: Event, effect: Effect)
    requires Frames(s, s', e) && EffectOf(s, (s', reply), e.op.user) == effect
    requires
      var v := ViewOf(s, e.op.user);
      var (w, ok) := Admit(SERVER_LIMITS, v.window, e.clock.limit);
      if Limited(e) && v.record.Some? then
        effect.view.window == Some(w) && (effect.reply == Failed(RateLimited) <==> !ok)
      else
        effect.view.window == v.window
    ensures WindowMoves(s, s', reply, e, e.op.user)
  {
  }

  lemma OtherWindow(s: State, s': State, reply: Reply, e: Event, user: string)
    requires Frames(s, s', e) && e.op.user != user
    ensures WindowMoves(s, s', reply, e, user)
  {
    assert ViewOf(s', user) == ViewOf(s, user);
  }

  /** The server's limiter is the limiter run on the user's attempts alone. */
  lemma {:induction false} LetThroughIsAdmitted(lib: Library, s: State, events: seq<Event>, user: string, lo: u64, hi: u64)
    ensures LetThrough(lib, s, events, user, lo, hi)
         == AdmittedIn(SERVER_LIMITS, Lookup(s.rateLimits, user), AttemptTimes(lib, s, events, user), lo, hi)
    decreases |events|
  {
    if events != [] {
      var e := events[0];
      var s' := Step(lib, s, e).0;
      StepWindow(lib, s, e, user);
      LetThroughIsAdmitted(lib, s', events[1..], user, lo, hi);
      var times, rest := AttemptTimes(lib, s, events, user), AttemptTimes(lib, s', events[1..], user);
      if Attempt(s, e, user) {
        assert times[0] == e.clock.limit && times[1..] == rest;
      } else {
        assert times == rest;
      }
    }
  }

  lemma {:induction false} AttemptTimesFrom(lib: Library, s: State, events: seq<Event>, user: string, start: u64, now: u64)
    requires ClockFrom(events, now) && start <= now
    ensures TimesFrom(AttemptTimes(lib, s, events, user), start)
    decreases |events|
  {
    if events != [] {
      var e := events[0];
      var s' := Step(lib, s, e).0;
      var times, rest := AttemptTimes(lib, s, events, user), AttemptTimes(lib, s', events[1..], user);
      if Attempt(s, e, user) {
        AttemptTimesFrom(lib, s', events[1..], user, e.clock.limit, e.clock.audit);
        assert times[0] == e.clock.limit && times[1..] == rest;
      } else {
        AttemptTimesFrom(lib, s', events[1..], user, start, e.clock.audit);
        assert times == rest;
      }
    }
  }

  /** What the server stores for a user is what the limiter stores after the user's attempts. */
  lemma {:induction false} PairFollowsAttempts(lib: Library, s: State, events: seq<Event>, user: string)
    ensures Lookup(Run(lib, s, events).rateLimits, user)
         == Stored(SERVER_LIMITS, Lookup(s.rateLimits, user), AttemptTimes(lib, s, events, user))
    decreases |events|
  {
    if events != [] {
      var e := events[0];
      var s' := Step(lib, s, e).0;
      StepWindow(lib, s, e, user);
      PairFollowsAttempts(lib, s', events[1..], user);
      var times, rest := AttemptTimes(lib, s, events, user), AttemptTimes(lib, s', events[1..], user);
      if Attempt(s, e, user) {
        assert times[0] == e.clock.limit && times[1..] == rest;
      } else {
        assert times == rest;
      }
    }
  }

  /** In every run on a clock that does not go back, a user's pair is the start of the
      greedy window of the user's last attempt and the number of attempts in it, modulo
      2^32; there is none before the first attempt. */
  lemma PairIsGreedyWindowInRuns(lib: Library, serverId: Bytes, events: seq<Event>, user: string)
    requires ClockFrom(events, 0)
    ensures Lookup(Run(lib, Init(serverId), events).rateLimits, user)
         == LastWindow(SERVER_LIMITS, AttemptTimes(lib, Init(serverId), events, user))
  {
    PairFollowsAttempts(lib, Init(serverId), events, user);
    AttemptTimesFrom(lib, Init(serverId), events, user, 0, 0);
    StoredIsLastWindow(SERVER_LIMITS, AttemptTimes(lib, Init(serverId), events, user));
  }

  /** The run is on a clock that does not go back, and no window of the user sees 2^32
      attempts. */
  ghost predicate Countable(lib: Library, serverId: Bytes, events: seq<Event>, user: string) {
    ClockFrom(events, 0) && CountsFit(SERVER_LIMITS, None, AttemptTimes(lib, Init(serverId), events, user))
  }

  /** In every such run the attempts let through in any interval are bounded. */
  lemma ServerRateBound(lib: Library, serverId: Bytes, events: seq<Event>, user: string, lo: u64, hi: u64)
    requires Countable(lib, serverId, events, user) && lo <= hi
    ensures
      var n, k := LetThrough(lib, Init(serverId), events, user, lo, hi), (hi - lo) / 301;
      && n <= (if (hi - lo) % 301 == 0 then 5 * (k + 1) else 5 * (k + 2) - 1)
      && (hi - lo <= 300 ==> n <= 9)
  {
    LetThroughIsAdmitted(lib, Init(serverId), events, user, lo, hi);
    AttemptTimesFrom(lib, Init(serverId), events, user, 0, 0);
    SlidingBound(SERVER_LIMITS, AttemptTimes(lib, Init(serverId), events, user), lo, hi);
  }

  /** How many are let through in 300 seconds, exactly: what the pair stored at the
      beginning still allows in its own window, and up to five after it. So the promise of
      five attempts in five minutes is kept exactly when the old window lets none of the
      interval's attempts through, or what it does let through and all attempts after it
      are at most five together. */
  lemma FiveInFiveMinutesIff(lib: Library, serverId: Bytes, events: seq<Event>, user: string, lo: u64, hi: u64)
    requires Countable(lib, serverId, events, user) && lo <= hi <= lo + 300
    ensures
      var times := AttemptTimes(lib, Init(serverId), events, user);
      var pair := StoredAt(SERVER_LIMITS, None, times, lo);
      var before, after := FromOldWindow(SERVER_LIMITS, pair, times, lo, hi), InNewWindow(SERVER_LIMITS, pair, times, lo, hi);
      && LetThrough(lib, Init(serverId), events, user, lo, hi) == before + Min(5, after)
      && (LetThrough(lib, Init(serverId), events, user, lo, hi) <= 5 <==> before == 0 || before + after <= 5)
  {
    LetThroughIsAdmitted(lib, Init(serverId), events, user, lo, hi);
    AttemptTimesFrom(lib, Init(serverId), events, user, 0, 0);
    WithinMaximumIff(SERVER_LIMITS, AttemptTimes(lib, Init(serverId), events, user), lo, hi);
  }

  lemma {:induction false} AttemptsAreRequests(lib: Library, s: State, events: seq<Event>, user: string)
    ensures |AttemptTimes(lib, s, events, user)| <= |events|
    decreases |events|
  {
    if events != [] {
      AttemptsAreRequests(lib, Step(lib, s, events[0]).0, events[1..], user);
    }
  }

  /** The counter cannot wrap in a run with fewer requests than it has values. */
  lemma ShortRunsCountable(lib: Library, serverId: Bytes, events: seq<Event>, user: string)
    requires ClockFrom(events, 0) && |events| < U32_MODULUS
    ensures Countable(lib, serverId, events, user)
  {
    AttemptsAreRequests(lib, Init(serverId), events, user);
    FewCallsFit(SERVER_LIMITS, None, AttemptTimes(lib, Init(serverId), events, user));
  }
}
