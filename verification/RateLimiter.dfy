/** The limiter of src/server.rs: a (count, start) pair per user. */
module RateLimiter {
  import opened Machine

  datatype Window = Window(count: u32, start: u64)

  datatype Limits = Limits(maxAttempts: u32, rateWindow: u64)

  /** One call: the pair afterwards and whether the call is admitted. */
  function Admit(lim: Limits, entry: Option<Window>, now: u64): (Window, bool) {
    var w := if entry.Some? then entry.value else Window(0, now);
    if WrappingSub(now, w.start) > lim.rateWindow then
      (Window(1, now), true)
    else
      var count := WrappingAdd32(w.count, 1);
      (Window(count, w.start), count <= lim.maxAttempts)
  }

  // The pair against the full history of call times.

  predicate Nondecreasing(times: seq<u64>) {
    forall i, j :: 0 <= i < j < |times| ==> times[i] <= times[j]
  }

  /** The pair stored after calls at these times. */
  function Stored(lim: Limits, entry: Option<Window>, times: seq<u64>): Option<Window>
    decreases |times|
  {
    if times == [] then entry
    else Stored(lim, Some(Admit(lim, entry, times[0]).0), times[1..])
  }

  lemma {:induction false} StoredAppend(lim: Limits, entry: Option<Window>, times: seq<u64>, now: u64)
    ensures Stored(lim, entry, times + [now]) == Some(Admit(lim, Stored(lim, entry, times), now).0)
    decreases |times|
  {
    var all := times + [now];
    if times == [] {
      assert all[0] == now && all[1..] == [];
    } else {
      assert all[0] == times[0] && all[1..] == times[1..] + [now];
      StoredAppend(lim, Some(Admit(lim, entry, times[0]).0), times[1..], now);
    }
  }

  function Admitted(lim: Limits, times: seq<u64>, i: nat): bool
    requires i < |times|
  {
    Admit(lim, Stored(lim, None, times[..i]), times[i]).1
  }

  /** Calls are cut greedily into windows: a call more than `rateWindow` after the opening
      call of the current window opens the next. The index of the call that opened call
      `i`'s window; it depends on the times alone, never on what was rejected. */
  function Opening(rateWindow: u64, times: seq<u64>, i: nat): (o: nat)
    requires i < |times|
    ensures o <= i
  {
    if i == 0 then 0
    else var o := Opening(rateWindow, times, i - 1);
      if times[i] > times[o] + rateWindow then i else o
  }

  /** Call number `k` of a window, as the counter shows it. */
  function Numbered(k: nat): u32 {
    k % U32_MODULUS
  }

  lemma NumberedSuccessor(k: nat)
    ensures WrappingAdd32(Numbered(k), 1) == Numbered(k + 1)
  {
  }

  /** The pair is the window's start and the number of its calls so far, counted modulo the
      counter's width; a call is admitted exactly when that number is within the limit, or
      when it opens a window other than the first. */
  lemma {:induction false} PairIsGreedyWindow(lim: Limits, times: seq<u64>, i: nat)
    requires i < |times| && Nondecreasing(times)
    ensures
      var o := Opening(lim.rateWindow, times, i);
      var number := Numbered(i - o + 1);
      && Stored(lim, None, times[..i + 1]) == Some(Window(number, times[o]))
      && (Admitted(lim, times, i) <==> number <= lim.maxAttempts || (o == i && i > 0))
  {
    assert times[..i + 1] == times[..i] + [times[i]];
    StoredAppend(lim, None, times[..i], times[i]);
    if i == 0 {
      assert times[..0] == [];
    } else {
      PairIsGreedyWindow(lim, times, i - 1);
      var o := Opening(lim.rateWindow, times, i - 1);
      AdmitInOrder(lim, times[o], times[i], i - o);
    }
  }

  /** On a clock that has not gone back, a call either opens a window or is the next one. */
  lemma AdmitInOrder(lim: Limits, start: u64, now: u64, k: nat)
    requires start <= now
    ensures Admit(lim, Some(Window(Numbered(k), start)), now) ==
      if now > start + lim.rateWindow then (Window(Numbered(1), now), true)
      else (Window(Numbered(k + 1), start), Numbered(k + 1) <= lim.maxAttempts)
  {
    NumberedSuccessor(k);
  }

  /** Of the calls of a window, exactly the first `maxAttempts` are admitted, as long as
      the window has fewer calls than the counter can count. */
  lemma FirstAttemptsAdmitted(lim: Limits, times: seq<u64>, i: nat)
    requires i < |times| && Nondecreasing(times) && lim.maxAttempts >= 1
    requires i - Opening(lim.rateWindow, times, i) + 1 < U32_MODULUS
    ensures Admitted(lim, times, i) <==> i - Opening(lim.rateWindow, times, i) < lim.maxAttempts
  {
    PairIsGreedyWindow(lim, times, i);
  }

  /** Beyond that the counter starts over: the call that would be number 2^32 is admitted. */
  lemma CounterStartsOver(lim: Limits, times: seq<u64>, i: nat)
    requires i < |times| && Nondecreasing(times)
    requires i - Opening(lim.rateWindow, times, i) + 1 == U32_MODULUS
    ensures Admitted(lim, times, i)
  {
    PairIsGreedyWindow(lim, times, i);
  }

  /** When the clock goes back the unsigned difference is taken modulo 2^64: the call opens
      a new window, and is admitted, exactly when that is more than `rateWindow`. */
  lemma BackwardClockReopensIff(lim: Limits, w: Window, now: u64)
    requires now < w.start
    ensures Admit(lim, Some(w), now) == (Window(1, now), true) <==> w.start - now < U64_MODULUS - lim.rateWindow
  {
  }

  // How many calls are admitted in an interval of time.

  ghost predicate TimesFrom(times: seq<u64>, start: u64) {
    times == [] || (start <= times[0] && TimesFrom(times[1..], times[0]))
  }

  /** No window receives as many calls as the counter has values. */
  ghost predicate CountsFit(lim: Limits, entry: Option<Window>, times: seq<u64>)
    decreases |times|
  {
    times == [] ||
    var (w, _) := Admit(lim, entry, times[0]);
    w.count >= 1 && CountsFit(lim, Some(w), times[1..])
  }

  function AdmittedIn(lim: Limits, entry: Option<Window>, times: seq<u64>, lo: u64, hi: u64): nat
    decreases |times|
  {
    if times == [] then 0
    else var (w, ok) := Admit(lim, entry, times[0]);
      (if ok && lo <= times[0] <= hi then 1 else 0) + AdmittedIn(lim, Some(w), times[1..], lo, hi)
  }

  /** Calls in order, none before `start`. */
  lemma {:induction false} TimesFromIff(times: seq<u64>, start: u64)
    ensures TimesFrom(times, start) <==> Nondecreasing(times) && forall i :: 0 <= i < |times| ==> start <= times[i]
    decreases |times|
  {
    if times != [] {
      var rest := times[1..];
      assert forall i :: 0 <= i < |rest| ==> rest[i] == times[i + 1];
      assert forall i :: 1 <= i < |times| ==> times[i] == rest[i - 1];
      TimesFromIff(rest, times[0]);
    }
  }

  /** The pair after all the calls, for calls in order. */
  function LastWindow(lim: Limits, times: seq<u64>): Option<Window> {
    if times == [] then None
    else
      var o := Opening(lim.rateWindow, times, |times| - 1);
      Some(Window(Numbered(|times| - o), times[o]))
  }

  lemma StoredIsLastWindow(lim: Limits, times: seq<u64>)
    requires TimesFrom(times, 0)
    ensures Stored(lim, None, times) == LastWindow(lim, times)
  {
    TimesFromIff(times, 0);
    if times != [] {
      var n := |times|;
      assert times[..n] == times;
      PairIsGreedyWindow(lim, times, n - 1);
    }
  }

  lemma {:induction false} AdmittedInAppend(
    lim: Limits, entry: Option<Window>, times: seq<u64>, now: u64, lo: u64, hi: u64)
    ensures AdmittedIn(lim, entry, times + [now], lo, hi)
         == AdmittedIn(lim, entry, times, lo, hi)
            + (if Admit(lim, Stored(lim, entry, times), now).1 && lo <= now <= hi then 1 else 0)
    decreases |times|
  {
    var all := times + [now];
    if times == [] {
      assert all[0] == now && all[1..] == [];
    } else {
      assert all[0] == times[0] && all[1..] == times[1..] + [now];
      AdmittedInAppend(lim, Some(Admit(lim, entry, times[0]).0), times[1..], now, lo, hi);
    }
  }

  ghost function AdmittedCalls(lim: Limits, times: seq<u64>, n: nat, lo: u64, hi: u64): set<int>
    requires n <= |times|
  {
    set i | 0 <= i < n && Counts(lim, times, i, lo, hi)
  }

  predicate Counts(lim: Limits, times: seq<u64>, i: nat, lo: u64, hi: u64)
    requires i < |times|
  {
    Admitted(lim, times, i) && lo <= times[i] <= hi
  }

  lemma AdmittedCallsGrow(lim: Limits, times: seq<u64>, n: nat, lo: u64, hi: u64)
    requires n < |times|
    ensures |AdmittedCalls(lim, times, n + 1, lo, hi)|
         == |AdmittedCalls(lim, times, n, lo, hi)| + (if Counts(lim, times, n, lo, hi) then 1 else 0)
  {
    assert AdmittedCalls(lim, times, n + 1, lo, hi)
        == AdmittedCalls(lim, times, n, lo, hi) + (if Counts(lim, times, n, lo, hi) then {n} else {});
  }

  /** The count is the number of calls in the interval that are admitted, each judged
      against the calls before it. */
  lemma {:induction false} AdmittedInCounts(lim: Limits, times: seq<u64>, n: nat, lo: u64, hi: u64)
    requires n <= |times|
    ensures AdmittedIn(lim, None, times[..n], lo, hi) == |AdmittedCalls(lim, times, n, lo, hi)|
  {
    if n == 0 {
      assert AdmittedCalls(lim, times, 0, lo, hi) == {};
    } else {
      AdmittedInCounts(lim, times, n - 1, lo, hi);
      assert times[..n] == times[..n - 1] + [times[n - 1]];
      AdmittedInAppend(lim, None, times[..n - 1], times[n - 1], lo, hi);
      AdmittedCallsGrow(lim, times, n - 1, lo, hi);
    }
  }

  /** No window can receive as many calls as the counter has values when there are not that
      many calls. */
  lemma {:induction false} FewCallsFit(lim: Limits, entry: Option<Window>, times: seq<u64>)
    requires (if entry.Some? then entry.value.count else 0) + |times| < U32_MODULUS
    ensures CountsFit(lim, entry, times)
    decreases |times|
  {
    if times != [] {
      FewCallsFit(lim, Some(Admit(lim, entry, times[0]).0), times[1..]);
    }
  }

  const SERVER_LIMITS := Limits(5, 300)
}
