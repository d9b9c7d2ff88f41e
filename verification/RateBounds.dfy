/** How many calls the limiter of src/server.rs admits in an interval of time. */
module RateBounds {
  import opened Machine
  import opened RateLimiter

  /** What the current window can still admit. */
  function Quota(lim: Limits, w: Window): nat {
    lim.maxAttempts - Min(w.count, lim.maxAttempts)
  }

  lemma QuotaStep(lim: Limits, w: Window, now: u64)
    requires w.start <= now && Admit(lim, Some(w), now).0.count >= 1 && lim.maxAttempts >= 1
    ensures
      var (w', ok) := Admit(lim, Some(w), now);
      if now - w.start > lim.rateWindow then ok && w'.start == now && Quota(lim, w') == lim.maxAttempts - 1
      else w'.start == w.start && Quota(lim, w') + (if ok then 1 else 0) <= Quota(lim, w)
  {
  }

  /** How many further windows can open from `lo` to `hi` when one opened at `lo`. */
  function Periods(rateWindow: u64, lo: int, hi: int): nat
    requires lo <= hi
    decreases hi - lo
  {
    if hi - lo > rateWindow then 1 + Periods(rateWindow, lo + rateWindow + 1, hi) else 0
  }

  lemma QuotientStep(x: int, d: int)
    requires d > 0
    ensures x / d == (x - d) / d + 1
  {
    QuotientUnique(x - d, d, x / d - 1, x % d);
  }

  lemma {:induction false} PeriodsIsQuotient(rateWindow: u64, lo: int, hi: int)
    requires lo <= hi
    ensures Periods(rateWindow, lo, hi) == (hi - lo) / (rateWindow + 1)
    decreases hi - lo
  {
    var p := rateWindow + 1;
    if hi - lo > rateWindow {
      PeriodsIsQuotient(rateWindow, lo + p, hi);
      assert hi - (lo + p) == hi - lo - p;
      QuotientStep(hi - lo, p);
    }
  }

  lemma {:induction false} PeriodsShrink(rateWindow: u64, lo: int, now: int, hi: int)
    requires lo <= now <= hi
    ensures Periods(rateWindow, now, hi) <= Periods(rateWindow, lo, hi)
    decreases hi - lo
  {
    if hi - now > rateWindow {
      PeriodsShrink(rateWindow, lo + rateWindow + 1, now + rateWindow + 1, hi);
    }
  }

  lemma Scale(k: nat, x: nat, y: nat)
    requires x <= y
    ensures k * x <= k * y
  {
  }

  lemma {:induction false} NoneAdmittedLater(lim: Limits, w: Window, times: seq<u64>, start: u64, lo: u64, hi: u64)
    requires TimesFrom(times, start) && start > hi
    ensures AdmittedIn(lim, Some(w), times, lo, hi) == 0
    decreases |times|
  {
    if times != [] {
      NoneAdmittedLater(lim, Admit(lim, Some(w), times[0]).0, times[1..], times[0], lo, hi);
    }
  }

  /** With the current window, whenever it opened. */
  lemma {:induction false} BoundFromWindow(lim: Limits, w: Window, times: seq<u64>, start: u64, lo: u64, hi: u64)
    requires TimesFrom(times, start) && w.start <= start
    requires CountsFit(lim, Some(w), times) && w.start <= hi && lim.maxAttempts >= 1
    ensures AdmittedIn(lim, Some(w), times, lo, hi) <= Quota(lim, w) + lim.maxAttempts * Periods(lim.rateWindow, w.start, hi)
    decreases |times|
  {
    if times != [] {
      var now, rest := times[0], times[1..];
      var w' := Admit(lim, Some(w), now).0;
      if now > hi {
        NoneAdmittedLater(lim, w', rest, now, lo, hi);
      } else {
        BoundFromWindow(lim, w', rest, now, lo, hi);
        QuotaStep(lim, w, now);
        if now - w.start > lim.rateWindow {
          var before, after := Periods(lim.rateWindow, w.start, hi), Periods(lim.rateWindow, now, hi);
          PeriodsShrink(lim.rateWindow, w.start + lim.rateWindow + 1, now, hi);
          Scale(lim.maxAttempts, after + 1, before);
          assert lim.maxAttempts * (after + 1) == lim.maxAttempts * after + lim.maxAttempts;
        }
      }
    }
  }

  /** Full windows from the start of the interval on. */
  function Aligned(lim: Limits, lo: u64, hi: u64): nat
    requires lo <= hi
  {
    lim.maxAttempts * Periods(lim.rateWindow, lo, hi) + lim.maxAttempts
  }

  /** The rest of a window opened before the interval, and full windows after it. */
  function Straddling(lim: Limits, lo: u64, hi: u64): int
    requires lo <= hi
  {
    if lo == hi then lim.maxAttempts - 1
    else lim.maxAttempts - 1 + lim.maxAttempts * Periods(lim.rateWindow, lo + 1, hi) + lim.maxAttempts
  }

  lemma FirstCallOpens(lim: Limits, entry: Option<Window>, times: seq<u64>, lo: u64, hi: u64)
    requires times != [] && TimesFrom(times, lo) && times[0] <= hi
    requires CountsFit(lim, entry, times) && lim.maxAttempts >= 1
    requires Admit(lim, entry, times[0]).0 == Window(1, times[0])
    ensures AdmittedIn(lim, entry, times, lo, hi) <= Aligned(lim, lo, hi)
  {
    var now := times[0];
    BoundFromWindow(lim, Window(1, now), times[1..], now, lo, hi);
    PeriodsShrink(lim.rateWindow, lo, now, hi);
    Scale(lim.maxAttempts, Periods(lim.rateWindow, now, hi), Periods(lim.rateWindow, lo, hi));
  }

  lemma FirstCallInOldWindow(lim: Limits, w: Window, times: seq<u64>, lo: u64, hi: u64)
    requires TimesFrom(times, lo) && CountsFit(lim, Some(w), times) && lim.maxAttempts >= 1
    requires w.start < lo <= hi && lo <= w.start + lim.rateWindow && w.count >= 1
    ensures AdmittedIn(lim, Some(w), times, lo, hi) <= Straddling(lim, lo, hi)
  {
    BoundFromWindow(lim, w, times, lo, lo, hi);
    StraddlingCovers(lim, w.start, lo, hi);
  }

  lemma StraddlingCovers(lim: Limits, opening: u64, lo: u64, hi: u64)
    requires opening < lo <= hi && lo <= opening + lim.rateWindow && lim.maxAttempts >= 1
    ensures lim.maxAttempts - 1 + lim.maxAttempts * Periods(lim.rateWindow, opening, hi) <= Straddling(lim, lo, hi)
  {
    if hi - opening > lim.rateWindow {
      var next := opening + lim.rateWindow + 1;
      PeriodsShrink(lim.rateWindow, lo + 1, next, hi);
      var n, m := Periods(lim.rateWindow, next, hi), Periods(lim.rateWindow, lo + 1, hi);
      Scale(lim.maxAttempts, n, m);
      Distribute(lim.maxAttempts, n);
    }
  }

  lemma {:induction false} SlidingInPeriods(
    lim: Limits, entry: Option<Window>, times: seq<u64>, start: u64, lo: u64, hi: u64)
    requires TimesFrom(times, start) && CountsFit(lim, entry, times)
    requires entry.Some? ==> entry.value.start <= start && entry.value.start < lo && entry.value.count >= 1
    requires lo <= hi && lim.maxAttempts >= 1
    ensures AdmittedIn(lim, entry, times, lo, hi) <= Aligned(lim, lo, hi)
         || AdmittedIn(lim, entry, times, lo, hi) <= Straddling(lim, lo, hi)
    decreases |times|
  {
    if times != [] {
      var now := times[0];
      var w' := Admit(lim, entry, now).0;
      if now < lo {
        SlidingInPeriods(lim, Some(w'), times[1..], now, lo, hi);
      } else if now <= hi {
        if entry.None? || now - entry.value.start > lim.rateWindow {
          FirstCallOpens(lim, entry, times, lo, hi);
        } else {
          FirstCallInOldWindow(lim, entry.value, times, lo, hi);
        }
      } else {
        NoneAdmittedLater(lim, w', times[1..], now, lo, hi);
      }
    }
  }

  /** The most calls an interval of this length can see admitted. */
  function Most(lim: Limits, length: nat): int {
    var period := lim.rateWindow + 1;
    if length % period == 0 then lim.maxAttempts * (length / period + 1)
    else lim.maxAttempts * (length / period + 2) - 1
  }

  lemma MostInPeriods(lim: Limits, lo: u64, hi: u64)
    requires lo <= hi && lim.maxAttempts >= 1
    ensures Aligned(lim, lo, hi) <= Most(lim, hi - lo) && Straddling(lim, lo, hi) <= Most(lim, hi - lo)
    ensures Most(lim, hi - lo)
         == if (hi - lo) % (lim.rateWindow + 1) == 0 then Aligned(lim, lo, hi) else Straddling(lim, lo, hi)
  {
    var q, r := (hi - lo) / (lim.rateWindow + 1), (hi - lo) % (lim.rateWindow + 1);
    PeriodsIsQuotient(lim.rateWindow, lo, hi);
    if hi > lo {
      PeriodsFromNext(lim.rateWindow, lo, hi, q, r);
    }
    Distribute(lim.maxAttempts, q);
  }

  lemma PeriodsFromNext(rateWindow: u64, lo: u64, hi: u64, q: int, r: int)
    requires lo < hi && 0 <= r <= rateWindow && hi - lo == (rateWindow + 1) * q + r
    ensures Periods(rateWindow, lo + 1, hi) == if r == 0 then q - 1 else q
  {
    var p, y := rateWindow + 1, hi - lo - 1;
    PeriodsIsQuotient(rateWindow, lo + 1, hi);
    assert y == hi - (lo + 1);
    Distribute(p, q);
    if r == 0 {
      QuotientUnique(y, p, q - 1, p - 1);
    } else {
      QuotientUnique(y, p, q, r - 1);
    }
  }

  lemma Distribute(m: int, q: int)
    ensures m * (q + 1) == m * q + m && m * (q + 2) == m * q + 2 * m && m * (q - 1) == m * q - m
  {
  }

  /** In any interval of time the limiter admits at most max * (k + 1) calls when the length
      is k times `rateWindow + 1`, and at most max * (k + 2) - 1 when it is longer than that
      but not k + 1 times. */
  lemma SlidingBound(lim: Limits, times: seq<u64>, lo: u64, hi: u64)
    requires TimesFrom(times, 0) && CountsFit(lim, None, times)
    requires lo <= hi && lim.maxAttempts >= 1
    ensures AdmittedIn(lim, None, times, lo, hi) <= Most(lim, hi - lo)
  {
    SlidingInPeriods(lim, None, times, 0, lo, hi);
    MostInPeriods(lim, lo, hi);
  }

  /** An interval no longer than a window that starts with the call opening one admits at
      most `maxAttempts`. */
  lemma AlignedBound(lim: Limits, entry: Option<Window>, times: seq<u64>, hi: u64)
    requires times != [] && TimesFrom(times, 0) && CountsFit(lim, entry, times) && lim.maxAttempts >= 1
    requires Admit(lim, entry, times[0]).0 == Window(1, times[0])
    requires times[0] <= hi <= times[0] + lim.rateWindow
    ensures AdmittedIn(lim, entry, times, times[0], hi) <= lim.maxAttempts
  {
    BoundFromWindow(lim, Window(1, times[0]), times[1..], times[0], times[0], hi);
  }

  // The bound is reached.

  /** A call in a window with room for it is admitted. */
  lemma OneMoreCall(lim: Limits, w: Window, time: u64, rest: seq<u64>, lo: u64, hi: u64)
    requires w.start <= time <= w.start + lim.rateWindow && w.count < lim.maxAttempts && lo <= time <= hi
    ensures
      var times, w' := [time] + rest, Window(w.count + 1, w.start);
      && (TimesFrom(rest, time) ==> TimesFrom(times, time))
      && (CountsFit(lim, Some(w'), rest) ==> CountsFit(lim, Some(w), times))
      && AdmittedIn(lim, Some(w), times, lo, hi) == 1 + AdmittedIn(lim, Some(w'), rest, lo, hi)
  {
    var times := [time] + rest;
    assert times[0] == time && times[1..] == rest;
  }

  /** `k` calls at one time before the rest. */
  function Repeat(time: u64, k: nat, rest: seq<u64>): (times: seq<u64>)
    ensures |times| == k + |rest|
  {
    if k == 0 then rest else [time] + Repeat(time, k - 1, rest)
  }

  /** Calls at one time, in a window with room for them, are all admitted. */
  lemma {:induction false} RepeatedCalls(lim: Limits, w: Window, time: u64, k: nat, rest: seq<u64>, lo: u64, hi: u64)
    requires w.start <= time <= w.start + lim.rateWindow && w.count + k <= lim.maxAttempts && lo <= time <= hi
    requires TimesFrom(rest, time)
    ensures
      var times, w' := Repeat(time, k, rest), Window(w.count + k, w.start);
      && TimesFrom(times, time)
      && (CountsFit(lim, Some(w'), rest) ==> CountsFit(lim, Some(w), times))
      && AdmittedIn(lim, Some(w), times, lo, hi) == k + AdmittedIn(lim, Some(w'), rest, lo, hi)
    decreases k
  {
    if k > 0 {
      RepeatedCalls(lim, Window(w.count + 1, w.start), time, k - 1, rest, lo, hi);
      OneMoreCall(lim, w, time, Repeat(time, k - 1, rest), lo, hi);
    }
  }

  /** A full window's calls at `time`, and again each time the window has passed, until `hi`. */
  function Bursts(lim: Limits, time: u64, hi: u64): seq<u64>
    requires time <= hi
    decreases hi - time
  {
    var next := time + lim.rateWindow + 1;
    Repeat(time, lim.maxAttempts, if next <= hi then Bursts(lim, next, hi) else [])
  }

  lemma {:induction false} BurstsAdmitted(lim: Limits, entry: Option<Window>, time: u64, hi: u64, lo: u64)
    requires lo <= time <= hi && lim.maxAttempts >= 1
    requires entry.Some? ==> entry.value.start + lim.rateWindow < time
    ensures
      var times := Bursts(lim, time, hi);
      && TimesFrom(times, time) && CountsFit(lim, entry, times)
      && AdmittedIn(lim, entry, times, lo, hi)
         == lim.maxAttempts * Periods(lim.rateWindow, time, hi) + lim.maxAttempts
    decreases hi - time
  {
    var next := time + lim.rateWindow + 1;
    if next <= hi {
      BurstsAdmitted(lim, Some(Window(lim.maxAttempts, time)), next, hi, lo);
      LaterTimes(Bursts(lim, next, hi), time, next);
      OneBurst(lim, entry, time, Bursts(lim, next, hi), lo, hi);
      Distribute(lim.maxAttempts, Periods(lim.rateWindow, next, hi));
    } else {
      OneBurst(lim, entry, time, [], lo, hi);
    }
  }

  /** As many calls as a window admits, opening one. */
  lemma OneBurst(lim: Limits, entry: Option<Window>, time: u64, rest: seq<u64>, lo: u64, hi: u64)
    requires lo <= time <= hi && lim.maxAttempts >= 1 && TimesFrom(rest, time)
    requires entry.Some? ==> entry.value.start + lim.rateWindow < time
    requires CountsFit(lim, Some(Window(lim.maxAttempts, time)), rest)
    ensures
      var times := Repeat(time, lim.maxAttempts, rest);
      && TimesFrom(times, time) && CountsFit(lim, entry, times)
      && AdmittedIn(lim, entry, times, lo, hi)
         == lim.maxAttempts + AdmittedIn(lim, Some(Window(lim.maxAttempts, time)), rest, lo, hi)
  {
    var times, more := Repeat(time, lim.maxAttempts, rest), Repeat(time, lim.maxAttempts - 1, rest);
    RepeatedCalls(lim, Window(1, time), time, lim.maxAttempts - 1, rest, lo, hi);
    assert times[0] == time && times[1..] == more;
  }

  lemma LaterTimes(times: seq<u64>, earlier: u64, later: int)
    requires earlier <= later && (times == [] || (later <= U64_MAX && TimesFrom(times, later)))
    ensures TimesFrom(times, earlier)
  {
  }

  /** Calls that reach the bound, in every interval that begins late enough for a whole
      window before it. */
  lemma BoundReached(lim: Limits, lo: u64, hi: u64) returns (times: seq<u64>)
    requires lim.rateWindow <= lo <= hi && lim.maxAttempts >= 1
    ensures TimesFrom(times, 0) && CountsFit(lim, None, times)
    ensures AdmittedIn(lim, None, times, lo, hi) == Most(lim, hi - lo)
  {
    MostInPeriods(lim, lo, hi);
    if (hi - lo) % (lim.rateWindow + 1) == 0 {
      times := Bursts(lim, lo, hi);
      BurstsAdmitted(lim, None, lo, hi, lo);
      LaterTimes(times, 0, lo);
    } else {
      var opening, rest := lo - lim.rateWindow, Bursts(lim, lo + 1, hi);
      BurstsAdmitted(lim, Some(Window(lim.maxAttempts, opening)), lo + 1, hi, lo);
      LaterTimes(rest, lo, lo + 1);
      RepeatedCalls(lim, Window(1, opening), lo, lim.maxAttempts - 1, rest, lo, hi);
      var tail := Repeat(lo, lim.maxAttempts - 1, rest);
      LaterTimes(tail, opening, lo);
      times := [opening] + tail;
      assert times[0] == opening && times[1..] == tail;
    }
  }

  /** Nine are reached: four at the end of one window, five at the start of the next. The
      documentation's five attempts in five minutes hold for the limiter's own windows only. */
  lemma NineInThreeHundredSeconds()
    ensures
      var times := [1000] + Repeat(1300, 4, [1301] + Repeat(1301, 4, []));
      && TimesFrom(times, 0)
      && CountsFit(SERVER_LIMITS, None, times)
      && AdmittedIn(SERVER_LIMITS, None, times, 1001, 1301) == 9
  {
    var four := Repeat(1301, 4, []);
    var next := [1301] + four;
    RepeatedCalls(SERVER_LIMITS, Window(1, 1301), 1301, 4, [], 1001, 1301);
    assert next[0] == 1301 && next[1..] == four;
    RepeatedCalls(SERVER_LIMITS, Window(1, 1000), 1300, 4, next, 1001, 1301);
    var times := [1000] + Repeat(1300, 4, next);
    assert times[0] == 1000 && times[1..] == Repeat(1300, 4, next);
  }

  // Exactly how many calls are admitted in an interval no longer than a window.

  /** How many calls there are from `lo` to `hi`. */
  function CallsIn(times: seq<u64>, lo: int, hi: int): nat {
    if times == [] then 0 else (if lo <= times[0] <= hi then 1 else 0) + CallsIn(times[1..], lo, hi)
  }

  function EarlierCalls(times: seq<u64>, lo: u64): (n: nat)
    ensures n <= |times|
  {
    if times == [] || times[0] >= lo then 0 else 1 + EarlierCalls(times[1..], lo)
  }

  /** The pair stored when the interval begins. */
  function StoredAt(lim: Limits, entry: Option<Window>, times: seq<u64>, lo: u64): Option<Window> {
    Stored(lim, entry, times[..EarlierCalls(times, lo)])
  }

  /** The admitted calls of the interval that fall into a window opened before it. */
  function FromOldWindow(lim: Limits, pair: Option<Window>, times: seq<u64>, lo: u64, hi: u64): nat {
    if pair.None? then 0
    else Min(Quota(lim, pair.value), CallsIn(times, lo, Min(hi, pair.value.start + lim.rateWindow)))
  }

  /** The calls of the interval that fall into no window opened before it. */
  function InNewWindow(lim: Limits, pair: Option<Window>, times: seq<u64>, lo: u64, hi: u64): nat {
    CallsIn(times, if pair.None? then lo else Max(lo, pair.value.start + lim.rateWindow + 1), hi)
  }

  lemma {:induction false} NoCallsEarlier(times: seq<u64>, start: u64, lo: int, hi: int)
    requires TimesFrom(times, start) && hi < start
    ensures CallsIn(times, lo, hi) == 0
    decreases |times|
  {
    if times != [] {
      NoCallsEarlier(times[1..], times[0], lo, hi);
    }
  }

  lemma {:induction false} SameCallsLater(times: seq<u64>, start: u64, lo1: int, lo2: int, hi: int)
    requires TimesFrom(times, start) && lo1 <= start && lo2 <= start
    ensures CallsIn(times, lo1, hi) == CallsIn(times, lo2, hi)
    decreases |times|
  {
    if times != [] {
      SameCallsLater(times[1..], times[0], lo1, lo2, hi);
    }
  }

  lemma {:induction false} ExactInOneWindow(lim: Limits, w: Window, times: seq<u64>, start: u64, lo: u64, hi: u64)
    requires TimesFrom(times, start) && w.start <= start && lo <= start && hi <= w.start + lim.rateWindow
    requires CountsFit(lim, Some(w), times) && lim.maxAttempts >= 1
    ensures AdmittedIn(lim, Some(w), times, lo, hi) == Min(Quota(lim, w), CallsIn(times, lo, hi))
    decreases |times|
  {
    if times != [] {
      var now, rest := times[0], times[1..];
      var w' := Admit(lim, Some(w), now).0;
      if now > hi {
        NoneAdmittedLater(lim, w', rest, now, lo, hi);
        NoCallsEarlier(rest, now, lo, hi);
      } else {
        ExactInOneWindow(lim, w', rest, now, lo, hi);
      }
    }
  }

  lemma {:induction false} ExactFromWindow(lim: Limits, w: Window, times: seq<u64>, start: u64, lo: u64, hi: u64)
    requires TimesFrom(times, start) && w.start < lo <= start && lo <= hi <= lo + lim.rateWindow
    requires CountsFit(lim, Some(w), times) && w.count >= 1 && lim.maxAttempts >= 1
    ensures AdmittedIn(lim, Some(w), times, lo, hi)
         == FromOldWindow(lim, Some(w), times, lo, hi) + Min(lim.maxAttempts, InNewWindow(lim, Some(w), times, lo, hi))
    decreases |times|
  {
    if times != [] {
      var now, rest, end := times[0], times[1..], w.start + lim.rateWindow;
      var w' := Admit(lim, Some(w), now).0;
      if now > hi {
        NoneAdmittedLater(lim, w', rest, now, lo, hi);
        NoCallsEarlier(rest, now, lo, Min(hi, end));
        NoCallsEarlier(rest, now, Max(lo, end + 1), hi);
      } else if now <= end {
        ExactFromWindow(lim, w', rest, now, lo, hi);
      } else {
        ExactInOneWindow(lim, w', rest, now, lo, hi);
        NoCallsEarlier(rest, now, lo, Min(hi, end));
        SameCallsLater(rest, now, lo, Max(lo, end + 1), hi);
      }
    }
  }

  /** Calls before the interval only matter through the stored pair. */
  lemma {:induction false} ExactFromEntry(
    lim: Limits, entry: Option<Window>, times: seq<u64>, start: u64, lo: u64, hi: u64)
    requires TimesFrom(times, start) && lo <= hi <= lo + lim.rateWindow
    requires CountsFit(lim, entry, times) && lim.maxAttempts >= 1
    requires entry.Some? ==> entry.value.start <= start && entry.value.start < lo && entry.value.count >= 1
    ensures
      var pair := StoredAt(lim, entry, times, lo);
      AdmittedIn(lim, entry, times, lo, hi)
      == FromOldWindow(lim, pair, times, lo, hi) + Min(lim.maxAttempts, InNewWindow(lim, pair, times, lo, hi))
    decreases |times|
  {
    if times == [] || times[0] >= lo {
      assert times[..0] == [];
      if entry.Some? {
        LaterStart(times, start, lo);
        ExactFromWindow(lim, entry.value, times, Max(start, lo), lo, hi);
      } else if times != [] {
        FirstWindowExact(lim, times, lo, hi);
      }
    } else {
      var w' := Admit(lim, entry, times[0]).0;
      var n := EarlierCalls(times, lo);
      assert times[..n][1..] == times[1..][..n - 1];
      ExactFromEntry(lim, Some(w'), times[1..], times[0], lo, hi);
    }
  }

  lemma LaterStart(times: seq<u64>, start: u64, lo: u64)
    requires TimesFrom(times, start) && (times == [] || times[0] >= lo)
    ensures TimesFrom(times, Max(start, lo))
  {
  }

  lemma FirstWindowExact(lim: Limits, times: seq<u64>, lo: u64, hi: u64)
    requires times != [] && TimesFrom(times, lo) && lo <= hi <= lo + lim.rateWindow
    requires CountsFit(lim, None, times) && lim.maxAttempts >= 1
    ensures AdmittedIn(lim, None, times, lo, hi) == Min(lim.maxAttempts, CallsIn(times, lo, hi))
  {
    var now, rest := times[0], times[1..];
    if now > hi {
      NoneAdmittedLater(lim, Window(1, now), rest, now, lo, hi);
      NoCallsEarlier(rest, now, lo, hi);
    } else {
      ExactInOneWindow(lim, Window(1, now), rest, now, lo, hi);
    }
  }

  /** In an interval no longer than a window, the limiter admits what the pair stored at
      its beginning still allows to the calls in the old window, and up to the maximum of
      the calls after that window; so it stays within the maximum exactly when no call is
      admitted in the old window, or those that are and all later calls are within it. */
  lemma WithinMaximumIff(lim: Limits, times: seq<u64>, lo: u64, hi: u64)
    requires TimesFrom(times, 0) && CountsFit(lim, None, times) && lim.maxAttempts >= 1
    requires lo <= hi <= lo + lim.rateWindow
    ensures
      var pair := StoredAt(lim, None, times, lo);
      var before, after := FromOldWindow(lim, pair, times, lo, hi), InNewWindow(lim, pair, times, lo, hi);
      && AdmittedIn(lim, None, times, lo, hi) == before + Min(lim.maxAttempts, after)
      && (AdmittedIn(lim, None, times, lo, hi) <= lim.maxAttempts <==> before == 0 || before + after <= lim.maxAttempts)
  {
    ExactFromEntry(lim, None, times, 0, lo, hi);
    var pair := StoredAt(lim, None, times, lo);
    assert FromOldWindow(lim, pair, times, lo, hi) <= lim.maxAttempts;
  }
}
