/** What the pruning verifier of src/challenge.rs keeps of a verifier that never forgets. */
module ReplayCache {
  import opened Machine
  import opened Primitives
  import opened Challenges

  /** Pruning twice is pruning at the later time: pruning on behalf of others is harmless. */
  lemma PruneAbsorbs(used: Used, skew: u64, earlier: u64, later: u64)
    requires earlier <= later
    ensures Prune(Prune(used, Horizon(skew, earlier)), Horizon(skew, later)) == Prune(used, Horizon(skew, later))
  {
  }

  /** For which issue times and skews every second of a challenge's validity finds its
      nonce still remembered. */
  ghost predicate NeverForgottenWhileValid(nonce: Nonce, issuedAt: u64, skew: u64) {
    forall now: u64 :: !Challenge(nonce, issuedAt).IsExpired(now) ==> issuedAt > Horizon(skew, now)
  }

  /** Exactly those with a positive skew and a positive issue time; without a skew only an
      issue time so late that the clock cannot reach the end of its validity will do. */
  lemma NeverForgottenWhileValidIff(nonce: Nonce, issuedAt: u64, skew: u64)
    ensures NeverForgottenWhileValid(nonce, issuedAt, skew)
       <==> issuedAt >= 1 && (skew >= 1 || issuedAt + CHALLENGE_VALIDITY_SECS > U64_MAX)
  {
    var c := Challenge(nonce, issuedAt);
    if issuedAt == 0 {
      assert !c.IsExpired(0) && issuedAt <= Horizon(skew, 0);
    } else if skew == 0 && issuedAt + CHALLENGE_VALIDITY_SECS <= U64_MAX {
      var now: u64 := issuedAt + CHALLENGE_VALIDITY_SECS;
      assert !c.IsExpired(now) && issuedAt <= Horizon(skew, now);
    }
  }

  // Runs: calls and explicit prunings in any order.

  datatype Action = Verify(call: Call) | Clear(now: u64) {
    function Time(): u64 {
      if Verify? then call.now else now
    }
  }

  datatype Outcome = Cleared | Verdict(result: Result<(), ChallengeError>)

  /** A clock that starts no earlier than `start` and never goes back. */
  ghost predicate ClockFrom(actions: seq<Action>, start: u64) {
    actions == [] || (start <= actions[0].Time() && ClockFrom(actions[1..], actions[0].Time()))
  }

  function PruningStep(lib: Library, skew: u64, used: Used, a: Action): (Used, Outcome) {
    match a
    case Verify(call) => var (used', r) := VerifyStep(lib, skew, used, call); (used', Verdict(r))
    case Clear(now) => (Prune(used, Horizon(skew, now)), Cleared)
  }

  ghost function PruningOutcomes(lib: Library, skew: u64, used: Used, actions: seq<Action>): seq<Outcome>
    decreases |actions|
  {
    if actions == [] then []
    else var (used', o) := PruningStep(lib, skew, used, actions[0]);
      [o] + PruningOutcomes(lib, skew, used', actions[1..])
  }

  /** The reference verifier: it remembers every accepted nonce, with its issue time. */
  function LedgerStep(lib: Library, skew: u64, ledger: Used, a: Action): (Used, Outcome) {
    match a
    case Verify(call) =>
      var verdict := Check(lib, skew, ledger.Keys, call);
      (if verdict.Ok? then ledger[call.response.nonce := call.challenge.issuedAt] else ledger, Verdict(verdict))
    case Clear(_) => (ledger, Cleared)
  }

  ghost function LedgerOutcomes(lib: Library, skew: u64, ledger: Used, actions: seq<Action>): seq<Outcome>
    decreases |actions|
  {
    if actions == [] then []
    else var (ledger', o) := LedgerStep(lib, skew, ledger, actions[0]);
      [o] + LedgerOutcomes(lib, skew, ledger', actions[1..])
  }

  /** A nonce that was accepted before comes back with a challenge that is still valid,
      when the time it was accepted for is already behind the horizon. */
  predicate ForgetsAt(skew: u64, ledger: Used, a: Action) {
    && a.Verify?
    && a.call.response.nonce in ledger
    && ledger[a.call.response.nonce] <= Horizon(skew, a.call.now)
    && !a.call.challenge.IsExpired(a.call.now)
  }

  ghost predicate Forgets(lib: Library, skew: u64, ledger: Used, actions: seq<Action>)
    decreases |actions|
  {
    actions != [] &&
    (ForgetsAt(skew, ledger, actions[0])
     || Forgets(lib, skew, LedgerStep(lib, skew, ledger, actions[0]).0, actions[1..]))
  }

  /** Cache and ledger hold the same entries beyond the horizon. */
  ghost predicate Caches(used: Used, ledger: Used, skew: u64, now: u64) {
    Prune(used, Horizon(skew, now)) == Prune(ledger, Horizon(skew, now))
  }

  lemma CachesLater(used: Used, ledger: Used, skew: u64, earlier: u64, later: u64)
    requires Caches(used, ledger, skew, earlier) && earlier <= later
    ensures Caches(used, ledger, skew, later)
  {
    PruneAbsorbs(used, skew, earlier, later);
    PruneAbsorbs(ledger, skew, earlier, later);
  }

  lemma PruneUpdate(m1: Used, m2: Used, horizon: u64, nonce: Nonce, issuedAt: u64)
    requires m1 == Prune(m2, horizon)
    ensures Prune(m1, horizon) == Prune(m2, horizon)
    ensures Prune(m1[nonce := issuedAt], horizon) == Prune(m2[nonce := issuedAt], horizon)
  {
  }

  /** One step: the verdicts agree unless the step forgets, and then they differ. */
  lemma StepAgreesIff(lib: Library, skew: u64, used: Used, ledger: Used, a: Action, before: u64)
    requires Caches(used, ledger, skew, before) && before <= a.Time()
    ensures PruningStep(lib, skew, used, a).1 == LedgerStep(lib, skew, ledger, a).1 <==> !ForgetsAt(skew, ledger, a)
    ensures !ForgetsAt(skew, ledger, a) ==>
      Caches(PruningStep(lib, skew, used, a).0, LedgerStep(lib, skew, ledger, a).0, skew, a.Time())
  {
    CachesLater(used, ledger, skew, before, a.Time());
    var kept := Prune(used, Horizon(skew, a.Time()));
    if a.Verify? {
      PruneUpdate(kept, ledger, Horizon(skew, a.Time()), a.call.response.nonce, a.call.challenge.issuedAt);
      assert a.call.response.nonce in kept <==>
        a.call.response.nonce in ledger && ledger[a.call.response.nonce] > Horizon(skew, a.call.now);
    } else {
      PruneAbsorbs(used, skew, a.Time(), a.Time());
    }
  }

  /** Over any run on a clock that does not go back, the pruning verifier gives the same
      answers, error kinds included, as the one that never forgets, exactly when the run
      never presents a forgotten nonce with a challenge that is still valid. */
  lemma {:induction false} AgreesIffNothingForgotten(
    lib: Library, skew: u64, used: Used, ledger: Used, actions: seq<Action>, start: u64)
    requires Caches(used, ledger, skew, start) && ClockFrom(actions, start)
    ensures PruningOutcomes(lib, skew, used, actions) == LedgerOutcomes(lib, skew, ledger, actions)
       <==> !Forgets(lib, skew, ledger, actions)
    decreases |actions|
  {
    if actions != [] {
      var a, rest := actions[0], actions[1..];
      var (used', o1) := PruningStep(lib, skew, used, a);
      var (ledger', o2) := LedgerStep(lib, skew, ledger, a);
      StepAgreesIff(lib, skew, used, ledger, a, start);
      var tail1, tail2 := PruningOutcomes(lib, skew, used', rest), LedgerOutcomes(lib, skew, ledger', rest);
      assert ([o1] + tail1)[0] == o1 && ([o2] + tail2)[0] == o2;
      assert ([o1] + tail1)[1..] == tail1 && ([o2] + tail2)[1..] == tail2;
      if o1 == o2 {
        AgreesIffNothingForgotten(lib, skew, used', ledger', rest, a.Time());
      }
    }
  }

  /** Each response nonce goes with one issue time. */
  ghost predicate Paired(ledger: Used, actions: seq<Action>) {
    && (forall i :: 0 <= i < |actions| && actions[i].Verify? && actions[i].call.response.nonce in ledger ==>
          ledger[actions[i].call.response.nonce] == actions[i].call.challenge.issuedAt)
    && (forall i, j :: 0 <= i < j < |actions| && actions[i].Verify? && actions[j].Verify? ==>
          (actions[i].call.response.nonce == actions[j].call.response.nonce ==>
          actions[i].call.challenge.issuedAt == actions[j].call.challenge.issuedAt))
  }

  ghost predicate IssuedAfterZero(actions: seq<Action>) {
    forall i :: 0 <= i < |actions| && actions[i].Verify? ==> actions[i].call.challenge.issuedAt >= 1
  }

  lemma {:induction false} PairedForgetsNothing(lib: Library, skew: u64, ledger: Used, actions: seq<Action>)
    requires skew >= 1 && IssuedAfterZero(actions) && Paired(ledger, actions)
    ensures !Forgets(lib, skew, ledger, actions)
    decreases |actions|
  {
    if actions != [] {
      var a, rest := actions[0], actions[1..];
      assert actions[0].Verify? ==> actions[0].call.challenge.issuedAt >= 1;
      assert !ForgetsAt(skew, ledger, a);
      assert forall i :: 0 <= i < |rest| ==> rest[i] == actions[i + 1];
      PairedForgetsNothing(lib, skew, LedgerStep(lib, skew, ledger, a).0, rest);
    }
  }

  /** The pruning verifier refines the one that never forgets. */
  lemma PruningRefinesLedger(lib: Library, skew: u64, actions: seq<Action>)
    requires ClockFrom(actions, 0)
    requires skew >= 1 && IssuedAfterZero(actions) && Paired(map[], actions)
    ensures PruningOutcomes(lib, skew, map[], actions) == LedgerOutcomes(lib, skew, map[], actions)
  {
    PairedForgetsNothing(lib, skew, map[], actions);
    AgreesIffNothingForgotten(lib, skew, map[], map[], actions, 0);
  }

  // The two side conditions are needed: one accepted answer is accepted again.

  predicate AcceptedTwice(lib: Library, skew: u64, first: Call, second: Call) {
    var (used, verdict) := VerifyStep(lib, skew, map[], first);
    verdict == Ok(()) && VerifyStep(lib, skew, used, second).1 == Ok(())
  }

  lemma ZeroSkewForgetsTooSoon(lib: Library, pk: Bytes, c: Challenge, sig: Bytes)
    requires c.issuedAt == 1000
    ensures lib.verifySignature(pk, c.SigningPayload(1300), sig) == Ok(()) ==>
      AcceptedTwice(lib, 0, Call(c, Response(c.nonce, 1300, sig), pk, 1300),
                            Call(c, Response(c.nonce, 1300, sig), pk, 1300))
  {
  }

  lemma ZeroIssueTimeForgetsTooSoon(lib: Library, pk: Bytes, c: Challenge, sig: Bytes)
    requires c.issuedAt == 0
    ensures lib.verifySignature(pk, c.SigningPayload(5), sig) == Ok(()) ==>
      AcceptedTwice(lib, 60, Call(c, Response(c.nonce, 5, sig), pk, 5),
                             Call(c, Response(c.nonce, 5, sig), pk, 5))
  {
  }

  // How far apart two acceptances of one nonce must be.

  /** The trace an acceptance for `issuedAt` leaves: the nonce is in the cache for at least
      that time, or the horizon has passed it. */
  ghost predicate Remembers(used: Used, skew: u64, nonce: Nonce, issuedAt: u64, now: u64) {
    (nonce in used && used[nonce] >= issuedAt) || issuedAt <= Horizon(skew, now)
  }

  lemma StepRemembers(lib: Library, skew: u64, used: Used, call: Call, nonce: Nonce, issuedAt: u64, before: u64)
    requires Remembers(used, skew, nonce, issuedAt, before) && before <= call.now
    ensures Remembers(VerifyStep(lib, skew, used, call).0, skew, nonce, issuedAt, call.now)
  {
  }

  /** Whoever is accepted under a remembered nonce is accepted late, for a later challenge. */
  lemma AcceptanceSeparated(lib: Library, skew: u64, used: Used, call: Call, issuedAt: u64, before: u64)
    requires Remembers(used, skew, call.response.nonce, issuedAt, before) && before <= call.now
    requires issuedAt >= 1
    requires VerifyStep(lib, skew, used, call).1 == Ok(())
    ensures call.now >= issuedAt + CHALLENGE_VALIDITY_SECS + skew
    ensures call.challenge.issuedAt >= issuedAt + skew
  {
  }

  ghost function CacheAfter(lib: Library, skew: u64, used: Used, actions: seq<Action>): Used
    decreases |actions|
  {
    if actions == [] then used
    else CacheAfter(lib, skew, PruningStep(lib, skew, used, actions[0]).0, actions[1..])
  }

  lemma {:induction false} RememberedSeparates(
    lib: Library, skew: u64, used: Used, actions: seq<Action>, last: Call, issuedAt: u64, before: u64)
    requires Remembers(used, skew, last.response.nonce, issuedAt, before)
    requires issuedAt >= 1 && ClockFrom(actions + [Verify(last)], before)
    requires VerifyStep(lib, skew, CacheAfter(lib, skew, used, actions), last).1 == Ok(())
    ensures last.now >= issuedAt + CHALLENGE_VALIDITY_SECS + skew
    ensures last.challenge.issuedAt >= issuedAt + skew
    decreases |actions|
  {
    var all := actions + [Verify(last)];
    if actions == [] {
      assert all[0] == Verify(last);
      AcceptanceSeparated(lib, skew, used, last, issuedAt, before);
    } else {
      var a := actions[0];
      assert all[0] == a && all[1..] == actions[1..] + [Verify(last)];
      if a.Verify? {
        StepRemembers(lib, skew, used, a.call, last.response.nonce, issuedAt, before);
      }
      RememberedSeparates(lib, skew, PruningStep(lib, skew, used, a).0, actions[1..], last, issuedAt, a.Time());
    }
  }

  /** If one nonce is accepted, then after any actions accepted again, the second
      acceptance is at least the validity plus the skew after the first challenge was
      issued, and its challenge was issued at least the skew later. */
  lemma AcceptancesSeparated(lib: Library, skew: u64, used: Used, first: Call, actions: seq<Action>, last: Call)
    requires first.challenge.issuedAt >= 1 && last.response.nonce == first.response.nonce
    requires ClockFrom(actions + [Verify(last)], first.now)
    ensures
      var (used', verdict) := VerifyStep(lib, skew, used, first);
      verdict == Ok(()) && VerifyStep(lib, skew, CacheAfter(lib, skew, used', actions), last).1 == Ok(()) ==>
        && last.now >= first.challenge.issuedAt + CHALLENGE_VALIDITY_SECS + skew
        && last.challenge.issuedAt >= first.challenge.issuedAt + skew
  {
    var (used', verdict) := VerifyStep(lib, skew, used, first);
    if verdict == Ok(()) && VerifyStep(lib, skew, CacheAfter(lib, skew, used', actions), last).1 == Ok(()) {
      RememberedSeparates(lib, skew, used', actions, last, first.challenge.issuedAt, first.now);
    }
  }

  /** Both distances are reached: accepted for a challenge of time 1000, and again at 1360
      for one of time 1060. */
  lemma SeparationIsTight(lib: Library, pk: Bytes, c1: Challenge, sig1: Bytes, c2: Challenge, sig2: Bytes, nonce: Nonce)
    requires c1.issuedAt == 1000 && c2.issuedAt == 1060
    ensures
      && lib.verifySignature(pk, c1.SigningPayload(1000), sig1) == Ok(())
      && lib.verifySignature(pk, c2.SigningPayload(1360), sig2) == Ok(()) ==>
      AcceptedTwice(lib, 60, Call(c1, Response(nonce, 1000, sig1), pk, 1000),
                             Call(c2, Response(nonce, 1360, sig2), pk, 1360))
  {
  }

  /** In particular, with a positive skew, a challenge is accepted at most once under one
      response nonce. */
  lemma AcceptedAtMostOnce(lib: Library, skew: u64, used: Used, first: Call, actions: seq<Action>, second: Call)
    requires skew >= 1 && first.challenge.issuedAt >= 1
    requires ClockFrom(actions + [Verify(second)], first.now)
    requires second.challenge == first.challenge && second.response.nonce == first.response.nonce
    ensures
      var (used', verdict) := VerifyStep(lib, skew, used, first);
      verdict == Ok(()) ==> VerifyStep(lib, skew, CacheAfter(lib, skew, used', actions), second).1 != Ok(())
  {
    AcceptancesSeparated(lib, skew, used, first, actions, second);
  }

  /** An accepted call stands in the way of a later one for the same challenge exactly when
      both carry one response nonce and the challenge is newer than the horizon: what is
      remembered is the response's nonce, which the code never compares with the
      challenge's. */
  lemma ChallengeAcceptedAgainIff(lib: Library, skew: u64, used: Used, first: Call, second: Call)
    requires VerifyStep(lib, skew, used, first).1 == Ok(())
    requires second.challenge == first.challenge && first.now <= second.now
    ensures VerifyStep(lib, skew, VerifyStep(lib, skew, used, first).0, second).1 == Ok(()) <==>
      && VerifyStep(lib, skew, used, second).1 == Ok(())
      && (second.response.nonce == first.response.nonce ==> first.challenge.issuedAt <= Horizon(skew, second.now))
  {
    var used' := VerifyStep(lib, skew, used, first).0;
    var n1, n2, h := first.response.nonce, second.response.nonce, Horizon(skew, second.now);
    assert n2 in Prune(used', h) <==> if n2 == n1 then first.challenge.issuedAt > h else n2 in Prune(used, h);
  }

  /** So one signature for one challenge is accepted under as many response nonces as are
      not in the cache. */
  lemma AcceptedUnderSecondNonceIff(lib: Library, skew: u64, first: Call, nonce: Nonce)
    requires skew >= 1 && first.challenge.issuedAt >= 1
    ensures AcceptedTwice(lib, skew, first, first.(response := first.response.(nonce := nonce)))
       <==> VerifyStep(lib, skew, map[], first).1 == Ok(()) && nonce != first.response.nonce
  {
    if VerifyStep(lib, skew, map[], first).1 == Ok(()) {
      ChallengeAcceptedAgainIff(lib, skew, map[], first, first.(response := first.response.(nonce := nonce)));
    }
  }

  /** An entry someone else put in changes a call's verdict exactly when it carries the
      call's own nonce, the call's challenge is still valid, and the entry changes whether
      that nonce is remembered at the time of the call. */
  lemma ForeignEntryMattersIff(lib: Library, skew: u64, used: Used, nonce: Nonce, issuedAt: u64, call: Call)
    ensures VerifyStep(lib, skew, used[nonce := issuedAt], call).1 != VerifyStep(lib, skew, used, call).1
       <==> call.response.nonce == nonce && !call.challenge.IsExpired(call.now)
            && ((issuedAt > Horizon(skew, call.now)) != (nonce in used && used[nonce] > Horizon(skew, call.now)))
  {
  }
}
