/** src/recovery.rs: single-use recovery codes, kept as hashes with used flags. */
module Recovery {
  import opened Machine
  import opened Primitives
  import ShakeMac
  import CodeText

  datatype HashedRecoveryCode = HashedRecoveryCode(hash: Bytes, used: bool)

  /** The hex text stored for a code. */
  function HashCode(lib: Library, upper: CodeText.Uppercase, code: string): Bytes {
    lib.hexEncode(ShakeMac.Mac(lib.shake, CodeText.DOMAIN, CodeText.HashInput(upper, code), 32))
  }

  /** Codes equal up to dashes and letter case have one hash. */
  lemma AlikeHashes(lib: Library, upper: CodeText.Uppercase, code1: string, code2: string)
    requires IsAscii(code1) && IsAscii(code2) && CodeText.Alike(code1, code2)
    ensures HashCode(lib, upper, code1) == HashCode(lib, upper, code2)
  {
    CodeText.HashedAlikeIff(upper, code1, code2);
  }

  /** The hash stored for a generated code, from its letters. */
  lemma GeneratedCodeHash(lib: Library, upper: CodeText.Uppercase, letters: string)
    requires CodeText.Drawn(letters)
    ensures IsAscii(letters)
    ensures HashCode(lib, upper, CodeText.Regroup(letters))
         == lib.hexEncode(lib.shake(CodeText.DOMAIN + AsciiBytes(letters) + CodeText.DOMAIN, 32))
  {
    CodeText.GeneratedRoundTrip(upper, letters);
  }

  /** With this hash function, the stored hash of a code belongs to the codes equal to it up
      to dashes and letter case, and to no others. */
  ghost predicate Separates(lib: Library, upper: CodeText.Uppercase, code: string) {
    forall other :: IsAscii(other) ==>
      (HashCode(lib, upper, other) == HashCode(lib, upper, code) <==> CodeText.Alike(other, code))
  }

  lemma CodesSeparated(lib: Library, upper: CodeText.Uppercase, code: string) returns (shake: Xof)
    requires lib.HexLaw() && IsAscii(code)
    ensures Separates(lib.(shake := shake), upper, code)
  {
    var input := CodeText.HashInput(upper, code);
    shake := TellApart(ShakeMac.Envelope(CodeText.DOMAIN, input));
    var lib' := lib.(shake := shake);
    forall other | IsAscii(other)
      ensures HashCode(lib', upper, other) == HashCode(lib', upper, code) <==> CodeText.Alike(other, code)
    {
      CodeText.HashedAlikeIff(upper, other, code);
      OtherHash(lib', input, CodeText.HashInput(upper, other));
    }
  }

  lemma OtherHash(lib: Library, input: Bytes, other: Bytes)
    requires lib.HexLaw() && lib.shake == TellApart(ShakeMac.Envelope(CodeText.DOMAIN, input))
    ensures
      var mac1, mac2 := ShakeMac.Mac(lib.shake, CodeText.DOMAIN, input, 32), ShakeMac.Mac(lib.shake, CodeText.DOMAIN, other, 32);
      lib.hexEncode(mac2) == lib.hexEncode(mac1) <==> other == input
  {
    var mac1, mac2 := ShakeMac.Mac(lib.shake, CodeText.DOMAIN, input, 32), ShakeMac.Mac(lib.shake, CodeText.DOMAIN, other, 32);
    assert lib.hexDecode(lib.hexEncode(mac1)) == Some(mac1) && lib.hexDecode(lib.hexEncode(mac2)) == Some(mac2);
    if other != input {
      if ShakeMac.Envelope(CodeText.DOMAIN, other) == ShakeMac.Envelope(CodeText.DOMAIN, input) {
        ShakeMac.EnvelopeInjectiveIff(CodeText.DOMAIN, other, CodeText.DOMAIN, input);
      }
      assert mac1[3] == 0 && mac2[3] == 1;
    }
  }

  predicate Matches(h: HashedRecoveryCode, hash: Bytes) {
    !h.used && h.hash == hash
  }

  /** The hashes that can still be redeemed. */
  ghost function Unused(codes: seq<HashedRecoveryCode>): multiset<Bytes> {
    if codes == [] then multiset{}
    else (if codes[0].used then multiset{} else multiset{codes[0].hash}) + Unused(codes[1..])
  }

  /** One attempt: the first unused slot with this hash becomes used. */
  ghost function Use(codes: seq<HashedRecoveryCode>, hash: Bytes): (seq<HashedRecoveryCode>, bool) {
    if codes == [] then (codes, false)
    else if Matches(codes[0], hash) then ([codes[0].(used := true)] + codes[1..], true)
    else var (rest, ok) := Use(codes[1..], hash); ([codes[0]] + rest, ok)
  }

  /** An attempt succeeds exactly when the hash is unused somewhere, and takes it out once. */
  lemma {:induction false} UseIsRemoveOne(codes: seq<HashedRecoveryCode>, hash: Bytes)
    ensures var (codes', ok) := Use(codes, hash);
      && (ok <==> hash in Unused(codes))
      && Unused(codes') == Unused(codes) - multiset{hash}
  {
    if codes != [] {
      var (codes', ok) := Use(codes, hash);
      if Matches(codes[0], hash) {
        assert codes'[1..] == codes[1..];
      } else {
        UseIsRemoveOne(codes[1..], hash);
        assert codes'[0] == codes[0] && codes'[1..] == Use(codes[1..], hash).0;
      }
    }
  }

  /** Flags only go from unused to used, one at a time, and hashes never change. */
  lemma {:induction false} UseChangesOneFlag(codes: seq<HashedRecoveryCode>, hash: Bytes)
    ensures var (codes', ok) := Use(codes, hash);
      && |codes'| == |codes|
      && (!ok ==> codes' == codes)
      && (ok ==> exists i :: 0 <= i < |codes| && Matches(codes[i], hash)
                          && (forall j :: 0 <= j < i ==> !Matches(codes[j], hash))
                          && codes' == codes[i := codes[i].(used := true)])
  {
    if codes != [] && !Matches(codes[0], hash) {
      UseChangesOneFlag(codes[1..], hash);
      var (rest, ok) := Use(codes[1..], hash);
      if ok {
        var i :| 0 <= i < |rest| && Matches(codes[1..][i], hash)
              && (forall j :: 0 <= j < i ==> !Matches(codes[1..][j], hash))
              && rest == codes[1..][i := codes[1..][i].(used := true)];
        assert codes[i + 1] == codes[1..][i];
        assert forall j :: 1 <= j <= i ==> codes[j] == codes[1..][j - 1];
        assert Use(codes, hash).0 == codes[i + 1 := codes[i + 1].(used := true)];
      }
    }
  }

  /** The method's index search and the recursive attempt pick the same slot. */
  lemma {:induction false} FirstMatchIsUse(codes: seq<HashedRecoveryCode>, hash: Bytes, i: nat)
    requires i < |codes| && Matches(codes[i], hash)
    requires forall j :: 0 <= j < i ==> !Matches(codes[j], hash)
    ensures Use(codes, hash) == (codes[i := codes[i].(used := true)], true)
  {
    if i > 0 {
      assert !Matches(codes[0], hash);
      assert forall j :: 0 <= j < i - 1 ==> codes[1..][j] == codes[j + 1];
      FirstMatchIsUse(codes[1..], hash, i - 1);
      assert [codes[0]] + codes[1..][i - 1 := codes[i].(used := true)] == codes[i := codes[i].(used := true)];
    } else {
      assert [codes[0].(used := true)] + codes[1..] == codes[0 := codes[0].(used := true)];
    }
  }

  lemma {:induction false} NoMatchIsUse(codes: seq<HashedRecoveryCode>, hash: Bytes)
    requires forall j :: 0 <= j < |codes| ==> !Matches(codes[j], hash)
    ensures Use(codes, hash) == (codes, false)
  {
    if codes != [] {
      assert !Matches(codes[0], hash);
      assert forall j :: 0 <= j < |codes| - 1 ==> codes[1..][j] == codes[j + 1];
      NoMatchIsUse(codes[1..], hash);
      assert [codes[0]] + codes[1..] == codes;
    }
  }

  method VerifyCode(lib: Library, upper: CodeText.Uppercase, code: string, stored: seq<HashedRecoveryCode>)
    returns (found: Option<nat>)
    ensures found.Some? ==>
      && found.value < |stored|
      && Matches(stored[found.value], HashCode(lib, upper, code))
      && forall j :: 0 <= j < found.value ==> !Matches(stored[j], HashCode(lib, upper, code))
    ensures found.None? ==> forall j :: 0 <= j < |stored| ==> !Matches(stored[j], HashCode(lib, upper, code))
    ensures forall j, text ::
      0 <= j < |stored| && Matches(stored[j], HashCode(lib, upper, text)) ==>
      IsAscii(text) && IsAscii(code) && CodeText.Alike(text, code) ==> found.Some? && found.value <= j
  {
    forall text | IsAscii(text) && IsAscii(code) && CodeText.Alike(text, code)
      ensures HashCode(lib, upper, text) == HashCode(lib, upper, code)
    {
      AlikeHashes(lib, upper, text, code);
    }
    var candidate := HashCode(lib, upper, code);
    for i := 0 to |stored|
      invariant forall j :: 0 <= j < i ==> !Matches(stored[j], candidate)
    {
      if !stored[i].used {
        var same := ShakeMac.VerifyMac(stored[i].hash, candidate);
        if same {
          return Some(i);
        }
      }
    }
    return None;
  }

  /** The slots of a new set. */
  function NewSlots(lib: Library, upper: CodeText.Uppercase, plain: seq<string>): seq<HashedRecoveryCode> {
    seq(|plain|, i requires 0 <= i < |plain| => HashedRecoveryCode(HashCode(lib, upper, plain[i]), false))
  }

  class RecoveryCodeSet {
    var codes: seq<HashedRecoveryCode>
    var remaining: u64

    /** The cached counter is the number of unused slots. */
    ghost predicate Counted()
      reads this
    {
      remaining == |Unused(codes)|
    }

    constructor FromCodes(lib: Library, upper: CodeText.Uppercase, plain: seq<string>)
      requires |plain| <= U64_MAX
      ensures codes == NewSlots(lib, upper, plain)
      ensures Counted() && remaining == |plain|
    {
      codes := seq(|plain|, i requires 0 <= i < |plain| => HashedRecoveryCode(HashCode(lib, upper, plain[i]), false));
      remaining := |plain|;
      new;
      FreshCodesUnused(codes);
    }

    /** The decrement is a machine operation; when the counter was right it does not wrap. */
    method UseCode(lib: Library, upper: CodeText.Uppercase, code: string) returns (ok: bool)
      modifies this
      ensures (codes, ok) == Use(old(codes), HashCode(lib, upper, code))
      ensures remaining == if ok then WrappingSub(old(remaining), 1) else old(remaining)
      ensures old(Counted()) ==> Counted() && (ok ==> remaining == old(remaining) - 1)
    {
      UseIsRemoveOne(codes, HashCode(lib, upper, code));
      var found := VerifyCode(lib, upper, code, codes);
      if found.Some? {
        FirstMatchIsUse(codes, HashCode(lib, upper, code), found.value);
        codes := codes[found.value := codes[found.value].(used := true)];
        remaining := WrappingSub(remaining, 1);
        return true;
      } else {
        NoMatchIsUse(codes, HashCode(lib, upper, code));
        return false;
      }
    }
  }

  ghost function Hashes(codes: seq<HashedRecoveryCode>): seq<Bytes> {
    if codes == [] then [] else [codes[0].hash] + Hashes(codes[1..])
  }

  lemma {:induction false} FreshCodesUnused(codes: seq<HashedRecoveryCode>)
    requires forall i :: 0 <= i < |codes| ==> !codes[i].used
    ensures Unused(codes) == multiset(Hashes(codes)) && |Unused(codes)| == |codes|
  {
    if codes != [] {
      FreshCodesUnused(codes[1..]);
      assert !codes[0].used;
      assert Hashes(codes)[0] == codes[0].hash && Hashes(codes)[1..] == Hashes(codes[1..]);
      MultisetOfHead(Hashes(codes));
    }
  }

  // Whole runs of attempts.

  ghost function UseAll(codes: seq<HashedRecoveryCode>, hashes: seq<Bytes>): seq<HashedRecoveryCode>
    decreases |hashes|
  {
    if hashes == [] then codes else UseAll(Use(codes, hashes[0]).0, hashes[1..])
  }

  /** How many of the attempts made with `hash` return true. */
  ghost function Redeemed(codes: seq<HashedRecoveryCode>, hashes: seq<Bytes>, hash: Bytes): nat
    decreases |hashes|
  {
    if hashes == [] then 0
    else var (codes', ok) := Use(codes, hashes[0]);
      (if ok && hashes[0] == hash then 1 else 0) + Redeemed(codes', hashes[1..], hash)
  }

  ghost function RedeemedInAll(codes: seq<HashedRecoveryCode>, hashes: seq<Bytes>): nat
    decreases |hashes|
  {
    if hashes == [] then 0
    else var (codes', ok) := Use(codes, hashes[0]);
      (if ok then 1 else 0) + RedeemedInAll(codes', hashes[1..])
  }

  lemma IntersectHead(m: multiset<Bytes>, head: Bytes, rest: multiset<Bytes>)
    ensures |m * (multiset{head} + rest)| == (if head in m then 1 else 0) + |(m - multiset{head}) * rest|
    ensures m - multiset{head} - rest == m - (multiset{head} + rest)
  {
    if head in m {
      assert m * (multiset{head} + rest) == multiset{head} + (m - multiset{head}) * rest;
    } else {
      assert m * (multiset{head} + rest) == (m - multiset{head}) * rest;
    }
  }

  lemma MultisetOfHead<T>(s: seq<T>)
    requires s != []
    ensures multiset(s) == multiset{s[0]} + multiset(s[1..])
  {
    assert s == [s[0]] + s[1..];
  }

  /** A hash stored in m unused slots is accepted exactly min(k, m) times in k attempts,
      whatever else is attempted in between. */
  lemma {:induction false} RedeemedPerHash(codes: seq<HashedRecoveryCode>, hashes: seq<Bytes>, hash: Bytes)
    ensures Redeemed(codes, hashes, hash) == Min(multiset(hashes)[hash], Unused(codes)[hash])
    decreases |hashes|
  {
    if hashes != [] {
      var (codes', ok) := Use(codes, hashes[0]);
      UseIsRemoveOne(codes, hashes[0]);
      RedeemedPerHash(codes', hashes[1..], hash);
      MultisetOfHead(hashes);
    }
  }

  /** Order-independent accounting: the successes of a run are the common part of what was
      unused and what was attempted, and what stays unused is the difference. */
  lemma {:induction false} RunAccounting(codes: seq<HashedRecoveryCode>, hashes: seq<Bytes>)
    ensures RedeemedInAll(codes, hashes) == |Unused(codes) * multiset(hashes)|
    ensures Unused(UseAll(codes, hashes)) == Unused(codes) - multiset(hashes)
    decreases |hashes|
  {
    if hashes != [] {
      var (codes', ok) := Use(codes, hashes[0]);
      UseIsRemoveOne(codes, hashes[0]);
      RunAccounting(codes', hashes[1..]);
      MultisetOfHead(hashes);
      IntersectHead(Unused(codes), hashes[0], multiset(hashes[1..]));
    }
  }

  /** Neither the order of the slots nor the order of the attempts matters. */
  lemma OrderIrrelevant(codes1: seq<HashedRecoveryCode>, hashes1: seq<Bytes>,
                        codes2: seq<HashedRecoveryCode>, hashes2: seq<Bytes>)
    requires multiset(codes1) == multiset(codes2) && multiset(hashes1) == multiset(hashes2)
    ensures RedeemedInAll(codes1, hashes1) == RedeemedInAll(codes2, hashes2)
    ensures Unused(UseAll(codes1, hashes1)) == Unused(UseAll(codes2, hashes2))
  {
    RunAccounting(codes1, hashes1);
    RunAccounting(codes2, hashes2);
    UnusedIgnoresOrder(codes1, codes2);
  }

  lemma {:induction false} UnusedCount(codes: seq<HashedRecoveryCode>, hash: Bytes)
    ensures Unused(codes)[hash] == multiset(codes)[HashedRecoveryCode(hash, false)]
  {
    if codes != [] {
      UnusedCount(codes[1..], hash);
      MultisetOfHead(codes);
    }
  }

  lemma UnusedIgnoresOrder(codes1: seq<HashedRecoveryCode>, codes2: seq<HashedRecoveryCode>)
    requires multiset(codes1) == multiset(codes2)
    ensures Unused(codes1) == Unused(codes2)
  {
    forall hash ensures Unused(codes1)[hash] == Unused(codes2)[hash] {
      UnusedCount(codes1, hash);
      UnusedCount(codes2, hash);
    }
  }

  /** The flags after a run only ever went up, and the counter's invariant carries over. */
  lemma {:induction false} RunKeepsSlots(codes: seq<HashedRecoveryCode>, hashes: seq<Bytes>)
    ensures |UseAll(codes, hashes)| == |codes|
    ensures forall i :: 0 <= i < |codes| ==>
      && UseAll(codes, hashes)[i].hash == codes[i].hash
      && (codes[i].used ==> UseAll(codes, hashes)[i].used)
    ensures |Unused(UseAll(codes, hashes))| == |Unused(codes)| - RedeemedInAll(codes, hashes)
    decreases |hashes|
  {
    if hashes != [] {
      UseChangesOneFlag(codes, hashes[0]);
      UseIsRemoveOne(codes, hashes[0]);
      RunKeepsSlots(Use(codes, hashes[0]).0, hashes[1..]);
    }
  }

  // Runs of attempts, by text.

  ghost function HashesOf(lib: Library, upper: CodeText.Uppercase, texts: seq<string>): seq<Bytes> {
    if texts == [] then [] else [HashCode(lib, upper, texts[0])] + HashesOf(lib, upper, texts[1..])
  }

  /** How many of the texts equal the code up to dashes and letter case. */
  function AlikeCount(texts: seq<string>, code: string): nat {
    if texts == [] then 0 else (if CodeText.Alike(texts[0], code) then 1 else 0) + AlikeCount(texts[1..], code)
  }

  ghost predicate AllAscii(texts: seq<string>) {
    forall i :: 0 <= i < |texts| ==> IsAscii(texts[i])
  }

  lemma {:induction false} AlikeCountIsHashCount(lib: Library, upper: CodeText.Uppercase, texts: seq<string>, code: string)
    requires Separates(lib, upper, code) && AllAscii(texts)
    ensures multiset(HashesOf(lib, upper, texts))[HashCode(lib, upper, code)] == AlikeCount(texts, code)
  {
    if texts != [] {
      AlikeCountIsHashCount(lib, upper, texts[1..], code);
      var hashes := HashesOf(lib, upper, texts);
      assert hashes[0] == HashCode(lib, upper, texts[0]) && hashes[1..] == HashesOf(lib, upper, texts[1..]);
      MultisetOfHead(hashes);
    }
  }

  lemma {:induction false} NewSlotsHashes(lib: Library, upper: CodeText.Uppercase, plain: seq<string>)
    ensures Hashes(NewSlots(lib, upper, plain)) == HashesOf(lib, upper, plain)
  {
    if plain != [] {
      NewSlotsHashes(lib, upper, plain[1..]);
      assert NewSlots(lib, upper, plain)[1..] == NewSlots(lib, upper, plain[1..]);
    }
  }

  /** Under some hash, whatever else is attempted in between, the attempts with a code, in
      any spelling, succeed exactly as often as the set was made with it, or as it is
      attempted if that is less: a code that is not among them never succeeds. */
  lemma RedeemedPerText(
    lib: Library, upper: CodeText.Uppercase, plain: seq<string>, attempts: seq<string>, code: string) returns (shake: Xof)
    requires lib.HexLaw() && IsAscii(code) && AllAscii(plain) && AllAscii(attempts)
    ensures
      var lib' := lib.(shake := shake);
      && Separates(lib', upper, code)
      && Redeemed(NewSlots(lib', upper, plain), HashesOf(lib', upper, attempts), HashCode(lib', upper, code))
         == Min(AlikeCount(attempts, code), AlikeCount(plain, code))
  {
    shake := CodesSeparated(lib, upper, code);
    var lib' := lib.(shake := shake);
    var slots := NewSlots(lib', upper, plain);
    RedeemedPerHash(slots, HashesOf(lib', upper, attempts), HashCode(lib', upper, code));
    FreshCodesUnused(slots);
    NewSlotsHashes(lib', upper, plain);
    AlikeCountIsHashCount(lib', upper, plain, code);
    AlikeCountIsHashCount(lib', upper, attempts, code);
  }
}
