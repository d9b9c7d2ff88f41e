/** src/recovery.rs: the text of recovery codes and its normalisation before hashing. */
module CodeText {
  import opened Machine

  const ALPHABET: string := "2346789ABCDEFGHJKMNPQRTUVWXYZ"
  const GROUPS: nat := 8
  const GROUP_LEN: nat := 4
  const DOMAIN: Bytes := AsciiBytes("pqauth-recovery-v1")

  function UpperChar(c: char): char {
    if 'a' <= c <= 'z' then c - ('a' - 'A') else c
  }

  function AsciiUpper(s: string): (u: string)
    ensures |u| == |s| && forall i :: 0 <= i < |s| ==> u[i] == UpperChar(s[i])
  {
    seq(|s|, i requires 0 <= i < |s| => UpperChar(s[i]))
  }

  predicate UppercasesAscii(f: string -> Bytes, s: string) {
    IsAscii(s) ==> f(s) == AsciiBytes(AsciiUpper(s))
  }

  /** `to_uppercase` followed by `as_bytes`: a library call on all of Unicode, of which
      only the behaviour on ASCII text is used. */
  type Uppercase = f: string -> Bytes | forall s :: UppercasesAscii(f, s)
    witness (s: string) => if IsAscii(s) then AsciiBytes(AsciiUpper(s)) else []

  function StripDashes(s: string): string {
    if s == "" then "" else (if s[0] == '-' then "" else [s[0]]) + StripDashes(s[1..])
  }

  /** The bytes hashed for a code. */
  function HashInput(upper: Uppercase, code: string): Bytes {
    upper(StripDashes(code))
  }

  lemma {:induction false} StripAppend(s: string, t: string)
    ensures StripDashes(s + t) == StripDashes(s) + StripDashes(t)
  {
    if s == "" {
      assert s + t == t;
    } else {
      var head := if s[0] == '-' then "" else [s[0]];
      assert (s + t)[1..] == s[1..] + t;
      assert StripDashes(s + t) == head + StripDashes(s[1..] + t);
      StripAppend(s[1..], t);
      assert head + (StripDashes(s[1..]) + StripDashes(t)) == head + StripDashes(s[1..]) + StripDashes(t);
    }
  }

  lemma {:induction false} StripKeepsAscii(s: string)
    requires IsAscii(s)
    ensures IsAscii(StripDashes(s)) && '-' !in StripDashes(s)
  {
    if s != "" {
      assert forall i :: 0 <= i < |s| - 1 ==> s[1..][i] == s[i + 1];
      StripKeepsAscii(s[1..]);
    }
  }

  lemma {:induction false} StripWithoutDashes(s: string)
    requires '-' !in s
    ensures StripDashes(s) == s
  {
    if s != "" {
      StripWithoutDashes(s[1..]);
      assert s == [s[0]] + s[1..];
    }
  }

  /** A dash put in anywhere, in any text, does not change what is hashed. */
  lemma DashesIgnored(upper: Uppercase, before: string, after: string)
    ensures HashInput(upper, before + "-" + after) == HashInput(upper, before + after)
  {
    calc {
      StripDashes(before + "-" + after);
      { StripAppend(before + "-", after); }
      StripDashes(before + "-") + StripDashes(after);
      { StripAppend(before, "-"); assert StripDashes("-") == ""; assert StripDashes(before) + "" == StripDashes(before); }
      StripDashes(before) + StripDashes(after);
      { StripAppend(before, after); }
      StripDashes(before + after);
    }
  }

  /** The same letter, in either case. */
  predicate SameLetter(c: char, d: char) {
    || c == d
    || ('a' <= c <= 'z' && d as int == c as int - 32)
    || ('a' <= d <= 'z' && c as int == d as int - 32)
  }

  /** Equal up to dashes and letter case: compared letter by letter, passing over dashes. */
  predicate Alike(s: string, t: string)
    decreases |s| + |t|
  {
    if s != "" && s[0] == '-' then Alike(s[1..], t)
    else if t != "" && t[0] == '-' then Alike(s, t[1..])
    else if s == "" || t == "" then s == t
    else SameLetter(s[0], t[0]) && Alike(s[1..], t[1..])
  }

  lemma UpperTail(s: string)
    requires s != "" && s[0] != '-'
    ensures AsciiUpper(StripDashes(s)) == [UpperChar(s[0])] + AsciiUpper(StripDashes(s[1..]))
  {
  }

  lemma SameLetterIff(c: char, d: char)
    ensures SameLetter(c, d) <==> UpperChar(c) == UpperChar(d)
  {
  }

  lemma {:induction false} AlikeIff(s: string, t: string)
    ensures Alike(s, t) <==> AsciiUpper(StripDashes(s)) == AsciiUpper(StripDashes(t))
    decreases |s| + |t|
  {
    if s != "" && s[0] == '-' {
      AlikeIff(s[1..], t);
      assert StripDashes(s) == StripDashes(s[1..]);
    } else if t != "" && t[0] == '-' {
      AlikeIff(s, t[1..]);
      assert StripDashes(t) == StripDashes(t[1..]);
    } else if s == "" || t == "" {
      if s != "" {
        UpperTail(s);
      }
      if t != "" {
        UpperTail(t);
      }
    } else {
      AlikeIff(s[1..], t[1..]);
      UpperTail(s);
      UpperTail(t);
      SameLetterIff(s[0], t[0]);
      var u, v := AsciiUpper(StripDashes(s)), AsciiUpper(StripDashes(t));
      assert u[0] == UpperChar(s[0]) && v[0] == UpperChar(t[0]);
      assert u[1..] == AsciiUpper(StripDashes(s[1..])) && v[1..] == AsciiUpper(StripDashes(t[1..]));
    }
  }

  /** Two ASCII texts are hashed alike exactly when they agree up to dashes and letter case. */
  lemma HashedAlikeIff(upper: Uppercase, s: string, t: string)
    requires IsAscii(s) && IsAscii(t)
    ensures HashInput(upper, s) == HashInput(upper, t) <==> Alike(s, t)
  {
    StripKeepsAscii(s);
    StripKeepsAscii(t);
    var a, b := AsciiUpper(StripDashes(s)), AsciiUpper(StripDashes(t));
    assert UppercasesAscii(upper, StripDashes(s)) && UppercasesAscii(upper, StripDashes(t));
    if AsciiBytes(a) == AsciiBytes(b) {
      AsciiBytesInjective(a, b);
    }
    AlikeIff(s, t);
  }

  /** Normalising twice is normalising once. */
  lemma NormalizeIdempotent(s: string)
    requires IsAscii(s)
    ensures var n := AsciiUpper(StripDashes(s)); AsciiUpper(StripDashes(n)) == n
  {
    StripKeepsAscii(s);
    var n := AsciiUpper(StripDashes(s));
    assert '-' !in n;
    StripWithoutDashes(n);
    assert AsciiUpper(n) == n;
  }

  // Generated codes.

  /** A digit or capital letter that is not easily taken for another. */
  predicate Unambiguous(c: char) {
    ('0' <= c <= '9' || 'A' <= c <= 'Z') && c !in "0O1IL5S"
  }

  lemma AlphabetUnambiguous(i: nat)
    requires i < |ALPHABET|
    ensures Unambiguous(ALPHABET[i])
  {
  }

  lemma UnambiguousInAlphabet(c: char)
    requires Unambiguous(c)
    ensures c in ALPHABET
  {
    var a := ALPHABET;
    if c <= '9' {
      assert a[0] == '2' && a[1] == '3' && a[2] == '4' && a[3] == '6' && a[4] == '7' && a[5] == '8' && a[6] == '9';
    } else if c < 'I' {
      assert a[7] == 'A' && a[8] == 'B' && a[9] == 'C' && a[10] == 'D';
      assert a[11] == 'E' && a[12] == 'F' && a[13] == 'G' && a[14] == 'H';
    } else {
      assert a[15] == 'J' && a[16] == 'K' && a[17] == 'M' && a[18] == 'N' && a[19] == 'P' && a[20] == 'Q' && a[21] == 'R';
      assert a[22] == 'T' && a[23] == 'U' && a[24] == 'V' && a[25] == 'W' && a[26] == 'X' && a[27] == 'Y' && a[28] == 'Z';
    }
  }

  lemma AlphabetAscends(i: nat)
    requires i < |ALPHABET| - 1
    ensures ALPHABET[i] < ALPHABET[i + 1]
  {
  }

  /** The alphabet is all digits and capital letters but 0, O, 1, I, L, 5, S, in order. */
  lemma AlphabetExactly()
    ensures |ALPHABET| == 29
    ensures forall i :: 0 <= i < 28 ==> ALPHABET[i] < ALPHABET[i + 1]
    ensures forall c :: c in ALPHABET <==> Unambiguous(c)
  {
    forall i | 0 <= i < 28 ensures ALPHABET[i] < ALPHABET[i + 1] {
      AlphabetAscends(i);
    }
    forall c ensures c in ALPHABET <==> Unambiguous(c) {
      if c in ALPHABET {
        var i: nat :| i < |ALPHABET| && ALPHABET[i] == c;
        AlphabetUnambiguous(i);
      } else if Unambiguous(c) {
        UnambiguousInAlphabet(c);
      }
    }
  }

  predicate Drawn(letters: string) {
    |letters| == GROUPS * GROUP_LEN && forall i :: 0 <= i < |letters| ==> letters[i] in ALPHABET
  }

  /** The letters in groups of four with a dash between groups. */
  function Regroup(letters: string): (code: string)
    requires letters != "" && |letters| % GROUP_LEN == 0
    ensures |code| == |letters| / GROUP_LEN * (GROUP_LEN + 1) - 1
  {
    seq(|letters| / GROUP_LEN * (GROUP_LEN + 1) - 1, p requires 0 <= p < |letters| / GROUP_LEN * (GROUP_LEN + 1) - 1 =>
      if p % (GROUP_LEN + 1) == GROUP_LEN then '-' else letters[p / (GROUP_LEN + 1) * GROUP_LEN + p % (GROUP_LEN + 1)])
  }

  lemma RegroupSplits(letters: string)
    requires |letters| > GROUP_LEN && |letters| % GROUP_LEN == 0
    ensures Regroup(letters) == letters[..GROUP_LEN] + "-" + Regroup(letters[GROUP_LEN..])
  {
    var code, split := Regroup(letters), letters[..GROUP_LEN] + "-" + Regroup(letters[GROUP_LEN..]);
    forall p | 0 <= p < |code| ensures code[p] == split[p] {
      if p > GROUP_LEN {
        assert split[p] == Regroup(letters[GROUP_LEN..])[p - 5];
        assert (p - 5) / 5 == p / 5 - 1 && (p - 5) % 5 == p % 5;
      }
    }
  }

  lemma {:induction false} StripRegroup(letters: string)
    requires letters != "" && |letters| % GROUP_LEN == 0 && '-' !in letters
    ensures StripDashes(Regroup(letters)) == letters
  {
    if |letters| == GROUP_LEN {
      assert Regroup(letters) == letters;
      StripWithoutDashes(letters);
    } else {
      var head, tail := letters[..GROUP_LEN], letters[GROUP_LEN..];
      RegroupSplits(letters);
      StripRegroup(tail);
      StripAppend(head + "-", Regroup(tail));
      StripAppend(head, "-");
      StripWithoutDashes(head);
      assert letters == head + tail;
    }
  }

  lemma AlphabetIsPlain(c: char)
    requires c in ALPHABET
    ensures c != '-' && UpperChar(c) == c && c as int < 128
  {
  }

  /** `[String]::join("-")`. */
  function Join(groups: seq<string>): string {
    if groups == [] then ""
    else if |groups| == 1 then groups[0]
    else groups[0] + "-" + Join(groups[1..])
  }

  lemma SliceOfTail(s: string, k: nat, from: nat, to: nat)
    requires from <= to && k + to <= |s|
    ensures s[k..][from..to] == s[k + from..k + to]
  {
  }

  lemma {:induction false} JoinIsRegroup(groups: seq<string>, letters: string)
    requires |groups| > 0 && |letters| == |groups| * GROUP_LEN
    requires forall g :: 0 <= g < |groups| ==> groups[g] == letters[g * GROUP_LEN..(g + 1) * GROUP_LEN]
    ensures Join(groups) == Regroup(letters)
  {
    if |groups| == 1 {
      assert Regroup(letters) == letters;
    } else {
      var tail := letters[GROUP_LEN..];
      forall g | 0 <= g < |groups| - 1 ensures groups[1..][g] == tail[g * GROUP_LEN..(g + 1) * GROUP_LEN] {
        assert groups[1..][g] == groups[g + 1] == letters[(g + 1) * GROUP_LEN..(g + 1 + 1) * GROUP_LEN];
        SliceOfTail(letters, GROUP_LEN, g * GROUP_LEN, (g + 1) * GROUP_LEN);
      }
      JoinIsRegroup(groups[1..], tail);
      RegroupSplits(letters);
    }
  }

  /** `draws` are the indices the random generator returns, in order. */
  method GenerateCode(draws: seq<nat>) returns (code: string)
    requires |draws| == GROUPS * GROUP_LEN && forall i :: 0 <= i < |draws| ==> draws[i] < |ALPHABET|
    ensures code == Regroup(seq(|draws|, i requires 0 <= i < |draws| => ALPHABET[draws[i]]))
    ensures |code| == 39
    ensures forall p :: 0 <= p < 39 ==> code[p] == if p % 5 == 4 then '-' else ALPHABET[draws[p / 5 * 4 + p % 5]]
  {
    ghost var letters := seq(|draws|, i requires 0 <= i < |draws| => ALPHABET[draws[i]]);
    var groups: seq<string> := [];
    for g := 0 to GROUPS
      invariant |groups| == g
      invariant forall h :: 0 <= h < g ==> groups[h] == letters[h * GROUP_LEN..(h + 1) * GROUP_LEN]
    {
      var group := "";
      for k := 0 to GROUP_LEN
        invariant group == letters[g * GROUP_LEN..g * GROUP_LEN + k]
      {
        group := group + [ALPHABET[draws[g * GROUP_LEN + k]]];
      }
      groups := groups + [group];
    }
    JoinIsRegroup(groups, letters);
    return Join(groups);
  }

  /** Normalising a generated code and regrouping gives the code back, and what is hashed
      is the bytes of its letters. */
  lemma GeneratedRoundTrip(upper: Uppercase, letters: string)
    requires Drawn(letters)
    ensures IsAscii(letters)
    ensures AsciiUpper(StripDashes(Regroup(letters))) == letters
    ensures HashInput(upper, Regroup(letters)) == AsciiBytes(letters)
  {
    forall i | 0 <= i < |letters| ensures letters[i] != '-' && UpperChar(letters[i]) == letters[i] && letters[i] as int < 128 {
      AlphabetIsPlain(letters[i]);
    }
    StripRegroup(letters);
    assert AsciiUpper(letters) == letters;
    assert UppercasesAscii(upper, letters);
  }

  /** Distinct generated codes have distinct hash inputs. */
  lemma GeneratedHashInputsDistinct(upper: Uppercase, letters1: string, letters2: string)
    requires Drawn(letters1) && Drawn(letters2)
    requires HashInput(upper, Regroup(letters1)) == HashInput(upper, Regroup(letters2))
    ensures Regroup(letters1) == Regroup(letters2)
  {
    GeneratedRoundTrip(upper, letters1);
    GeneratedRoundTrip(upper, letters2);
    AsciiBytesInjective(letters1, letters2);
  }

  /** The example in the module's documentation. */
  const DOCUMENTED_CODE: string := "A3F7-K9M2-P1X4-Q8R6-B2C5-D7E1-G4H8-J6L0"

  /** No draw gives it: 0, 1, 5 and L are not in the alphabet. */
  lemma DocumentedCodeNotGenerated(letters: string)
    requires Drawn(letters)
    ensures Regroup(letters) != DOCUMENTED_CODE
  {
    assert Regroup(letters)[11] == letters[9];
    assert DOCUMENTED_CODE[11] == '1';
  }
}
