/** src/pq_totp.rs: time-based codes, their truncation and the window search. */
module PqTotp {
  import opened Machine
  import opened Primitives
  import ShakeMac

  const TIME_STEP: u64 := 30
  const MODULUS: u32 := 100_000_000
  const MAC_LEN: nat := 32

  /** `u32::from_be_bytes`. */
  function Word(b0: Byte, b1: Byte, b2: Byte, b3: Byte): bv32 {
    ((b0 as bv32) << 24) | ((b1 as bv32) << 16) | ((b2 as bv32) << 8) | (b3 as bv32)
  }

  function Offset(mac: Bytes): nat
    requires |mac| == MAC_LEN
  {
    (mac[|mac| - 1] & 0x0F) as int
  }

  /** The code in the four bytes of the MAC from `o` on. */
  function CodeAt(mac: Bytes, o: nat): u32
    requires o + 3 < |mac|
  {
    CodeIn(mac[o], mac[o + 1], mac[o + 2], mac[o + 3])
  }

  function CodeIn(b0: Byte, b1: Byte, b2: Byte, b3: Byte): u32 {
    (Word(b0 & 0x7F, b1, b2, b3) as int) % MODULUS
  }

  /** Dynamic truncation; that it only reads inside the MAC is part of its well-formedness. */
  function Truncate(mac: Bytes): u32
    requires |mac| == MAC_LEN
  {
    CodeAt(mac, Offset(mac))
  }

  lemma MaskedWord(b0: Byte, b1: Byte, b2: Byte, b3: Byte)
    ensures Word(b0 & 0x7F, b1, b2, b3) == Word(b0, b1, b2, b3) & 0x7FFF_FFFF
  {
  }

  lemma CodeMasksWholeWord(b0: Byte, b1: Byte, b2: Byte, b3: Byte)
    ensures CodeIn(b0, b1, b2, b3) == ((Word(b0, b1, b2, b3) & 0x7FFF_FFFF) as int) % MODULUS < 100_000_000
  {
    MaskedWord(b0, b1, b2, b3);
  }

  /** Masking the top byte before assembling the word, as the code does, is masking the
      whole word, as the README says; either way the code has at most eight digits. */
  lemma TruncateMasksWholeWord(mac: Bytes)
    requires |mac| == MAC_LEN
    ensures
      var o := Offset(mac);
      && o + 3 < MAC_LEN
      && Truncate(mac) == ((Word(mac[o], mac[o + 1], mac[o + 2], mac[o + 3]) & 0x7FFF_FFFF) as int) % MODULUS
      && Truncate(mac) < 100_000_000
  {
    var o := Offset(mac);
    CodeMasksWholeWord(mac[o], mac[o + 1], mac[o + 2], mac[o + 3]);
  }

  /** The bytes hashed for a code: secret, counter, secret. */
  function CodeInput(secret: Bytes, counter: u64): Bytes {
    ShakeMac.Envelope(secret, BigEndian(counter, 8))
  }

  lemma CodeInputInjective(secret1: Bytes, counter1: u64, secret2: Bytes, counter2: u64)
    requires CodeInput(secret1, counter1) == CodeInput(secret2, counter2)
    ensures secret1 == secret2 && counter1 == counter2
  {
    ShakeMac.EnvelopeInjectiveIff(secret1, BigEndian(counter1, 8), secret2, BigEndian(counter2, 8));
    BigEndian64Injective(counter1, counter2);
  }

  function GenerateAtStep(shake: Xof, secret: Bytes, counter: u64): u32 {
    Truncate(shake(CodeInput(secret, counter), MAC_LEN))
  }

  lemma LowBits(b: Byte)
    ensures (b & 0x0F) as int == b as int % 16 && (b & 0x7F) as int == b as int % 128
  {
  }

  /** The number in four bytes, most significant first, on the values of the bytes. */
  function Number(n0: nat, n1: nat, n2: nat, n3: nat): nat {
    n0 * 0x100_0000 + n1 * 0x1_0000 + n2 * 0x100 + n3
  }

  /** The number in the four bytes from `o` on, without its top bit, as eight digits. */
  function EightDigits(mac: Bytes, o: nat): nat
    requires o + 3 < |mac|
  {
    Number(mac[o] as int % 128, mac[o + 1] as int, mac[o + 2] as int, mac[o + 3] as int) % 100_000_000
  }

  /** A code in arithmetic: the MAC is the hash of the secret, the counter's eight base-256
      digits and the secret; its last byte modulo 16 says where a four-byte number starts,
      of which the top bit is dropped and the remainder by 10^8 taken. */
  lemma CodeValue(shake: Xof, secret: Bytes, counter: u64, digits: Bytes)
    requires Digits64(digits, counter)
    ensures
      var mac := shake(secret + digits + secret, 32);
      GenerateAtStep(shake, secret, counter) == EightDigits(mac, mac[31] as int % 16)
  {
    BigEndian64Digits(digits, counter);
    var mac := shake(CodeInput(secret, counter), 32);
    LowBits(mac[31]);
    CodeAtValue(mac, mac[31] as int % 16);
  }

  lemma CodeAtValue(mac: Bytes, o: nat)
    requires o + 3 < |mac|
    ensures CodeAt(mac, o) == EightDigits(mac, o)
  {
    CodeOfBytes(mac[o], mac[o + 1], mac[o + 2], mac[o + 3]);
  }

  lemma CodeOfBytes(b0: Byte, b1: Byte, b2: Byte, b3: Byte)
    ensures CodeIn(b0, b1, b2, b3) == Number(b0 as int % 128, b1 as int, b2 as int, b3 as int) % 100_000_000
  {
    LowBits(b0);
    CodeOfValues(b0 & 0x7F, b0 as int % 128, b1, b2, b3);
  }

  lemma CodeOfValues(masked: Byte, n0: nat, b1: Byte, b2: Byte, b3: Byte)
    requires masked as int == n0
    ensures Word(masked, b1, b2, b3) as int % MODULUS == Number(n0, b1 as int, b2 as int, b3 as int) % 100_000_000
  {
    WordIsNumber(masked, b1, b2, b3);
    SameRemainder(Word(masked, b1, b2, b3) as int, Number(n0, b1 as int, b2 as int, b3 as int));
  }

  lemma SameRemainder(x: nat, y: nat)
    requires x == y
    ensures x % MODULUS == y % 100_000_000
  {
  }

  lemma WordIsNumber(b0: Byte, b1: Byte, b2: Byte, b3: Byte)
    ensures Word(b0, b1, b2, b3) as int == Number(b0 as int, b1 as int, b2 as int, b3 as int)
  {
    WordValue(Word(b0, b1, b2, b3), b0, b1, b2, b3);
  }

  lemma WordValue(w: bv32, b0: Byte, b1: Byte, b2: Byte, b3: Byte)
    requires w == ((b0 as bv32) << 24) | ((b1 as bv32) << 16) | ((b2 as bv32) << 8) | (b3 as bv32)
    ensures w as int == b0 as int * 0x100_0000 + b1 as int * 0x1_0000 + b2 as int * 0x100 + b3 as int
  {
  }

  /** Under some hash, the code of one secret and counter is the code of no other. */
  lemma CodesSeparated(secret: Bytes, counter: u64) returns (shake: Xof)
    ensures forall secret2, counter2: u64 ::
      GenerateAtStep(shake, secret2, counter2) == GenerateAtStep(shake, secret, counter)
      <==> secret2 == secret && counter2 == counter
  {
    shake := TellApart(CodeInput(secret, counter));
    forall secret2, counter2: u64
      ensures GenerateAtStep(shake, secret2, counter2) == if secret2 == secret && counter2 == counter then 0 else 1
    {
      CodeUnder(shake, secret, counter, secret2, counter2);
    }
  }

  lemma CodeUnder(shake: Xof, secret: Bytes, counter: u64, secret2: Bytes, counter2: u64)
    requires shake == TellApart(CodeInput(secret, counter))
    ensures GenerateAtStep(shake, secret2, counter2) == if secret2 == secret && counter2 == counter then 0 else 1
  {
    if CodeInput(secret2, counter2) == CodeInput(secret, counter) {
      CodeInputInjective(secret2, counter2, secret, counter);
    }
    MarkedCode(CodeInput(secret, counter), CodeInput(secret2, counter2));
  }

  lemma MarkedCode(special: Bytes, m: Bytes)
    ensures Truncate(TellApart(special)(m, MAC_LEN)) == if m == special then 0 else 1
  {
    var mac := TellApart(special)(m, MAC_LEN);
    assert mac[0] == 0 && mac[1] == 0 && mac[2] == 0 && mac[31] == 0;
    LowBits(mac[31]);
    WordIsNumber(mac[0] & 0x7F, mac[1], mac[2], mac[3]);
  }

  /** Under that hash a code is accepted for no secret but its own, and only while its own
      step is searched. */
  lemma AcceptedOnlyInItsWindow(secret: Bytes, made: u64) returns (shake: Xof)
    ensures forall secret2, checked: u64, window: u64 ::
      Accepts(shake, secret2, Generate(shake, secret, made), checked, window)
      <==> secret2 == secret && InWindow(CurrentStep(made), checked, window)
  {
    shake := CodesSeparated(secret, CurrentStep(made));
    forall secret2, checked: u64, window: u64
      ensures Accepts(shake, secret2, Generate(shake, secret, made), checked, window)
         <==> secret2 == secret && InWindow(CurrentStep(made), checked, window)
    {
      if secret2 == secret && InWindow(CurrentStep(made), checked, window) {
        assert GenerateAtStep(shake, secret2, CurrentStep(made)) == Generate(shake, secret, made);
      }
    }
  }

  function Generate(shake: Xof, secret: Bytes, timestamp: u64): u32 {
    GenerateAtStep(shake, secret, CurrentStep(timestamp))
  }

  function CurrentStep(timestamp: u64): u64 {
    timestamp / TIME_STEP
  }

  function SecondsRemaining(timestamp: u64): u64 {
    TIME_STEP - timestamp % TIME_STEP
  }

  /** The steps the search visits; the upper end is a machine addition. */
  predicate InWindow(step: u64, timestamp: u64, window: u64) {
    SaturatingSub(CurrentStep(timestamp), window) <= step <= WrappingAdd(CurrentStep(timestamp), window)
  }

  ghost predicate Accepts(shake: Xof, secret: Bytes, code: u32, timestamp: u64, window: u64) {
    exists step: u64 :: InWindow(step, timestamp, window) && GenerateAtStep(shake, secret, step) == code
  }

  method Verify(shake: Xof, secret: Bytes, code: u32, timestamp: u64, window: u64) returns (valid: bool)
    ensures valid <==> Accepts(shake, secret, code, timestamp, window)
  {
    var start := SaturatingSub(CurrentStep(timestamp), window);
    var end := WrappingAdd(CurrentStep(timestamp), window);
    var candidate := BigEndian(code, 4);
    var step: int := start;
    while step <= end
      invariant start <= step
      invariant forall s: u64 :: start <= s < step && s <= end ==> GenerateAtStep(shake, secret, s) != code
      decreases end - step
    {
      var expected := GenerateAtStep(shake, secret, step);
      var same := ShakeMac.VerifyMac(candidate, BigEndian(expected, 4));
      if same {
        BigEndian32Injective(code, expected);
        assert InWindow(step, timestamp, window);
        return true;
      }
      step := step + 1;
    }
    return false;
  }

  /** When the window does not run off the end of the counter, step `s` is searched in
      exactly the seconds from 30(s - w) up to but excluding 30(s + w + 1). */
  lemma StepSearchedExactly(step: u64, timestamp: u64, window: u64)
    requires CurrentStep(timestamp) + window <= U64_MAX
    ensures InWindow(step, timestamp, window)
       <==> 30 * (step - window) <= timestamp < 30 * (step + window + 1)
  {
  }

  /** The proviso is exact: once the addition wraps, not even the current step is searched. */
  lemma CurrentStepSearchedIff(timestamp: u64, window: u64)
    ensures InWindow(CurrentStep(timestamp), timestamp, window) <==> CurrentStep(timestamp) + window <= U64_MAX
  {
  }

  lemma CurrentStepCanBeMissed()
    ensures !InWindow(CurrentStep(30), 30, U64_MAX)
  {
  }

  /** The server's window of one step never wraps. */
  lemma ServerWindowFits(timestamp: u64)
    ensures CurrentStep(timestamp) + 1 <= U64_MAX
  {
  }

  /** The step of a code made at `made` is searched `d` seconds later exactly while
      d < SecondsRemaining(made) + 30w. */
  lemma CodeLifetime(made: u64, d: nat, window: u64)
    requires made + d <= U64_MAX && CurrentStep(made + d) + window <= U64_MAX
    ensures InWindow(CurrentStep(made), made + d, window)
       <==> d < SecondsRemaining(made) + 30 * window
  {
  }

  /** Client and server clocks may differ by 30w seconds either way. */
  lemma CodeAcceptedWithinDrift(shake: Xof, secret: Bytes, made: u64, checked: u64, window: u64)
    requires CurrentStep(checked) + window <= U64_MAX
    requires AbsDiff(made, checked) <= 30 * window
    ensures Accepts(shake, secret, Generate(shake, secret, made), checked, window)
  {
  }
}
