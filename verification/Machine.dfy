/** Machine integers, byte strings and the result types shared by every module.
    Arithmetic that can leave its width is written out with the wrap-around of an
    optimised build; the theorems of the other modules show where it cannot occur. */
module Machine {

  datatype Option<+T> = None | Some(value: T)

  datatype Result<+T, +E> = Ok(value: T) | Err(error: E)

  type Byte = bv8

  type Bytes = seq<Byte>

  const U32_MODULUS: int := 0x1_0000_0000
  const U64_MODULUS: int := 0x1_0000_0000_0000_0000
  const U64_MAX: int := U64_MODULUS - 1

  type u32 = x: int | 0 <= x < U32_MODULUS
  type u64 = x: int | 0 <= x < U64_MODULUS

  function Min(x: int, y: int): int {
    if x <= y then x else y
  }

  function Max(x: int, y: int): int {
    if x <= y then y else x
  }

  function SaturatingSub(x: u64, y: u64): u64 {
    if x < y then 0 else x - y
  }

  function WrappingSub(x: u64, y: u64): u64 {
    if x < y then x - y + U64_MODULUS else x - y
  }

  function WrappingAdd(x: u64, y: u64): u64 {
    if x + y < U64_MODULUS then x + y else x + y - U64_MODULUS
  }

  function WrappingAdd32(x: u32, y: u32): u32 {
    if x + y < U32_MODULUS then x + y else x + y - U32_MODULUS
  }

  function AbsDiff(x: u64, y: u64): u64 {
    if x < y then y - x else x - y
  }

  function Lookup<K, V>(m: map<K, V>, k: K): Option<V> {
    if k in m then Some(m[k]) else None
  }

  /** The byte of value `x`. */
  function ByteOf(x: nat): (b: Byte)
    requires x < 256
    ensures b as int == x
  {
    if x == 0 then 0 else var b := ByteOf(x - 1); ByteSuccessor(b); b + 1
  }

  lemma ByteInjective(b: Byte, c: Byte)
    requires b as int == c as int
    ensures b == c
  {
  }

  lemma ByteSuccessor(b: Byte)
    requires b != 255
    ensures (b + 1) as int == b as int + 1
  {
  }

  predicate IsAscii(s: string) {
    forall i :: 0 <= i < |s| ==> s[i] as int < 128
  }

  /** `as_bytes` of ASCII text. */
  function AsciiBytes(s: string): (b: Bytes)
    requires IsAscii(s)
    ensures |b| == |s|
  {
    seq(|s|, i requires 0 <= i < |s| => ByteOf(s[i] as int))
  }

  lemma AsciiBytesInjective(s: string, t: string)
    requires IsAscii(s) && IsAscii(t) && AsciiBytes(s) == AsciiBytes(t)
    ensures s == t
  {
    forall i | 0 <= i < |s| ensures s[i] == t[i] {
      assert AsciiBytes(s)[i] == AsciiBytes(t)[i];
    }
  }

  /** The `width` low-order bytes of `x`, most significant first (`to_be_bytes`). */
  function BigEndian(x: nat, width: nat): (b: Bytes)
    ensures |b| == width
  {
    if width == 0 then [] else BigEndian(x / 256, width - 1) + [ByteOf(x % 256)]
  }

  function Pow256(n: nat): (p: nat)
    ensures p > 0
  {
    if n == 0 then 1 else 256 * Pow256(n - 1)
  }

  lemma QuotientUnique(y: int, d: int, q: int, r: int)
    requires d > 0 && 0 <= r < d && y == d * q + r
    ensures y / d == q
  {
    var k := y / d - q;
    assert d * k == r - y % d;
    if k >= 1 {
      Product(d, k);
    } else if k <= -1 {
      Product(d, -k);
    }
  }

  lemma Product(d: int, k: int)
    requires d > 0 && k >= 1
    ensures d * k >= d
  {
  }

  lemma NestedQuotient(x: nat, p: nat)
    requires p > 0
    ensures x / 256 / p == x / (256 * p)
  {
    var q, r, s := x / 256 / p, x / 256 % p, x % 256;
    assert x / 256 == p * q + r;
    assert 256 * (p * q) == 256 * p * q;
    QuotientUnique(x, 256 * p, q, 256 * r + s);
  }

  /** Byte `i` is the base-256 digit of that place. */
  lemma {:induction false} BigEndianDigit(x: nat, width: nat, i: nat)
    requires i < width
    ensures BigEndian(x, width)[i] as int == x / Pow256(width - 1 - i) % 256
  {
    if i < width - 1 {
      assert BigEndian(x, width)[i] == BigEndian(x / 256, width - 1)[i];
      BigEndianDigit(x / 256, width - 1, i);
      NestedQuotient(x, Pow256(width - 2 - i));
    }
  }

  /** The eight base-256 digits of `x`, most significant first. */
  ghost predicate Digits64(b: Bytes, x: u64) {
    |b| == 8 && forall i :: 0 <= i < 8 ==> b[i] as int == x / Pow256(7 - i) % 256
  }

  lemma BigEndian64Digits(b: Bytes, x: u64)
    ensures Digits64(b, x) <==> b == BigEndian(x, 8)
  {
    var d := BigEndian(x, 8);
    forall i | 0 <= i < 8 ensures d[i] as int == x / Pow256(7 - i) % 256 {
      BigEndianDigit(x, 8, i);
    }
    if Digits64(b, x) {
      forall i | 0 <= i < 8 ensures b[i] == d[i] {
        ByteInjective(b[i], d[i]);
      }
    }
  }

  lemma {:induction false} BigEndianInjective(x: nat, y: nat, width: nat)
    requires x < Pow256(width) && y < Pow256(width)
    requires BigEndian(x, width) == BigEndian(y, width)
    ensures x == y
  {
    if width > 0 {
      var dx, dy := BigEndian(x, width), BigEndian(y, width);
      assert dx[..width - 1] == BigEndian(x / 256, width - 1) && dy[..width - 1] == BigEndian(y / 256, width - 1);
      BigEndianDigit(x, width, width - 1);
      BigEndianDigit(y, width, width - 1);
      BigEndianInjective(x / 256, y / 256, width - 1);
    }
  }

  lemma BigEndian64Injective(x: u64, y: u64)
    requires BigEndian(x, 8) == BigEndian(y, 8)
    ensures x == y
  {
    assert Pow256(4) == U32_MODULUS;
    assert Pow256(8) == U64_MODULUS;
    BigEndianInjective(x, y, 8);
  }

  lemma BigEndian32Injective(x: u32, y: u32)
    requires BigEndian(x, 4) == BigEndian(y, 4)
    ensures x == y
  {
    assert Pow256(4) == U32_MODULUS;
    BigEndianInjective(x, y, 4);
  }
}
