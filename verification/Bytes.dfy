/** Bytes, 32-bit words and the little-endian encodings that every on-wire and on-flash format here uses. */
module Bytes {

  type Byte = x: int | 0 <= x < 0x100
  type U16 = x: int | 0 <= x < 0x1_0000
  type U24 = x: int | 0 <= x < 0x100_0000
  type U32 = x: int | 0 <= x < 0x1_0000_0000

  const WORD: int := 0x1_0000_0000

  /** The sum as a C `uint32_t` holds it. */
  function Add32(a: U32, b: U32): (r: U32)
    ensures a + b < WORD ==> r == a + b
    ensures a + b >= WORD ==> r == a + b - WORD
  {
    (a + b) % WORD
  }

  function Le16(v: U16): (b: seq<Byte>)
    ensures |b| == 2
  {
    [v % 0x100, v / 0x100]
  }

  function Le24(v: U24): (b: seq<Byte>)
    ensures |b| == 3
  {
    [v % 0x100, v / 0x100 % 0x100, v / 0x1_0000]
  }

  function Le32(v: U32): (b: seq<Byte>)
    ensures |b| == 4
  {
    [v % 0x100, v / 0x100 % 0x100, v / 0x1_0000 % 0x100, v / 0x100_0000]
  }

  function U16At(b: seq<Byte>, off: nat): (v: U16)
    requires off + 2 <= |b|
  {
    var b1: int := b[off + 1];
    b[off] + 0x100 * b1
  }

  function U24At(b: seq<Byte>, off: nat): (v: U24)
    requires off + 3 <= |b|
  {
    var b1: int, b2: int := b[off + 1], b[off + 2];
    b[off] + 0x100 * b1 + 0x1_0000 * b2
  }

  function U32At(b: seq<Byte>, off: nat): (v: U32)
    requires off + 4 <= |b|
  {
    var b1: int, b2: int, b3: int := b[off + 1], b[off + 2], b[off + 3];
    b[off] + 0x100 * b1 + 0x1_0000 * b2 + 0x100_0000 * b3
  }

  /** Reading back the word written at `off`, whatever surrounds it. */
  lemma ReadLe32(b: seq<Byte>, off: nat, v: U32)
    requires off + 4 <= |b|
    requires b[off..off + 4] == Le32(v)
    ensures U32At(b, off) == v
  {
    var w := b[off..off + 4];
    assert b[off] == w[0] && b[off + 1] == w[1] && b[off + 2] == w[2] && b[off + 3] == w[3];
    WordDigits(v);
  }

  lemma WordDigits(v: U32)
    ensures v == v % 0x100 + 0x100 * (v / 0x100 % 0x100) + 0x1_0000 * (v / 0x1_0000 % 0x100) + 0x100_0000 * (v / 0x100_0000)
  {
    var a: int := v / 0x100;
    var b: int := a / 0x100;
    assert b == v / 0x1_0000;
    assert b / 0x100 == v / 0x100_0000;
  }

  lemma ReadLe24(b: seq<Byte>, off: nat, v: U24)
    requires off + 3 <= |b|
    requires b[off..off + 3] == Le24(v)
    ensures U24At(b, off) == v
  {
    var w := b[off..off + 3];
    assert b[off] == w[0] && b[off + 1] == w[1] && b[off + 2] == w[2];
  }

  lemma ReadLe16(b: seq<Byte>, off: nat, v: U16)
    requires off + 2 <= |b|
    requires b[off..off + 2] == Le16(v)
    ensures U16At(b, off) == v
  {
    var w := b[off..off + 2];
    assert b[off] == w[0] && b[off + 1] == w[1];
  }

  /** `n` copies of one byte. */
  function Fill(n: nat, v: Byte): (b: seq<Byte>)
    ensures |b| == n
    ensures forall i :: 0 <= i < n ==> b[i] == v
  {
    seq(n, i => v)
  }

  lemma {:induction false} MultipleMod(k: nat, unit: nat)
    requires unit > 0
    ensures k * unit % unit == 0
    decreases k
  {
    if k > 0 {
      MultipleMod(k - 1, unit);
      assert k * unit == (k - 1) * unit + unit;
      AddUnitMod((k - 1) * unit, unit);
    }
  }

  lemma AddUnitMod(x: nat, unit: nat)
    requires unit > 0
    ensures (x + unit) % unit == x % unit
  {
    var q := x / unit;
    assert x + unit == (q + 1) * unit + x % unit;
    DivModUnique(x + unit, unit, q + 1, x % unit);
  }

  /** Quotient and remainder are the only pair with `x == q * unit + r` and `r` below the unit. */
  lemma DivModUnique(x: nat, unit: nat, q: int, r: int)
    requires unit > 0 && 0 <= r < unit && x == q * unit + r
    ensures q == x / unit && r == x % unit
  {
    Scaled(q, x / unit, unit);
    Scaled(x / unit, q, unit);
  }

  /** A larger multiplier gives a product larger by at least one unit. */
  lemma {:induction false} Scaled(a: int, b: int, unit: nat)
    ensures a > b ==> a * unit >= b * unit + unit
    decreases a - b
  {
    if a > b {
      assert a * unit == (a - 1) * unit + unit;
      Scaled(a - 1, b, unit);
    }
  }

  /** `x` cut down to a multiple of `unit`. */
  function RoundDown(x: nat, unit: nat): (r: nat)
    requires unit > 0
    ensures r <= x < r + unit
    ensures r % unit == 0
  {
    MultipleMod(x / unit, unit);
    assert x == x / unit * unit + x % unit;
    x / unit * unit
  }

  /** `x` rounded up to a multiple of `unit`. */
  function RoundUp(x: nat, unit: nat): (r: nat)
    requires unit > 0
    ensures x <= r < x + unit
    ensures r % unit == 0
  {
    RoundDown(x + unit - 1, unit)
  }

  /** No multiple of the unit lies between `x` and its round-up. */
  lemma RoundUpLeast(x: nat, unit: nat, m: nat)
    requires unit > 0 && m % unit == 0 && x <= m
    ensures RoundUp(x, unit) <= m
  {
    var p, q := RoundUp(x, unit) / unit, m / unit;
    assert RoundUp(x, unit) == p * unit && m == q * unit;
    Scaled(p, q, unit);
  }

  lemma {:induction false} SumMod(a: nat, b: nat, unit: nat)
    requires unit > 0 && a % unit == 0 && b % unit == 0
    ensures (a + b) % unit == 0
  {
    var p, q := a / unit, b / unit;
    assert a == p * unit && b == q * unit;
    assert a + b == (p + q) * unit;
    MultipleMod(p + q, unit);
  }

  lemma {:induction false} TimesMod(q: nat, b: nat, unit: nat)
    requires unit > 0 && b % unit == 0
    ensures q * b % unit == 0
    decreases q
  {
    if q > 0 {
      TimesMod(q - 1, b, unit);
      assert q * b == (q - 1) * b + b;
      SumMod((q - 1) * b, b, unit);
    }
  }

  /** Divisibility goes through: a multiple of a multiple is a multiple. */
  lemma MultipleOfMultiple(a: nat, b: nat, unit: nat)
    requires unit > 0 && b > 0 && a % b == 0 && b % unit == 0
    ensures a % unit == 0
  {
    assert a == a / b * b;
    TimesMod(a / b, b, unit);
  }
}
