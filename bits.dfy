/** Bit-level helpers shared by the arithmetic coders: powers of two, the
    `get_bit`/`msb` accessors, bit lists and their integer value. */
module Bits {

  /** 2^n. */
  function Pow2(n: nat): (r: nat)
    ensures r >= 1
  {
    if n == 0 then 1 else 2 * Pow2(n - 1)
  }

  lemma {:induction false} Pow2Add(a: nat, b: nat)
    ensures Pow2(a + b) == Pow2(a) * Pow2(b)
  {
    if a > 0 {
      Pow2Add(a - 1, b);
      assert Pow2(a + b) == 2 * Pow2(a - 1 + b);
    }
  }

  lemma {:induction false} Pow2Monotone(a: nat, b: nat)
    requires a <= b
    ensures Pow2(a) <= Pow2(b)
  {
    if a < b {
      Pow2Monotone(a, b - 1);
    }
  }

  /** The significand width of an IEEE 754 double, the type of Python's `/`. */
  function DoubleBits(): nat
  {
    53
  }

  /** The coders narrow with `math.floor(a / b)` on Python floats.  When an
      m-bit interval is scaled by a range of size r with 2^m * r < 2^53, every
      dividend and divisor is exact in a double and no quotient lies close
      enough below an integer to round onto it, so the float floor is the
      integer floor the model computes. */
  predicate FloatExact(m: nat, r: nat)
  {
    Pow2(m) * r < Pow2(DoubleBits())
  }

  /** Under FloatExact, r < 2^k once m + k reaches the double's width. */
  lemma FloatExactBound(m: nat, r: nat, k: nat)
    requires FloatExact(m, r) && m + k >= DoubleBits()
    ensures r < Pow2(k)
  {
    Pow2Monotone(DoubleBits(), m + k);
    Pow2Add(m, k);
    if r >= Pow2(k) {
      MulMono(Pow2(m), Pow2(k), r);
    }
  }

  /** `get_bit(value, index)`: `(value >> index) & 1`, the shift taken one
      halving at a time. */
  function GetBit(v: nat, i: nat): (b: nat)
    ensures b <= 1
  {
    if i == 0 then v % 2 else GetBit(v / 2, i - 1)
  }

  /** `msb(value, m)`: bit m-1 of an m-bit value. */
  function Msb(v: nat, m: nat): (b: nat)
    requires m >= 1
    ensures b <= 1
  {
    GetBit(v, m - 1)
  }

  lemma MulAtLeast(x: int, p: int)
    requires p > 0
    ensures x >= 1 ==> x * p >= p
    ensures x <= -1 ==> x * p <= -p
  {
  }

  lemma DivIs(v: int, p: int, q: int)
    requires p > 0 && q * p <= v < (q + 1) * p
    ensures v / p == q
  {
    var d, r := v / p, v % p;
    assert v == d * p + r && 0 <= r < p;
    assert (q + 1) * p == q * p + p;
    assert (d - q) * p == d * p - q * p;
    MulAtLeast(d - q, p);
  }

  lemma ModIs(v: int, p: int, q: int)
    requires p > 0 && q * p <= v < (q + 1) * p
    ensures v % p == v - q * p
  {
    DivIs(v, p, q);
  }

  /** For 0 <= v < 2p, v % p subtracts p at most once. */
  lemma ModOnce(v: int, p: int)
    requires p > 0 && 0 <= v < 2 * p
    ensures v % p == (if v < p then v else v - p)
  {
    if v < p {
      ModIs(v, p, 0);
    } else {
      ModIs(v, p, 1);
    }
  }

  lemma MulMono(a: int, b: int, c: int)
    requires a >= 0 && b <= c
    ensures a * b <= a * c
  {
    assert a * c - a * b == a * (c - b);
  }

  /** x + d <= y implies x / d < y / d. */
  lemma FloorGap(x: int, y: int, d: int)
    requires d > 0 && x + d <= y
    ensures x / d + 1 <= y / d
  {
    FloorBelow(x, d, x / d);
    FloorAbove(y, d, x / d + 1);
    assert (x / d + 1) * d == (x / d) * d + d;
    FloorAbove(x, d, x / d);
  }

  lemma {:induction false} GetBitOfZero(i: nat)
    ensures GetBit(0, i) == 0
  {
    if i > 0 {
      GetBitOfZero(i - 1);
    }
  }

  /** Floor division by a positive d: x / d <= a exactly when x < (a + 1) * d. */
  lemma FloorBelow(x: int, d: int, a: int)
    requires d > 0
    ensures x / d <= a <==> x < (a + 1) * d
  {
    var q := x / d;
    assert x == q * d + x % d && 0 <= x % d < d;
    assert (a + 1) * d == a * d + d;
    assert (q - a) * d == q * d - a * d;
    if q <= a {
      MulAtLeast(a - q + 1, d);
      assert (a - q + 1) * d == a * d + d - q * d;
    } else {
      MulAtLeast(q - a, d);
    }
  }

  /** Floor division by a positive d: c <= x / d exactly when c * d <= x. */
  lemma FloorAbove(x: int, d: int, c: int)
    requires d > 0
    ensures c <= x / d <==> c * d <= x
  {
    FloorBelow(x, d, c - 1);
    assert (c - 1 + 1) * d == c * d;
  }

  /** Bit i of a value below 4 * 2^i is read from which quarter of [0, 4 * 2^i) it lies in. */
  lemma {:induction false} GetBitByQuarter(v: nat, i: nat)
    requires v < 4 * Pow2(i)
    ensures GetBit(v, i) == (if v < Pow2(i) || (2 * Pow2(i) <= v < 3 * Pow2(i)) then 0 else 1)
  {
    if i > 0 {
      GetBitByQuarter(v / 2, i - 1);
    }
  }

  /** Bit i of a value below 2 * 2^i says whether it reaches 2^i. */
  lemma {:induction false} GetBitTop(v: nat, i: nat)
    requires v < 2 * Pow2(i)
    ensures GetBit(v, i) == (if v >= Pow2(i) then 1 else 0)
  {
    if i > 0 {
      GetBitTop(v / 2, i - 1);
    }
  }

  /** The msb of an m-bit value says whether it lies in the upper half. */
  lemma MsbIsUpperHalf(v: nat, m: nat)
    requires m >= 1 && v < Pow2(m)
    ensures Msb(v, m) == (if v >= Pow2(m - 1) then 1 else 0)
  {
    GetBitTop(v, m - 1);
  }

  predicate IsBit(b: int) {
    b == 0 || b == 1
  }

  /** A list of bits, each 0 or 1. */
  predicate IsBits(s: seq<int>) {
    forall i :: 0 <= i < |s| ==> IsBit(s[i])
  }

  /** n copies of bit b. */
  function Rep(b: int, n: nat): (r: seq<int>)
    ensures |r| == n
    ensures forall i :: 0 <= i < n ==> r[i] == b
  {
    if n == 0 then [] else Rep(b, n - 1) + [b]
  }

  /** `functools.reduce(lambda x, y: (x << 1) | y, s, 0)`: the bits read MSB first. */
  function BitsToInt(s: seq<int>): int
  {
    if s == [] then 0 else 2 * BitsToInt(s[..|s| - 1]) + s[|s| - 1]
  }

  lemma {:induction false} BitsToIntRange(s: seq<int>)
    requires IsBits(s)
    ensures 0 <= BitsToInt(s) < Pow2(|s|)
  {
    if s != [] {
      BitsToIntRange(s[..|s| - 1]);
    }
  }

  /** Reading MSB first, the leading bit contributes b * 2^(n-1). */
  lemma {:induction false} BitsToIntHead(s: seq<int>)
    requires |s| >= 1
    ensures BitsToInt(s) == s[0] * Pow2(|s| - 1) + BitsToInt(s[1..])
  {
    if |s| > 1 {
      BitsToIntHead(s[..|s| - 1]);
      assert s[..|s| - 1][1..] == s[1..][..|s| - 2];
    } else {
      assert s[1..] == [];
    }
  }
}
