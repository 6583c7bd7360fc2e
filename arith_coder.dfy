/** The m-bit integer arithmetic coder shared by the static coder (artihmetic.py)
    and the PPM coder (ppm.py): proportional narrowing of the interval [l, u],
    renormalisation by the E1/E2 rule (shift out the common top bit) and the E3
    rule (underflow: defer a bit and count it in scale3), the final flush, and
    the decoder's mirror image of all of these.  Everything here is a pure
    specification; the loops that compute it live with the classes and
    functions of the two source files. */
module ArithCoder {
  import opened Bits
  import opened Wrappers

  /** A coding interval [lo, hi) out of total, as passed to `encode`. */
  datatype Interval = Interval(lo: nat, hi: nat, total: nat)

  /** Both coders require 0 <= range_l < range_u <= range_max <= 2^(m-2). */
  predicate ValidInterval(m: nat, iv: Interval)
  {
    m >= 2 && iv.lo < iv.hi <= iv.total <= Pow2(m - 2)
  }

  predicate AllValid(m: nat, ivs: seq<Interval>)
  {
    forall i :: 0 <= i < |ivs| ==> ValidInterval(m, ivs[i])
  }

  function Half(m: nat): nat
    requires m >= 1
  {
    Pow2(m - 1)
  }

  function Quarter(m: nat): nat
    requires m >= 2
  {
    Pow2(m - 2)
  }

  lemma PowersOfWidth(m: nat)
    requires m >= 2
    ensures Pow2(m) == 2 * Half(m) && Half(m) == 2 * Quarter(m)
  {
  }

  /** The E1/E2 condition: l and u share their top bit. */
  predicate E12(m: nat, l: nat, u: nat)
    requires m >= 2
  {
    Msb(l, m) == Msb(u, m)
  }

  /** The E3 condition: `get_bit(l, m-2) and not get_bit(u, m-2)`. */
  predicate E3(m: nat, l: nat, u: nat)
    requires m >= 2
  {
    GetBit(l, m - 2) == 1 && GetBit(u, m - 2) == 0
  }

  /** The renormalisation loops run while this holds. */
  predicate NeedsRenorm(m: nat, l: nat, u: nat)
    requires m >= 2
  {
    E12(m, l, u) || E3(m, l, u)
  }

  /** For 0 <= l <= u < 2^m the two conditions read as positions of l and u:
      E1/E2 when both lie in one half, E3 when l lies in the second quarter and u
      in the third.  In particular they never hold together. */
  lemma Classify(m: nat, l: nat, u: nat)
    requires m >= 2 && l <= u < Pow2(m)
    ensures E12(m, l, u) <==> (u < Half(m) || Half(m) <= l)
    ensures E3(m, l, u) <==> (Quarter(m) <= l < Half(m) && Half(m) <= u < 3 * Quarter(m))
    ensures !(E12(m, l, u) && E3(m, l, u))
  {
    ClassifyE12(m, l, u);
    ClassifyE3(m, l, u);
  }

  lemma ClassifyE12(m: nat, l: nat, u: nat)
    requires m >= 2 && l <= u < Pow2(m)
    ensures E12(m, l, u) <==> (u < Half(m) || Half(m) <= l)
  {
    MsbIsUpperHalf(l, m);
    MsbIsUpperHalf(u, m);
  }

  lemma ClassifyE3(m: nat, l: nat, u: nat)
    requires m >= 2 && l <= u < Pow2(m)
    ensures E3(m, l, u) <==> (Quarter(m) <= l < Half(m) && Half(m) <= u < 3 * Quarter(m))
  {
    PowersOfWidth(m);
    GetBitByQuarter(l, m - 2);
    GetBitByQuarter(u, m - 2);
  }

  /** State of the encoder: the interval [l, u] and the pending E3 count. */
  datatype Coder = Coder(l: nat, u: nat, scale3: nat)

  /** The initial state `l = 0`, `u = (1 << m) - 1`, `scale3 = 0`. */
  function Init(m: nat): Coder
  {
    Coder(0, Pow2(m) - 1, 0)
  }

  predicate Bounded(m: nat, c: Coder)
  {
    m >= 2 && c.l <= c.u < Pow2(m)
  }

  /** The state after renormalisation: msb(l) = 0, msb(u) = 1 and no E3. */
  predicate Settled(m: nat, c: Coder)
  {
    Bounded(m, c) && !NeedsRenorm(m, c.l, c.u)
  }

  function Width(c: Coder): int
  {
    c.u - c.l + 1
  }

  /** A settled interval is wider than a quarter, so any total <= 2^(m-2)
      splits it without empty pieces. */
  lemma SettledIsWide(m: nat, c: Coder)
    requires Settled(m, c)
    ensures c.l < Half(m) <= c.u
    ensures c.l < Quarter(m) || 3 * Quarter(m) <= c.u
    ensures Width(c) > Quarter(m)
  {
    Classify(m, c.l, c.u);
  }

  lemma InitIsSettled(m: nat)
    requires m >= 2
    ensures Settled(m, Init(m))
  {
    PowersOfWidth(m);
    Classify(m, 0, Pow2(m) - 1);
  }

  /** `l + floor((u - l + 1) * range_l / range_max)`. */
  function NarrowLow(l: int, u: int, lo: int, total: int): int
    requires total > 0
  {
    l + (u - l + 1) * lo / total
  }

  /** `l + floor((u - l + 1) * range_u / range_max) - 1`. */
  function NarrowHigh(l: int, u: int, hi: int, total: int): int
    requires total > 0
  {
    l + (u - l + 1) * hi / total - 1
  }

  /** The sub-interval for [lo, hi) out of total lies inside [l, u] and is not
      empty when the interval is at least total wide. */
  lemma NarrowInside(l: int, u: int, lo: int, hi: int, total: int)
    requires 0 <= lo < hi <= total && u - l + 1 >= total > 0
    ensures l <= NarrowLow(l, u, lo, total) <= NarrowHigh(l, u, hi, total) <= u
  {
    var w := u - l + 1;
    MulMono(w, 0, lo);
    FloorAbove(w * lo, total, 0);
    MulMono(w, hi, total);
    assert w * total == total * w;
    FloorBelow(w * hi, total, w);
    MulMono(w, lo + 1, hi);
    assert w * (lo + 1) == w * lo + w;
    FloorGap(w * lo, w * hi, total);
  }

  /** Without the width condition the ends still stay inside [l, u]. */
  lemma NarrowStaysInside(l: int, u: int, lo: int, hi: int, total: int)
    requires 0 <= lo && hi <= total && l <= u && total > 0
    ensures l <= NarrowLow(l, u, lo, total) && NarrowHigh(l, u, hi, total) <= u
  {
    var w := u - l + 1;
    MulMono(w, 0, lo);
    FloorAbove(w * lo, total, 0);
    MulMono(w, hi, total);
    assert w * total == total * w;
    FloorBelow(w * hi, total, w);
  }

  /** Encoder narrowing for one interval. */
  function Narrow(m: nat, c: Coder, iv: Interval): (r: Coder)
    requires Settled(m, c) && ValidInterval(m, iv)
    ensures Bounded(m, r) && c.l <= r.l && r.u <= c.u && r.scale3 == c.scale3
  {
    SettledIsWide(m, c);
    NarrowInside(c.l, c.u, iv.lo, iv.hi, iv.total);
    Coder(NarrowLow(c.l, c.u, iv.lo, iv.total), NarrowHigh(c.l, c.u, iv.hi, iv.total), c.scale3)
  }

  /** The weight of the msb of an m-bit value: 2^m when it is set, else 0
      (the part the E1/E2 shift pushes out of the m-bit window). */
  function TopBit(m: nat, v: nat): nat
    requires m >= 1
  {
    if Msb(v, m) == 1 then Pow2(m) else 0
  }

  /** `((x << 1) | e) & mask` drops exactly the top bit of x. */
  lemma ShiftModTop(m: nat, x: nat, e: int)
    requires m >= 1 && x < Pow2(m) && (e == 0 || e == 1)
    ensures (2 * x + e) % Pow2(m) == 2 * x + e - TopBit(m, x)
  {
    var f := Pow2(m);
    var h := Pow2(m - 1);
    assert f == 2 * h;
    MsbIsUpperHalf(x, m);
    var v := 2 * x + e;
    if x >= h {
      assert f <= v < 2 * f;
      ModOnce(v, f);
    } else {
      assert 0 <= v < f;
      ModOnce(v, f);
    }
  }

  /** Every value between l and u has the top bit they share. */
  lemma TopBitBetween(m: nat, l: nat, v: nat, u: nat)
    requires m >= 2 && l <= v <= u < Pow2(m) && E12(m, l, u)
    ensures TopBit(m, v) == TopBit(m, l) == TopBit(m, u)
  {
    MsbIsUpperHalf(l, m);
    MsbIsUpperHalf(v, m);
    MsbIsUpperHalf(u, m);
  }

  /** Bits written by an E1/E2 step: the common top bit b, then the scale3
      deferred bits, each the complement `b ^ 1`. */
  function ShiftOutBits(m: nat, c: Coder): (r: seq<int>)
    requires m >= 2 && c.l < Pow2(m)
    ensures |r| == 1 + c.scale3 && IsBits(r)
  {
    [Msb(c.l, m)] + Rep(1 - Msb(c.l, m), c.scale3)
  }

  /** The E1/E2 step `l = (l << 1) & mask`, `u = ((u << 1) | 1) & mask`, and
      scale3 reset to 0: the half holding [l, u] is blown up to the full range. */
  function ShiftOut(m: nat, c: Coder): (r: Coder)
    requires Bounded(m, c) && E12(m, c.l, c.u)
    ensures Bounded(m, r) && r.scale3 == 0
    ensures r.l == 2 * c.l - TopBit(m, c.l) && r.u == 2 * c.u + 1 - TopBit(m, c.l)
  {
    TopBitBetween(m, c.l, c.l, c.u);
    ShiftModTop(m, c.l, 0);
    ShiftModTop(m, c.u, 1);
    Coder((2 * c.l) % Pow2(m), (2 * c.u + 1) % Pow2(m), 0)
  }

  /** `((x + 2^(m-2)) << 1 | e) & mask` for x in the middle half [2^(m-2), 3 * 2^(m-2)). */
  lemma StraddleMod(m: nat, x: nat, e: int)
    requires m >= 2 && Quarter(m) <= x < 3 * Quarter(m) && (e == 0 || e == 1)
    ensures (2 * (x + Quarter(m)) + e) % Pow2(m) == 2 * x + e - Half(m)
  {
    PowersOfWidth(m);
    ModIs(2 * (x + Quarter(m)) + e, Pow2(m), 1);
  }

  /** The E3 step `l = ((l + 2^(m-2)) << 1) & mask`, likewise for u, and one more
      deferred bit: the middle half [2^(m-2), 3 * 2^(m-2)) is blown up. */
  function Straddle(m: nat, c: Coder): (r: Coder)
    requires Bounded(m, c) && E3(m, c.l, c.u)
    ensures Bounded(m, r) && r.scale3 == c.scale3 + 1
    ensures r.l == 2 * c.l - Half(m) && r.u == 2 * c.u + 1 - Half(m)
  {
    Classify(m, c.l, c.u);
    StraddleMod(m, c.l, 0);
    StraddleMod(m, c.u, 1);
    PowersOfWidth(m);
    Coder((2 * (c.l + Quarter(m))) % Pow2(m), (2 * (c.u + Quarter(m)) + 1) % Pow2(m), c.scale3 + 1)
  }

  /** A state and the bits written on the way to it. */
  datatype Emit = Emit(st: Coder, bits: seq<int>)

  /** The renormalisation loop of `encode`: E1/E2 steps write the common top
      bit and the deferred ones, E3 steps defer one more, until the interval is
      settled again. */
  function Renorm(m: nat, c: Coder): (r: Emit)
    requires Bounded(m, c)
    ensures Settled(m, r.st) && IsBits(r.bits)
    decreases Pow2(m) - (c.u - c.l)
  {
    if !NeedsRenorm(m, c.l, c.u) then
      Emit(c, [])
    else if E12(m, c.l, c.u) then
      var r := Renorm(m, ShiftOut(m, c));
      Emit(r.st, ShiftOutBits(m, c) + r.bits)
    else
      Renorm(m, Straddle(m, c))
  }

  /** The tag bits of `flush`: n further top bits of v, shifting v left each time. */
  function ShiftBits(m: nat, v: nat, n: nat): (r: seq<int>)
    requires m >= 1
    ensures |r| == n && IsBits(r)
    decreases n
  {
    if n == 0 then [] else [Msb(v, m)] + ShiftBits(m, (2 * v) % Pow2(m), n - 1)
  }

  /** `flush`: msb(l), then scale3 ones, then the remaining m - 1 bits of l. */
  function Flush(m: nat, c: Coder): (r: seq<int>)
    requires m >= 2
    ensures |r| == m + c.scale3 && IsBits(r)
  {
    [Msb(c.l, m)] + Rep(1, c.scale3) + ShiftBits(m, (2 * c.l) % Pow2(m), m - 1)
  }

  /** Everything the encoder writes from state c when it still has to code
      rest: the pending renormalisation, then each interval, then the flush. */
  function EncodeFrom(m: nat, c: Coder, rest: seq<Interval>): (r: seq<int>)
    requires Bounded(m, c) && AllValid(m, rest)
    ensures IsBits(r)
    decreases |rest|, Pow2(m) - (c.u - c.l)
  {
    if NeedsRenorm(m, c.l, c.u) then
      if E12(m, c.l, c.u) then ShiftOutBits(m, c) + EncodeFrom(m, ShiftOut(m, c), rest)
      else EncodeFrom(m, Straddle(m, c), rest)
    else if rest == [] then Flush(m, c)
    else EncodeFrom(m, Narrow(m, c, rest[0]), rest[1..])
  }

  /** The remaining output holds the m + scale3 flushed bits, and at least one
      more when a renormalisation step is pending. */
  lemma {:induction false} FromLength(m: nat, c: Coder, rest: seq<Interval>)
    requires Bounded(m, c) && AllValid(m, rest)
    ensures |EncodeFrom(m, c, rest)| >= m + c.scale3 + (if NeedsRenorm(m, c.l, c.u) then 1 else 0)
    decreases |rest|, Pow2(m) - (c.u - c.l)
  {
    if NeedsRenorm(m, c.l, c.u) {
      if E12(m, c.l, c.u) {
        FromLength(m, ShiftOut(m, c), rest);
      } else {
        FromLength(m, Straddle(m, c), rest);
      }
    } else if rest != [] {
      FromLength(m, Narrow(m, c, rest[0]), rest[1..]);
    }
  }

  /** The whole output for the intervals ivs, coded from the initial state. */
  function Encode(m: nat, ivs: seq<Interval>): (r: seq<int>)
    requires m >= 2 && AllValid(m, ivs)
    ensures |r| >= m && IsBits(r)
  {
    InitIsSettled(m);
    FromLength(m, Init(m), ivs);
    EncodeFrom(m, Init(m), ivs)
  }

  /** The renormalisation loop writes the front of the remaining output. */
  lemma {:induction false} RenormFrom(m: nat, c: Coder, rest: seq<Interval>)
    requires Bounded(m, c) && AllValid(m, rest)
    ensures EncodeFrom(m, c, rest) == Renorm(m, c).bits + EncodeFrom(m, Renorm(m, c).st, rest)
    decreases Pow2(m) - (c.u - c.l)
  {
    if NeedsRenorm(m, c.l, c.u) {
      if E12(m, c.l, c.u) {
        RenormFrom(m, ShiftOut(m, c), rest);
      } else {
        RenormFrom(m, Straddle(m, c), rest);
      }
    }
  }

  /** `encode(range_l, range_u, range_max)` on a settled state: narrow for
      the interval, then renormalise. */
  function CodeInterval(m: nat, c: Coder, iv: Interval): (r: Emit)
    requires Settled(m, c) && ValidInterval(m, iv)
    ensures Settled(m, r.st) && IsBits(r.bits)
  {
    Renorm(m, Narrow(m, c, iv))
  }

  /** From a settled state the encoder codes the next interval, then the
      others. */
  lemma NarrowFrom(m: nat, c: Coder, rest: seq<Interval>)
    requires Settled(m, c) && AllValid(m, rest) && rest != []
    ensures EncodeFrom(m, c, rest) ==
            CodeInterval(m, c, rest[0]).bits + EncodeFrom(m, CodeInterval(m, c, rest[0]).st, rest[1..])
  {
    RenormFrom(m, Narrow(m, c, rest[0]), rest[1..]);
  }

  /** Coding the first interval and then the rest, after output already
      written, is writing what EncodeFrom writes for all of them. */
  lemma CodeStep(m: nat, c: Coder, iv: Interval, rest: seq<Interval>, written: seq<int>)
    requires Settled(m, c) && AllValid(m, [iv] + rest)
    ensures ValidInterval(m, iv) && AllValid(m, rest)
    ensures var e := CodeInterval(m, c, iv);
            written + e.bits + EncodeFrom(m, e.st, rest) == written + EncodeFrom(m, c, [iv] + rest)
  {
    var all := [iv] + rest;
    assert all[0] == iv && all[1..] == rest;
    assert forall i :: 0 <= i < |rest| ==> rest[i] == all[i + 1];
    NarrowFrom(m, c, all);
    var e := CodeInterval(m, c, iv);
    var tail := EncodeFrom(m, e.st, rest);
    assert (written + e.bits) + tail == written + (e.bits + tail);
  }

  lemma {:induction false} ShiftBitsOfZero(m: nat, n: nat)
    requires m >= 1
    ensures ShiftBits(m, 0, n) == Rep(0, n)
  {
    if n > 0 {
      ModIs(2 * 0, Pow2(m), 0);
      ShiftBitsOfZero(m, n - 1);
      GetBitOfZero(m - 1);
      assert Rep(0, n) == [0] + Rep(0, n - 1);
    }
  }

  /** Flushing the initial state writes m zero bits. */
  lemma FlushInit(m: nat)
    requires m >= 2
    ensures Flush(m, Init(m)) == Rep(0, m)
  {
    GetBitOfZero(m - 1);
    ModIs(2 * 0, Pow2(m), 0);
    ShiftBitsOfZero(m, m - 1);
    var r := Flush(m, Init(m));
    assert r == [0] + Rep(1, 0) + Rep(0, m - 1);
    assert forall i :: 0 <= i < m ==> r[i] == 0;
  }

  /** Nothing to code: the output is m zero bits. */
  lemma EncodeEmpty(m: nat)
    requires m >= 2
    ensures Encode(m, []) == Rep(0, m)
  {
    InitIsSettled(m);
    assert !NeedsRenorm(m, Init(m).l, Init(m).u);
    FlushInit(m);
  }

  // ----- decoder -----

  /** State of the decoder: the interval [l, u], the tag t and the read cursor. */
  datatype DecState = DecState(l: nat, u: nat, t: nat, pos: nat)

  /** The decoder's tag always lies inside its interval. */
  predicate DecValid(m: nat, d: DecState)
  {
    m >= 2 && d.l <= d.t <= d.u < Pow2(m)
  }

  function Min(a: int, b: int): int
  {
    if a <= b then a else b
  }

  /** `start`: the first m bits read MSB first into t, cursor at m. */
  function Start(m: nat, bits: seq<int>): (r: DecState)
    requires m >= 2 && IsBits(bits)
    ensures DecValid(m, r) && r.pos == m && r.l == Init(m).l && r.u == Init(m).u
  {
    var first := bits[..Min(m, |bits|)];
    BitsToIntRange(first);
    Pow2Monotone(|first|, m);
    DecState(0, Pow2(m) - 1, BitsToInt(first), m)
  }

  /** `C = floor(((t - l + 1) * range_max - 1) / (u - l + 1))`. */
  function Target(d: DecState, total: nat): (r: int)
    requires d.l <= d.t <= d.u && total > 0
    ensures 0 <= r < total
  {
    var w := d.u - d.l + 1;
    var y := (d.t - d.l + 1) * total - 1;
    TargetRange(d.t - d.l, w, total);
    y / w
  }

  lemma TargetRange(a: int, w: int, total: int)
    requires 0 <= a < w && total > 0
    ensures 0 <= ((a + 1) * total - 1) / w < total
  {
    var y := (a + 1) * total - 1;
    MulMono(total, 1, a + 1);
    MulMono(total, a + 1, w);
    assert total * (a + 1) == (a + 1) * total;
    FloorAbove(y, w, 0);
    FloorBelow(y, w, total - 1);
    assert (total - 1 + 1) * w == total * w;
  }

  /** The heart of decoding: t lies in the sub-interval the encoder would pick
      for [lo, hi) exactly when C lies in [lo, hi). */
  lemma TargetSelects(d: DecState, lo: int, hi: int, total: nat)
    requires d.l <= d.t <= d.u && total > 0
    ensures NarrowLow(d.l, d.u, lo, total) <= d.t <==> lo <= Target(d, total)
    ensures d.t <= NarrowHigh(d.l, d.u, hi, total) <==> Target(d, total) < hi
  {
    var w := d.u - d.l + 1;
    var a := d.t - d.l;
    var y := (a + 1) * total - 1;
    FloorBelow(w * lo, total, a);
    FloorAbove(y, w, lo);
    assert lo * w == w * lo;
    FloorAbove(w * hi, total, a + 1);
    FloorBelow(y, w, hi - 1);
    assert (hi - 1 + 1) * w == w * hi;
  }

  /** The decoder's narrowing: the same formula as the encoder's, t and the
      cursor unchanged.  Narrowing to an interval that holds C keeps the tag
      inside. */
  function NarrowDec(m: nat, d: DecState, iv: Interval): (r: DecState)
    requires DecValid(m, d) && iv.total > 0
    requires iv.lo <= Target(d, iv.total) < iv.hi <= iv.total
    ensures DecValid(m, r) && r.t == d.t && r.pos == d.pos
  {
    TargetSelects(d, iv.lo, iv.hi, iv.total);
    NarrowStaysInside(d.l, d.u, iv.lo, iv.hi, iv.total);
    DecState(NarrowLow(d.l, d.u, iv.lo, iv.total), NarrowHigh(d.l, d.u, iv.hi, iv.total), d.t, d.pos)
  }

  /** One step of `decode_stream`: the E1/E2 or E3 transition of l and u, and t
      shifted the same way with the next input bit appended. */
  function DecStep(m: nat, d: DecState, bits: seq<int>): (r: DecState)
    requires DecValid(m, d) && NeedsRenorm(m, d.l, d.u) && d.pos < |bits| && IsBit(bits[d.pos])
    ensures DecValid(m, r) && r.pos == d.pos + 1
    ensures E12(m, d.l, d.u) ==>
      var top := TopBit(m, d.l);
      r.l == 2 * d.l - top && r.u == 2 * d.u + 1 - top && r.t == 2 * d.t - top + bits[d.pos]
    ensures !E12(m, d.l, d.u) ==>
      r.l == 2 * d.l - Half(m) && r.u == 2 * d.u + 1 - Half(m) && r.t == 2 * d.t - Half(m) + bits[d.pos]
  {
    var c := Coder(d.l, d.u, 0);
    Classify(m, d.l, d.u);
    if E12(m, d.l, d.u) then
      var c1 := ShiftOut(m, c);
      TopBitBetween(m, d.l, d.t, d.u);
      ShiftModTop(m, d.t, bits[d.pos]);
      DecState(c1.l, c1.u, (2 * d.t + bits[d.pos]) % Pow2(m), d.pos + 1)
    else
      var c1 := Straddle(m, c);
      StraddleMod(m, d.t, bits[d.pos]);
      DecState(c1.l, c1.u, (2 * (d.t + Quarter(m)) + bits[d.pos]) % Pow2(m), d.pos + 1)
  }

  /** The loop of `decode_stream`: None when it reads past the end of the input
      (an IndexError), and an early stop right after the last bit is read. */
  function DecRenorm(m: nat, d: DecState, bits: seq<int>): (r: Option<DecState>)
    requires DecValid(m, d) && IsBits(bits)
    ensures r.Some? ==> DecValid(m, r.value) && r.value.pos >= d.pos
    ensures r.Some? && r.value.pos != |bits| ==> !NeedsRenorm(m, r.value.l, r.value.u)
    decreases |bits| - d.pos
  {
    if !NeedsRenorm(m, d.l, d.u) then
      Some(d)
    else if d.pos >= |bits| then
      None
    else
      var d1 := DecStep(m, d, bits);
      if d1.pos == |bits| then Some(d1) else DecRenorm(m, d1, bits)
  }
}
