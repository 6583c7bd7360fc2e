/** Why the decoder of the m-bit arithmetic coder recovers what the encoder
    coded.  The bits the encoder has still to write from a state (l, u, scale3)
    read as a binary fraction, scaled back through the scale3 pending E3
    expansions, always lie in [l, u + 1); the decoder's tag t is the integer part
    of that value, so t stays in the same interval as the encoder's, and C picks
    exactly the interval the encoder coded.  These lemmas are the steps both
    decoders (artihmetic.py and ppm.py) take: start, narrow, renormalise. */
module CoderTheory {
  import opened Bits
  import opened Wrappers
  import opened ArithCoder

  /** f times the bit list b read as the binary fraction 0.b[0]b[1]... */
  ghost function Scaled(f: int, b: seq<int>): real
  {
    if b == [] then 0.0 else ((if b[0] == 1 then f as real else 0.0) + Scaled(f, b[1..])) / 2.0
  }

  /** The bit list b read as the binary fraction 0.b[0]b[1]... */
  ghost function Frac(b: seq<int>): real
  {
    Scaled(1, b)
  }

  lemma ScaledCons(f: int, b: int, rest: seq<int>)
    ensures Scaled(f, [b] + rest) == ((if b == 1 then f as real else 0.0) + Scaled(f, rest)) / 2.0
  {
    assert ([b] + rest)[1..] == rest;
  }

  lemma {:induction false} ScaledDouble(f: int, b: seq<int>)
    ensures Scaled(2 * f, b) == 2.0 * Scaled(f, b)
  {
    if b != [] {
      ScaledDouble(f, b[1..]);
    }
  }

  lemma {:induction false} FracRange(b: seq<int>)
    ensures 0.0 <= Frac(b) < 1.0
  {
    if b != [] {
      FracRange(b[1..]);
    }
  }

  /** The value of the bits b, seen from a state with k pending E3 expansions:
      each expansion maps x to 2x - 2^(m-1). */
  ghost function Value(m: nat, k: nat, b: seq<int>): real
    requires m >= 2
  {
    if k == 0 then Scaled(Pow2(m), b) else 2.0 * Value(m, k - 1, b) - Half(m) as real
  }

  /** An E1/E2 step writes b and k copies of 1 - b; seen with the k pending
      expansions, these are worth just the bit b in the top half. */
  lemma {:induction false} DeferredBits(m: nat, k: nat, b: int, rest: seq<int>)
    requires m >= 2 && IsBit(b)
    ensures Value(m, k, [b] + Rep(1 - b, k) + rest) ==
            (if b == 1 then Half(m) as real else 0.0) + Scaled(Pow2(m), rest) / 2.0
  {
    PowersOfWidth(m);
    if k == 0 {
      assert [b] + Rep(1 - b, 0) + rest == [b] + rest;
      ScaledCons(Pow2(m), b, rest);
    } else {
      var rest1 := [1 - b] + rest;
      assert [b] + Rep(1 - b, k) + rest == [b] + Rep(1 - b, k - 1) + rest1;
      DeferredBits(m, k - 1, b, rest1);
      ScaledCons(Pow2(m), 1 - b, rest);
    }
  }

  /** Shifting the top bit out of v = a * 2^(m-n) leaves a multiple of 2^(m-n+1). */
  lemma ShiftAligned(m: nat, v: nat, n: nat, a: int, top: int)
    requires 1 <= n <= m && v == a * Pow2(m - n)
    requires top == 0 || top == Pow2(m)
    ensures 2 * v - top == (a - (if top == 0 then 0 else Pow2(n - 1))) * Pow2(m - n + 1)
  {
    var p := Pow2(m - n + 1);
    Pow2Add(n - 1, m - n + 1);
    assert p == 2 * Pow2(m - n);
    assert 2 * v == a * p;
    if top != 0 {
      assert (a - Pow2(n - 1)) * p == a * p - Pow2(n - 1) * p;
    }
  }

  /** The n tag bits `flush` takes from v = a * 2^(m-n), scaled by 2^m, are worth v. */
  lemma {:induction false} ShiftBitsValue(m: nat, v: nat, n: nat, a: int)
    requires m >= 1 && n <= m && v < Pow2(m) && v == a * Pow2(m - n)
    ensures Scaled(Pow2(m), ShiftBits(m, v, n)) == v as real
    decreases n
  {
    var f := Pow2(m);
    if n == 0 {
      MulAtLeast(a, f);
      assert v == 0;
    } else {
      var top := TopBit(m, v);
      ShiftModTop(m, v, 0);
      var v1 := (2 * v) % f;
      ShiftAligned(m, v, n, a, top);
      ShiftBitsValue(m, v1, n - 1, a - (if top == 0 then 0 else Pow2(n - 1)));
      var rest := ShiftBits(m, v1, n - 1);
      assert ShiftBits(m, v, n) == [Msb(v, m)] + rest;
      ScaledCons(f, Msb(v, m), rest);
    }
  }

  /** The flushed bits, seen from the flushed state, are worth exactly l. */
  lemma FlushValue(m: nat, c: Coder)
    requires Settled(m, c)
    ensures Value(m, c.scale3, Flush(m, c)) == c.l as real
  {
    SettledIsWide(m, c);
    PowersOfWidth(m);
    MsbIsUpperHalf(c.l, m);
    ShiftModTop(m, c.l, 0);
    assert Pow2(m - (m - 1)) == 2;
    ShiftBitsValue(m, 2 * c.l, m - 1, c.l);
    DeferredBits(m, c.scale3, 0, ShiftBits(m, 2 * c.l, m - 1));
  }

  /** An E1/E2 step keeps the bracket: the written bits map [l', u' + 1) of the
      state after the step back onto [l, u + 1). */
  lemma BracketShiftOut(m: nat, c: Coder, r: seq<int>)
    requires Bounded(m, c) && E12(m, c.l, c.u)
    requires ShiftOut(m, c).l as real <= Scaled(Pow2(m), r) < ShiftOut(m, c).u as real + 1.0
    ensures c.l as real <= Value(m, c.scale3, ShiftOutBits(m, c) + r) < c.u as real + 1.0
  {
    PowersOfWidth(m);
    var b := Msb(c.l, m);
    DeferredBits(m, c.scale3, b, r);
    assert ShiftOutBits(m, c) + r == [b] + Rep(1 - b, c.scale3) + r;
  }

  /** The remaining output, read from state c, lies in [l, u + 1). */
  lemma {:induction false} Bracket(m: nat, c: Coder, rest: seq<Interval>)
    requires Bounded(m, c) && AllValid(m, rest)
    ensures c.l as real <= Value(m, c.scale3, EncodeFrom(m, c, rest)) < c.u as real + 1.0
    decreases |rest|, Pow2(m) - (c.u - c.l)
  {
    if NeedsRenorm(m, c.l, c.u) {
      if E12(m, c.l, c.u) {
        var c1 := ShiftOut(m, c);
        Bracket(m, c1, rest);
        BracketShiftOut(m, c, EncodeFrom(m, c1, rest));
      } else {
        Bracket(m, Straddle(m, c), rest);
      }
    } else if rest == [] {
      FlushValue(m, c);
    } else {
      Bracket(m, Narrow(m, c, rest[0]), rest[1..]);
    }
  }

  /** Reading n bits MSB first into an integer leaves the rest as a fraction. */
  lemma {:induction false} PrefixValue(b: seq<int>, n: nat)
    requires n <= |b| && IsBits(b)
    ensures Scaled(Pow2(n), b) == BitsToInt(b[..n]) as real + Frac(b[n..])
  {
    if n == 0 {
      assert b[..0] == [] && b[0..] == b;
    } else {
      var b1 := b[1..];
      PrefixValue(b1, n - 1);
      ScaledDouble(Pow2(n - 1), b1);
      assert b == [b[0]] + b1;
      ScaledCons(Pow2(n), b[0], b1);
      BitsToIntHead(b[..n]);
      assert b[..n][1..] == b1[..n - 1];
      assert b1[n - 1..] == b[n..];
      if b[0] == 1 {
        assert b[..n][0] * Pow2(n - 1) == Pow2(n - 1);
      } else {
        assert b[..n][0] * Pow2(n - 1) == 0;
      }
    }
  }

  /** The decoder state d mirrors the encoder state c: the encoder has written
      n bits of fin, the rest of fin is what it will still write, the decoder
      has the same interval, has read m + n + scale3 bits, and its tag plus the
      unread bits as a fraction equals the value of the encoder's remaining
      output. */
  ghost predicate Sync(m: nat, c: Coder, rest: seq<Interval>, n: nat, d: DecState, fin: seq<int>)
  {
    && Bounded(m, c) && AllValid(m, rest) && IsBits(fin)
    && n <= |fin| && fin[n..] == EncodeFrom(m, c, rest)
    && d.l == c.l && d.u == c.u && d.pos == m + n + c.scale3 && d.pos <= |fin|
    && DecValid(m, d)
    && d.t as real + Frac(fin[d.pos..]) == Value(m, c.scale3, fin[n..])
  }

  /** The tag is the integer part of the value, so it lies in [l, u]. */
  lemma TagInside(m: nat, c: Coder, rest: seq<Interval>, n: nat, t: int, pos: nat, fin: seq<int>)
    requires Bounded(m, c) && AllValid(m, rest) && IsBits(fin)
    requires n <= |fin| && fin[n..] == EncodeFrom(m, c, rest) && pos <= |fin|
    requires t as real + Frac(fin[pos..]) == Value(m, c.scale3, fin[n..])
    ensures c.l <= t <= c.u
  {
    Bracket(m, c, rest);
    FracRange(fin[pos..]);
  }

  /** Sync holds once its parts do; the tag's place in [l, u] follows. */
  lemma SyncIntro(m: nat, c: Coder, rest: seq<Interval>, n: nat, d: DecState, fin: seq<int>)
    requires Bounded(m, c) && AllValid(m, rest) && IsBits(fin)
    requires n <= |fin| && fin[n..] == EncodeFrom(m, c, rest)
    requires d.l == c.l && d.u == c.u && d.pos == m + n + c.scale3 && d.pos <= |fin|
    requires d.t as real + Frac(fin[d.pos..]) == Value(m, c.scale3, fin[n..])
    ensures Sync(m, c, rest, n, d, fin)
  {
    TagInside(m, c, rest, n, d.t, d.pos, fin);
  }

  /** `start` puts the decoder in step with the initial encoder. */
  lemma SyncStart(m: nat, ivs: seq<Interval>)
    requires m >= 2 && AllValid(m, ivs)
    ensures Sync(m, Init(m), ivs, 0, Start(m, Encode(m, ivs)), Encode(m, ivs))
  {
    var fin := Encode(m, ivs);
    InitIsSettled(m);
    FromLength(m, Init(m), ivs);
    PrefixValue(fin, m);
    assert fin[0..] == fin;
  }

  /** Narrowing: C falls in the coded interval, and after both sides narrow
      they are still in step. */
  lemma SyncNarrow(m: nat, c: Coder, rest: seq<Interval>, n: nat, d: DecState, fin: seq<int>)
    requires Sync(m, c, rest, n, d, fin) && Settled(m, c) && rest != []
    ensures rest[0].lo <= Target(d, rest[0].total) < rest[0].hi
    ensures Sync(m, Narrow(m, c, rest[0]), rest[1..], n, NarrowDec(m, d, rest[0]), fin)
  {
    var iv := rest[0];
    var c1 := Narrow(m, c, iv);
    TagInside(m, c1, rest[1..], n, d.t, d.pos, fin);
    TargetSelects(d, iv.lo, iv.hi, iv.total);
  }

  /** After an E1/E2 step the encoder has written 1 + scale3 more bits of fin. */
  lemma ShiftOutSuffix(m: nat, c: Coder, rest: seq<Interval>, n: nat, fin: seq<int>)
    requires Bounded(m, c) && AllValid(m, rest) && E12(m, c.l, c.u)
    requires n <= |fin| && fin[n..] == EncodeFrom(m, c, rest)
    ensures n + 1 + c.scale3 <= |fin|
    ensures fin[n + 1 + c.scale3..] == EncodeFrom(m, ShiftOut(m, c), rest)
    ensures Value(m, c.scale3, fin[n..]) ==
            TopBit(m, c.l) as real / 2.0 + Scaled(Pow2(m), fin[n + 1 + c.scale3..]) / 2.0
  {
    var b := Msb(c.l, m);
    var r := EncodeFrom(m, ShiftOut(m, c), rest);
    assert fin[n..] == [b] + Rep(1 - b, c.scale3) + r;
    assert fin[n + 1 + c.scale3..] == fin[n..][1 + c.scale3..];
    DeferredBits(m, c.scale3, b, r);
    PowersOfWidth(m);
  }

  /** Reading one more bit of the input. */
  lemma FracStep(b: seq<int>, pos: nat)
    requires pos < |b|
    ensures Frac(b[pos..]) == ((if b[pos] == 1 then 1.0 else 0.0) + Frac(b[pos + 1..])) / 2.0
  {
    assert b[pos..] == [b[pos]] + b[pos + 1..];
    ScaledCons(1, b[pos], b[pos + 1..]);
  }

  /** The tag arithmetic of an E1/E2 step: t + 0.bit f1 equals top / 2 + S / 2,
      so the shifted tag 2t - top + bit plus f1 equals S. */
  lemma ShiftOutTag(t: int, bit: int, f1: real, top: int, s: real)
    requires bit == 0 || bit == 1
    requires t as real + ((if bit == 1 then 1.0 else 0.0) + f1) / 2.0 == top as real / 2.0 + s / 2.0
    ensures (2 * t - top + bit) as real + f1 == s
  {
  }

  /** The decoder's E1/E2 step keeps it in step with the encoder's. */
  lemma StepSyncShiftOut(m: nat, c: Coder, rest: seq<Interval>, n: nat, d: DecState, fin: seq<int>)
    requires Sync(m, c, rest, n, d, fin) && E12(m, c.l, c.u) && d.pos < |fin|
    ensures Sync(m, ShiftOut(m, c), rest, n + 1 + c.scale3, DecStep(m, d, fin), fin)
  {
    var pos := d.pos;
    var n1 := n + 1 + c.scale3;
    var c1 := ShiftOut(m, c);
    var d1 := DecStep(m, d, fin);
    var top := TopBit(m, c.l);
    ShiftOutSuffix(m, c, rest, n, fin);
    FracStep(fin, pos);
    ShiftOutTag(d.t, fin[pos], Frac(fin[pos + 1..]), top, Scaled(Pow2(m), fin[n1..]));
    assert d1.t == 2 * d.t - top + fin[pos];
    assert d1.l == c1.l && d1.u == c1.u && d1.pos == pos + 1;
    assert Value(m, c1.scale3, fin[n1..]) == Scaled(Pow2(m), fin[n1..]);
    assert d1.t as real + Frac(fin[d1.pos..]) == Value(m, c1.scale3, fin[n1..]);
    assert d1.pos == m + n1 + c1.scale3 && d1.pos <= |fin|;
    assert fin[n1..] == EncodeFrom(m, c1, rest);
    SyncIntro(m, c1, rest, n1, d1, fin);
  }

  /** The decoder's E3 step keeps it in step with the encoder's. */
  lemma StepSyncStraddle(m: nat, c: Coder, rest: seq<Interval>, n: nat, d: DecState, fin: seq<int>)
    requires Sync(m, c, rest, n, d, fin) && E3(m, c.l, c.u) && d.pos < |fin|
    ensures Sync(m, Straddle(m, c), rest, n, DecStep(m, d, fin), fin)
  {
    Classify(m, c.l, c.u);
    var pos := d.pos;
    var c1 := Straddle(m, c);
    var d1 := DecStep(m, d, fin);
    FracStep(fin, pos);
    assert d1.t == 2 * d.t - Half(m) + fin[pos];
    assert d1.l == c1.l && d1.u == c1.u && d1.pos == pos + 1;
    assert Value(m, c1.scale3, fin[n..]) == 2.0 * Value(m, c.scale3, fin[n..]) - Half(m) as real;
    SyncIntro(m, c1, rest, n, d1, fin);
  }

  /** One renormalisation step on both sides keeps them in step. */
  lemma StepSync(m: nat, c: Coder, rest: seq<Interval>, n: nat, d: DecState, fin: seq<int>)
    returns (c1: Coder, n1: nat)
    requires Sync(m, c, rest, n, d, fin) && NeedsRenorm(m, c.l, c.u)
    ensures d.pos < |fin|
    ensures c1 == (if E12(m, c.l, c.u) then ShiftOut(m, c) else Straddle(m, c))
    ensures n1 == n + (if E12(m, c.l, c.u) then 1 + c.scale3 else 0)
    ensures Sync(m, c1, rest, n1, DecStep(m, d, fin), fin)
  {
    FromLength(m, c, rest);
    if E12(m, c.l, c.u) {
      c1 := ShiftOut(m, c);
      n1 := n + 1 + c.scale3;
      StepSyncShiftOut(m, c, rest, n, d, fin);
    } else {
      c1 := Straddle(m, c);
      n1 := n;
      StepSyncStraddle(m, c, rest, n, d, fin);
    }
  }

  /** `decode_stream`: the decoder's renormalisation loop reads exactly the
      bits the encoder's wrote and deferred, never runs off the end, and stops
      in step with the encoder. */
  lemma {:induction false} SyncRenorm(m: nat, c: Coder, rest: seq<Interval>, n: nat, d: DecState, fin: seq<int>)
    requires Sync(m, c, rest, n, d, fin)
    ensures DecRenorm(m, d, fin).Some?
    ensures Sync(m, Renorm(m, c).st, rest, n + |Renorm(m, c).bits|, DecRenorm(m, d, fin).value, fin)
    decreases Pow2(m) - (c.u - c.l)
  {
    if NeedsRenorm(m, c.l, c.u) {
      var c1, n1 := StepSync(m, c, rest, n, d, fin);
      var d1 := DecStep(m, d, fin);
      if d1.pos == |fin| {
        FromLength(m, c1, rest);
        assert Renorm(m, c1) == Emit(c1, []);
      } else {
        SyncRenorm(m, c1, rest, n1, d1, fin);
      }
    }
  }
}
