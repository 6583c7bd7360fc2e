/** The loops shared by the static coder of artihmetic.py and the coder
    classes of ppm.py: the encoder's renormalisation and flush, and the
    decoder's renormalisation.  Each is proved equal to its specification
    function in ArithCoder. */
module CoderLoops {
  import opened Bits
  import opened Wrappers
  import opened ArithCoder

  /** One symbol of the encoder: narrow [l, u] to the interval
      [range_l, range_u) out of range_max, then renormalise. */
  method NarrowAndRenormalise(m: nat, l0: nat, u0: nat, s0: nat, rangeL: nat, rangeU: nat, rangeMax: nat)
    returns (bits: seq<int>, l: nat, u: nat, scale3: nat)
    requires Settled(m, Coder(l0, u0, s0)) && ValidInterval(m, Interval(rangeL, rangeU, rangeMax))
    ensures CodeInterval(m, Coder(l0, u0, s0), Interval(rangeL, rangeU, rangeMax)) == Emit(Coder(l, u, scale3), bits)
  {
    ghost var c1 := Narrow(m, Coder(l0, u0, s0), Interval(rangeL, rangeU, rangeMax));
    var l1 := l0 + (u0 - l0 + 1) * rangeL / rangeMax;
    var u1 := l0 + (u0 - l0 + 1) * rangeU / rangeMax - 1;
    assert l1 == c1.l && u1 == c1.u;
    bits, l, u, scale3 := Renormalise(m, l1, u1, s0);
  }

  /** The renormalisation loop of the encoder: while msb(l) == msb(u) or the E3
      flag is set, shift out the common bit followed by the deferred ones, or
      record one more deferred bit.  The flag is recomputed only at the end of
      an iteration; it is still exact, because an E1/E2 step is taken only when
      E3 does not hold. */
  method Renormalise(m: nat, l0: nat, u0: nat, s0: nat) returns (bits: seq<int>, l: nat, u: nat, scale3: nat)
    requires Bounded(m, Coder(l0, u0, s0))
    ensures Renorm(m, Coder(l0, u0, s0)) == Emit(Coder(l, u, scale3), bits)
  {
    ghost var goal := Renorm(m, Coder(l0, u0, s0));
    bits, l, u, scale3 := [], l0, u0, s0;
    PowersOfWidth(m);
    var e3 := GetBit(l, m - 2) == 1 && GetBit(u, m - 2) == 0;
    while Msb(l, m) == Msb(u, m) || e3
      invariant Bounded(m, Coder(l, u, scale3)) && e3 == E3(m, l, u)
      invariant goal.st == Renorm(m, Coder(l, u, scale3)).st
      invariant goal.bits == bits + Renorm(m, Coder(l, u, scale3)).bits
      decreases Pow2(m) - (u - l)
    {
      Classify(m, l, u);
      if Msb(l, m) == Msb(u, m) {
        ghost var b0 := bits;
        var written;
        written, l, u := ShiftOutStep(m, l, u, scale3);
        bits := bits + written;
        scale3 := 0;
        assert goal.bits == b0 + (written + Renorm(m, Coder(l, u, scale3)).bits);
      }
      if e3 {
        ghost var c := Coder(l, u, scale3);
        l := l + Pow2(m - 2);
        l := (2 * l) % Pow2(m);
        u := u + Pow2(m - 2);
        u := (2 * u + 1) % Pow2(m);
        scale3 := scale3 + 1;
        assert Coder(l, u, scale3) == Straddle(m, c);
        assert goal.bits == bits + Renorm(m, Coder(l, u, scale3)).bits;
      }
      e3 := GetBit(l, m - 2) == 1 && GetBit(u, m - 2) == 0;
    }
  }

  /** One E1/E2 step of the renormalisation loop: write the common top bit b,
      shift l and u left (a 1 enters u), then write the scale3 deferred bits,
      each `b ^ 1`.  Together these are the first bits of the remaining
      renormalisation output. */
  method ShiftOutStep(m: nat, l0: nat, u0: nat, scale3: nat) returns (written: seq<int>, l: nat, u: nat)
    requires Bounded(m, Coder(l0, u0, scale3)) && E12(m, l0, u0)
    ensures Coder(l, u, 0) == ShiftOut(m, Coder(l0, u0, scale3))
    ensures written == ShiftOutBits(m, Coder(l0, u0, scale3))
    ensures Renorm(m, Coder(l0, u0, scale3)).bits == written + Renorm(m, Coder(l, u, 0)).bits
    ensures Renorm(m, Coder(l0, u0, scale3)).st == Renorm(m, Coder(l, u, 0)).st
  {
    var b := Msb(l0, m);
    written := [b];
    l := (2 * l0) % Pow2(m);
    u := (2 * u0 + 1) % Pow2(m);
    written := AppendDeferred(written, 1 - b, scale3);
  }

  /** The `while scale3 > 0` loop of an E1/E2 step: the deferred bits, each
      the complement of the bit just written, appended one at a time. */
  method AppendDeferred(bits: seq<int>, nb: int, scale3: nat) returns (r: seq<int>)
    ensures r == bits + Rep(nb, scale3)
  {
    r := bits;
    var k := scale3;
    while k > 0
      invariant r + Rep(nb, k) == bits + Rep(nb, scale3)
    {
      assert Rep(nb, k) == [nb] + Rep(nb, k - 1);
      r := r + [nb];
      k := k - 1;
    }
  }

  /** The end of the encoder: msb(l), then the scale3 deferred ones, then the
      remaining m - 1 bits of l, most significant first. */
  method FlushTag(m: nat, l0: nat, u: nat, s0: nat) returns (result: seq<int>)
    requires m >= 2
    ensures result == Flush(m, Coder(l0, u, s0))
  {
    result := [Msb(l0, m)];
    var l: nat := (2 * l0) % Pow2(m);
    var tagBits := 1;
    var scale3 := s0;
    while scale3 > 0
      invariant result + Rep(1, scale3) == [Msb(l0, m)] + Rep(1, s0)
    {
      assert Rep(1, scale3) == [1] + Rep(1, scale3 - 1);
      result := result + [1];
      scale3 := scale3 - 1;
    }
    while tagBits < m
      invariant 1 <= tagBits <= m
      invariant result + ShiftBits(m, l, m - tagBits) == Flush(m, Coder(l0, u, s0))
    {
      result := result + [Msb(l, m)];
      l := (2 * l) % Pow2(m);
      tagBits := tagBits + 1;
    }
  }

  /** The renormalisation loop of the decoder: the encoder's steps on l and u, with
      t shifted alike and the next input bit appended.  ok is false where the
      source raises IndexError (a bit is needed past the end of the input); the
      loop stops early right after the last bit is read. */
  method DecRenormalise(m: nat, bits: seq<int>, l0: nat, u0: nat, t0: nat, pos0: nat)
    returns (ok: bool, l: nat, u: nat, t: nat, index: nat)
    requires DecValid(m, DecState(l0, u0, t0, pos0)) && IsBits(bits)
    ensures ok == DecRenorm(m, DecState(l0, u0, t0, pos0), bits).Some?
    ensures ok ==> DecRenorm(m, DecState(l0, u0, t0, pos0), bits).value == DecState(l, u, t, index)
  {
    ghost var goal := DecRenorm(m, DecState(l0, u0, t0, pos0), bits);
    l, u, t, index := l0, u0, t0, pos0;
    PowersOfWidth(m);
    var e3 := GetBit(l, m - 2) == 1 && GetBit(u, m - 2) == 0;
    while Msb(l, m) == Msb(u, m) || e3
      invariant DecValid(m, DecState(l, u, t, index)) && e3 == E3(m, l, u)
      invariant DecRenorm(m, DecState(l, u, t, index), bits) == goal
      decreases |bits| - index
    {
      Classify(m, l, u);
      if index >= |bits| {
        return false, l, u, t, index;
      }
      ghost var d := DecState(l, u, t, index);
      if Msb(l, m) == Msb(u, m) {
        l, u, t := ShiftOutDec(m, l, u, t, bits[index]);
        index := index + 1;
        assert DecState(l, u, t, index) == DecStep(m, d, bits);
        if index == |bits| {
          break;
        }
      }
      if e3 {
        l, u, t := StraddleDec(m, l, u, t, bits[index]);
        index := index + 1;
        assert DecState(l, u, t, index) == DecStep(m, d, bits);
        if index == |bits| {
          break;
        }
      }
      e3 := GetBit(l, m - 2) == 1 && GetBit(u, m - 2) == 0;
    }
    ok := true;
  }

  /** The E1/E2 step of the decoder: l, u and t shifted left and masked, and t
      takes the next bit in its lowest place (`t |= bit` adds it, t being even
      after the shift).  All three lose the top bit they share. */
  method ShiftOutDec(m: nat, l0: nat, u0: nat, t0: nat, bit: int) returns (l: nat, u: nat, t: nat)
    requires DecValid(m, DecState(l0, u0, t0, 0)) && E12(m, l0, u0) && IsBit(bit)
    ensures l == 2 * l0 - TopBit(m, l0) && u == 2 * u0 + 1 - TopBit(m, l0)
    ensures t == 2 * t0 - TopBit(m, l0) + bit
  {
    TopBitBetween(m, l0, t0, u0);
    ShiftModTop(m, l0, 0);
    ShiftModTop(m, u0, 1);
    ShiftModTop(m, t0, 0);
    l := (2 * l0) % Pow2(m);
    u := (2 * u0 + 1) % Pow2(m);
    t := (2 * t0) % Pow2(m);
    t := t + bit;
  }

  /** The E3 step of the decoder: l, u and t moved up by a quarter, then shifted
      left and masked, t taking the next bit. */
  method StraddleDec(m: nat, l0: nat, u0: nat, t0: nat, bit: int) returns (l: nat, u: nat, t: nat)
    requires DecValid(m, DecState(l0, u0, t0, 0)) && E3(m, l0, u0) && IsBit(bit)
    ensures l == 2 * l0 - Half(m) && u == 2 * u0 + 1 - Half(m)
    ensures t == 2 * t0 - Half(m) + bit
  {
    ClassifyE3(m, l0, u0);
    StraddleMod(m, l0, 0);
    StraddleMod(m, u0, 1);
    StraddleMod(m, t0, 0);
    l := l0 + Pow2(m - 2);
    l := (2 * l) % Pow2(m);
    u := u0 + Pow2(m - 2);
    u := (2 * u + 1) % Pow2(m);
    t := t0 + Pow2(m - 2);
    t := (2 * t) % Pow2(m);
    t := t + bit;
  }

  /** C does not depend on the read cursor. */
  lemma TargetIgnoresCursor(d: DecState, pos: nat, total: nat)
    requires d.l <= d.t <= d.u && total > 0
    ensures Target(d.(pos := pos), total) == Target(d, total)
  {
  }
}
