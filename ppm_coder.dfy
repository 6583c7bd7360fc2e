/** The two coder classes of ppm.py (ppm.py:62-290): `ArithmeticEncoder` and
    `ArithmeticDecoder`, objects whose fields l, u, scale3, result, t and
    sequence_index change in place.  Each method is proved against the
    functions of ArithCoder; the scan of `decode_symbol` over a table of
    counts is specified by FindActive. */
module PpmCoder {
  import opened Bits
  import opened Wrappers
  import opened ArithCoder
  import opened CoderLoops
  import opened CountTable

  // ----- the scan of `decode_symbol` -----

  /** The first symbol from `from` on that is active and whose cumulative count
      exceeds C, or |c| (the escape index) when there is none.  Starting where
      every earlier cumulative count is at most C, the symbol found is the one
      whose interval [cum - count, cum) holds C. */
  function FindActive(c: seq<nat>, C: int, from: nat): (r: nat)
    requires from <= |c| && CumCount(c, from - 1) <= C
    ensures from <= r <= |c|
    ensures r < |c| ==> c[r] > 0 && CumCount(c, r) - c[r] <= C < CumCount(c, r)
    ensures r == |c| ==> Sum(c) <= C
    decreases |c| - from
  {
    if from == |c| then
      CumCountAtEnd(c);
      from
    else
      CumCountStep(c, from);
      if c[from] > 0 && C < CumCount(c, from) then from else FindActive(c, C, from + 1)
  }

  /** A value in the interval of an active symbol finds that symbol. */
  lemma FindActiveHit(c: seq<nat>, C: int, x: nat)
    requires x < |c| && c[x] > 0 && CumCount(c, x) - c[x] <= C < CumCount(c, x)
    ensures CumCount(c, -1) <= C && FindActive(c, C, 0) == x
  {
    CumCountStep(c, x);
    CumCountMono(c, -1, x - 1);
    var r := FindActive(c, C, 0);
    if r < x {
      CumCountMono(c, r, x - 1);
    } else if x < r < |c| {
      CumCountStep(c, r);
      CumCountMono(c, x, r - 1);
    } else if r == |c| {
      CumCountAtEnd(c);
      CumCountMono(c, x, |c| - 1);
    }
  }

  /** A value at or above the total finds no symbol: the escape index. */
  lemma FindActiveEscape(c: seq<nat>, C: int)
    requires Sum(c) <= C
    ensures CumCount(c, -1) <= C && FindActive(c, C, 0) == |c|
  {
    CumCountAtEnd(c);
    CumCountMono(c, -1, |c| - 1);
    var r := FindActive(c, C, 0);
    if r < |c| {
      CumCountMono(c, r, |c| - 1);
    }
  }

  /** `range_max`: the table's total, plus one for the escape slot. */
  function RangeMax(c: seq<nat>, hasEscape: bool): nat
  {
    Sum(c) + if hasEscape then 1 else 0
  }

  /** The interval `decode_symbol` narrows to for the symbol x it found:
      [cum - count, cum) for a symbol, [total, total + 1) for the escape. */
  function SymbolIv(c: seq<nat>, x: nat, hasEscape: bool): (r: Interval)
    requires x <= |c|
    ensures r.total == RangeMax(c, hasEscape)
    ensures x < |c| ==> r.lo + c[x] == r.hi == CumCount(c, x) <= Sum(c)
    ensures x == |c| ==> r.lo == Sum(c) && r.hi == Sum(c) + 1
  {
    if x < |c| then
      CumCountStep(c, x);
      CumCountMono(c, x, |c| - 1);
      CumCountAtEnd(c);
      Interval(CumCount(c, x) - c[x], CumCount(c, x), RangeMax(c, hasEscape))
    else Interval(Sum(c), Sum(c) + 1, RangeMax(c, hasEscape))
  }

  /** The symbol `decode_symbol` finds from decoder state d, and where it
      narrows d to.  The escape is found only when the table has an escape slot,
      and C always lies in the interval narrowed to. */
  function DecodeSymbolSpec(m: nat, d: DecState, c: seq<nat>, hasEscape: bool): (r: (nat, DecState))
    requires DecValid(m, d) && RangeMax(c, hasEscape) > 0
    ensures r.0 <= |c| && (r.0 == |c| ==> hasEscape)
    ensures DecValid(m, r.1) && r.1.t == d.t && r.1.pos == d.pos
  {
    var C := Target(d, RangeMax(c, hasEscape));
    CumCountMono(c, -1, -1);
    var x := FindActive(c, C, 0);
    var iv := SymbolIv(c, x, hasEscape);
    (x, NarrowDec(m, d, iv))
  }

  /** The loop of `decode_symbol`: walk the symbols upwards, skipping the
      inactive ones, until one whose cumulative count exceeds C. */
  method Scan(c: seq<nat>, C: int) returns (symbol: nat)
    requires CumCount(c, -1) <= C
    ensures symbol == FindActive(c, C, 0)
  {
    symbol := 0;
    while symbol < |c|
      invariant symbol <= |c| && CumCount(c, symbol - 1) <= C
      invariant FindActive(c, C, symbol) == FindActive(c, C, 0)
      decreases |c| - symbol
    {
      CumCountStep(c, symbol);
      if c[symbol] > 0 && C < CumCount(c, symbol) {
        break;
      }
      symbol := symbol + 1;
    }
  }

  // ----- the encoder -----

  /** `ArithmeticEncoder(m)`: the interval [l, u] of m-bit integers, the count
      of deferred E3 bits, and the bits written so far.  Between calls the
      interval is settled: msb(l) = 0, msb(u) = 1 and no E3 straddle. */
  class ArithmeticEncoder {
    const m: nat
    var l: nat
    var u: nat
    var scale3: nat
    var result: seq<int>

    ghost predicate Valid()
      reads this
    {
      m >= 2 && Settled(m, Coder(l, u, scale3)) && IsBits(result)
    }

    function State(): Coder
      reads this
    {
      Coder(l, u, scale3)
    }

    constructor (width: nat)
      requires width >= 2
      ensures Valid() && m == width && State() == Init(width) && result == []
    {
      m := width;
      l := 0;
      u := Pow2(width) - 1;
      scale3 := 0;
      result := [];
      InitIsSettled(width);
    }

    /** `encode(range_l, range_u, range_max)`: narrow to the interval, then
        renormalise, writing the settled bits to result. */
    method Encode(rangeL: nat, rangeU: nat, rangeMax: nat)
      requires Valid() && ValidInterval(m, Interval(rangeL, rangeU, rangeMax))
      modifies this
      ensures Valid()
      ensures var e := CodeInterval(m, old(State()), Interval(rangeL, rangeU, rangeMax));
              State() == e.st && result == old(result) + e.bits
    {
      var bits;
      bits, l, u, scale3 := NarrowAndRenormalise(m, l, u, scale3, rangeL, rangeU, rangeMax);
      result := result + bits;
    }

    /** `flush()`: write msb(l), the deferred ones and the remaining bits of
        l, and return everything written.  l, u and scale3 are left as they
        were. */
    method Flush() returns (r: seq<int>)
      requires Valid()
      modifies this
      ensures State() == old(State())
      ensures r == result == old(result) + ArithCoder.Flush(m, old(State()))
    {
      var tail := FlushTag(m, l, u, scale3);
      result := result + tail;
      r := result;
    }
  }

  // ----- the decoder -----

  /** `ArithmeticDecoder(m)`: the interval [l, u], the tag t of m bits read so
      far and the read cursor.  The tag always lies inside the interval.  (The
      source sets t and sequence_index only in `start`; here they are 0 until
      then.) */
  class ArithmeticDecoder {
    const m: nat
    var l: nat
    var u: nat
    var scale3: nat
    var t: nat
    var sequenceIndex: nat

    ghost predicate Valid()
      reads this
    {
      m >= 2 && DecValid(m, State())
    }

    function State(): DecState
      reads this
    {
      DecState(l, u, t, sequenceIndex)
    }

    constructor (width: nat)
      requires width >= 2
      ensures Valid() && m == width && l == 0 && u == Pow2(width) - 1
    {
      m := width;
      l := 0;
      u := Pow2(width) - 1;
      scale3 := 0;
      t := 0;
      sequenceIndex := 0;
    }

    /** `start(sequence)`: the first m bits, most significant first, become the
        tag, and the cursor moves past them. */
    method Start(sequence: seq<int>)
      requires Valid() && IsBits(sequence) && l == 0 && u == Pow2(m) - 1
      modifies this
      ensures Valid() && State() == ArithCoder.Start(m, sequence)
    {
      var first := sequence[..Min(m, |sequence|)];
      BitsToIntRange(first);
      Pow2Monotone(|first|, m);
      t := BitsToInt(first);
      sequenceIndex := m;
    }

    /** `decode_symbol(ctx, has_escape)`: C from the tag, the scan for the first
        active symbol whose cumulative count exceeds C (the escape index
        len(cum_counts) when none does), and the narrowing to that symbol's
        interval.  The source's `assert has_escape` always holds. */
    method DecodeSymbol(c: seq<nat>, hasEscape: bool) returns (symbol: nat)
      requires Valid() && RangeMax(c, hasEscape) > 0
      modifies this
      ensures Valid()
      ensures (symbol, State()) == DecodeSymbolSpec(m, old(State()), c, hasEscape)
    {
      ghost var d0 := State();
      var total := Sum(c);
      var rangeMax := total;
      if hasEscape {
        rangeMax := rangeMax + 1;
      }
      var C := ((t - l + 1) * rangeMax - 1) / (u - l + 1);
      assert C == Target(d0, rangeMax);
      CumCountMono(c, -1, -1);
      symbol := Scan(c, C);
      var rangeL, rangeU := 0, 0;
      if symbol < |c| {
        rangeU := CumCount(c, symbol);
        rangeL := rangeU - c[symbol];
      } else {
        assert hasEscape;
        rangeL := total;
        rangeU := rangeL + 1;
      }
      ghost var iv := SymbolIv(c, symbol, hasEscape);
      assert rangeL == iv.lo && rangeU == iv.hi;
      var l1 := l + (u - l + 1) * rangeL / rangeMax;
      var u1 := l + (u - l + 1) * rangeU / rangeMax - 1;
      assert l1 == NarrowDec(m, d0, iv).l && u1 == NarrowDec(m, d0, iv).u;
      l := l1;
      u := u1;
    }

    /** `decode_stream(prev_symbol, sequence, ctx)`: the renormalisation loop,
        shifting one input bit into t per step.  ok is false where the source
        raises IndexError; the fields are then left as they were, since the
        source assigns them only after the loop. */
    method DecodeStream(sequence: seq<int>) returns (ok: bool)
      requires Valid() && IsBits(sequence)
      modifies this
      ensures ok == DecRenorm(m, old(State()), sequence).Some?
      ensures ok ==> Valid() && State() == DecRenorm(m, old(State()), sequence).value
      ensures !ok ==> State() == old(State())
    {
      var l1, u1, t1, index1;
      ok, l1, u1, t1, index1 := DecRenormalise(m, sequence, l, u, t, sequenceIndex);
      if ok {
        l, u, t, sequenceIndex := l1, u1, t1, index1;
      }
    }
  }
}
