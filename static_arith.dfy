/** The static arithmetic coder of artihmetic.py: one fixed table of counts,
    given as its cumulative list, codes every symbol.  `encode` and `decode`
    are the source's loops; each is proved equal to a specification function,
    and the specification functions are proved to round-trip. */
module StaticArithmetic {
  import opened Bits
  import opened Wrappers
  import opened ArithCoder
  import opened CoderTheory
  import opened CoderLoops

  // ----- the count table -----

  /** `get_cum_count`: 0 followed by the running sums of counts.  Consecutive
      differences give the counts back. */
  function CumCounts(counts: seq<nat>): (r: seq<nat>)
    ensures |r| == |counts| + 1 && r[0] == 0
    ensures forall i :: 0 <= i < |counts| ==> r[i + 1] == r[i] + counts[i]
  {
    if counts == [] then [0]
    else
      var p := CumCounts(counts[..|counts| - 1]);
      p + [p[|counts| - 1] + counts[|counts| - 1]]
  }

  /** The last entry of a cumulative list: the total count. */
  function Total(cum: seq<nat>): nat
    requires |cum| >= 1
  {
    cum[|cum| - 1]
  }

  /** What `encode` and `decode` read from cum_count: a list starting at 0 that
      never decreases, with at least one symbol. */
  predicate ValidCum(cum: seq<nat>)
  {
    && |cum| >= 2 && cum[0] == 0
    && forall i, j :: 0 <= i <= j < |cum| ==> cum[i] <= cum[j]
  }

  lemma {:induction false} CumCountsValid(counts: seq<nat>)
    requires |counts| >= 1
    ensures ValidCum(CumCounts(counts))
  {
    var r := CumCounts(counts);
    forall i, j | 0 <= i <= j < |r|
      ensures r[i] <= r[j]
    {
      CumCountsMonotone(counts, i, j);
    }
  }

  lemma {:induction false} CumCountsMonotone(counts: seq<nat>, i: nat, j: nat)
    requires i <= j <= |counts|
    ensures CumCounts(counts)[i] <= CumCounts(counts)[j]
    decreases j - i
  {
    if i < j {
      CumCountsMonotone(counts, i, j - 1);
    }
  }

  /** `int.bit_length()`: the number of binary digits of n. */
  function BitLength(n: nat): nat
  {
    if n == 0 then 0 else 1 + BitLength(n / 2)
  }

  /** n has exactly BitLength(n) digits: 2^(len-1) <= n < 2^len. */
  lemma {:induction false} BitLengthBounds(n: nat)
    ensures n < Pow2(BitLength(n))
    ensures n > 0 ==> Pow2(BitLength(n) - 1) <= n
  {
    if n > 0 {
      BitLengthBounds(n / 2);
    }
  }

  /** `get_min_word_len`: the bit length of 4 * total. */
  function MinWordLen(counts: seq<nat>): nat
  {
    BitLength(Total(CumCounts(counts)) * 4)
  }

  /** The word length is the least m with 4 * total < 2^m, so the total fits the
      quarter range every interval needs, and m is at least 3. */
  lemma MinWordLenFits(counts: seq<nat>)
    requires Total(CumCounts(counts)) > 0
    ensures MinWordLen(counts) >= 3
    ensures Total(CumCounts(counts)) < Pow2(MinWordLen(counts) - 2)
    ensures Pow2(MinWordLen(counts) - 3) <= Total(CumCounts(counts))
  {
    var total := Total(CumCounts(counts));
    var m := MinWordLen(counts);
    assert total * 4 == 2 * (2 * total);
    BitLengthDouble(2 * total);
    BitLengthDouble(total);
    BitLengthBounds(total);
    assert m == BitLength(total) + 2;
  }

  lemma BitLengthDouble(n: nat)
    requires n > 0
    ensures BitLength(2 * n) == BitLength(n) + 1
  {
    assert (2 * n) / 2 == n;
  }

  /** `test_utils`: the word length for the counts [40, 1, 9]. */
  lemma MinWordLenExample()
    ensures MinWordLen([40, 1, 9]) == 8
  {
    BookCounts();
  }

  lemma BookCounts()
    ensures CumCounts([40, 1, 9]) == [0, 40, 41, 50]
  {
    assert [40, 1, 9][..2] == [40, 1];
    assert [40, 1][..1] == [40];
    assert [40][..0] == [];
  }

  // ----- symbols as intervals -----

  /** Every symbol indexes the table and has a positive count. */
  predicate Codable(cum: seq<nat>, s: seq<nat>)
  {
    forall i :: 0 <= i < |s| ==> s[i] + 1 < |cum| && cum[s[i]] < cum[s[i] + 1]
  }

  /** The interval `encode` narrows to for each symbol:
      [cum[x], cum[x + 1]) out of the total. */
  function Ivs(cum: seq<nat>, s: seq<nat>): (r: seq<Interval>)
    requires ValidCum(cum) && Codable(cum, s)
    ensures |r| == |s|
    ensures forall i :: 0 <= i < |s| ==> r[i] == Interval(cum[s[i]], cum[s[i] + 1], Total(cum))
  {
    seq(|s|, i requires 0 <= i < |s| => Interval(cum[s[i]], cum[s[i] + 1], Total(cum)))
  }

  /** The intervals of codable symbols satisfy the coder's precondition once the
      total fits a quarter of the range. */
  lemma IvsValid(cum: seq<nat>, m: nat, s: seq<nat>)
    requires ValidCum(cum) && Codable(cum, s) && m >= 2 && Total(cum) <= Pow2(m - 2)
    ensures AllValid(m, Ivs(cum, s))
  {
    var ivs := Ivs(cum, s);
    forall i | 0 <= i < |s|
      ensures ValidInterval(m, ivs[i])
    {
      assert cum[s[i] + 1] <= cum[|cum| - 1];
    }
  }

  // ----- encoding -----

  /** `encode(cum_count, m, sequence)`: the loop of the source, including its
      E3 flag computed before the renormalisation step that may change l and u.
      The bits written are exactly the coder's output for the symbols'
      intervals. */
  method Encode(cum: seq<nat>, m: nat, s: seq<nat>) returns (result: seq<int>)
    requires ValidCum(cum) && Codable(cum, s) && m >= 2 && Total(cum) <= Pow2(m - 2)
    requires FloatExact(m, Total(cum))
    ensures AllValid(m, Ivs(cum, s))
    ensures result == ArithCoder.Encode(m, Ivs(cum, s))
  {
    IvsValid(cum, m, s);
    ghost var ivs := Ivs(cum, s);
    ghost var whole := ArithCoder.Encode(m, ivs);
    result := [];
    var l: nat := 0;
    var u: nat := Pow2(m) - 1;
    var total := cum[|cum| - 1];
    var scale3: nat := 0;
    InitIsSettled(m);
    PowersOfWidth(m);
    var i := 0;
    while i < |s|
      invariant 0 <= i <= |s|
      invariant Settled(m, Coder(l, u, scale3))
      invariant result + EncodeFrom(m, Coder(l, u, scale3), ivs[i..]) == whole
    {
      var symbol := s[i];
      ghost var c0 := Coder(l, u, scale3);
      assert ivs[i..] == [ivs[i]] + ivs[i + 1..];
      CodeStep(m, c0, ivs[i], ivs[i + 1..], result);
      assert ivs[i] == Interval(cum[symbol], cum[symbol + 1], total);
      var bits;
      bits, l, u, scale3 := NarrowAndRenormalise(m, l, u, scale3, cum[symbol], cum[symbol + 1], total);
      result := result + bits;
      i := i + 1;
    }
    var tail := FlushTag(m, l, u, scale3);
    result := result + tail;
  }

  // ----- decoding -----

  /** The scan of `decode_symbol` from symbol `from`: the first s >= from with
      C < cum[s + 1].  It cannot walk off the table since C < total. */
  function FindSymbol(cum: seq<nat>, c: int, from: nat): (r: nat)
    requires ValidCum(cum) && from + 1 < |cum| && c < Total(cum)
    ensures from <= r && r + 1 < |cum| && c < cum[r + 1]
    ensures forall x :: from < x <= r ==> cum[x] <= c
    ensures cum[from] <= c ==> cum[r] <= c
    ensures cum[r + 1] <= Total(cum)
    decreases |cum| - from
  {
    if c >= cum[from + 1] then FindSymbol(cum, c, from + 1) else from
  }

  /** The symbol found is the one whose interval [cum[x], cum[x + 1]) holds C;
      symbols of count zero are never found. */
  lemma FindSymbolIs(cum: seq<nat>, c: int, x: nat)
    requires ValidCum(cum) && x + 1 < |cum| && cum[x] <= c < cum[x + 1]
    ensures FindSymbol(cum, c, 0) == x
  {
    assert cum[x + 1] <= cum[|cum| - 1];

  }

  /** `decode_symbol`: C from the tag, then the linear scan for the first
      symbol whose cumulative count exceeds C. */
  method DecodeSymbol(cum: seq<nat>, l: nat, u: nat, t: nat) returns (symbol: nat)
    requires ValidCum(cum) && Total(cum) > 0 && l <= t <= u
    ensures symbol == FindSymbol(cum, Target(DecState(l, u, t, 0), Total(cum)), 0)
  {
    var total := cum[|cum| - 1];
    var c := ((t - l + 1) * total - 1) / (u - l + 1);
    assert c == Target(DecState(l, u, t, 0), total);
    symbol := 0;
    while c >= cum[symbol + 1]
      invariant symbol + 1 < |cum| && FindSymbol(cum, c, symbol) == FindSymbol(cum, c, 0)
      decreases |cum| - symbol
    {
      symbol := symbol + 1;
    }
  }

  /** One turn of the main loop of `decode`: narrow to the symbol just
      decoded, renormalise, and decode the next symbol. */
  method DecodeNext(cum: seq<nat>, m: nat, bits: seq<int>, l0: nat, u0: nat, t0: nat, pos0: nat, symbol0: nat)
    returns (ok: bool, l: nat, u: nat, t: nat, index: nat, symbol: nat)
    requires ValidCum(cum) && Total(cum) > 0 && IsBits(bits) && DecValid(m, DecState(l0, u0, t0, pos0))
    requires symbol0 == FindSymbol(cum, Target(DecState(l0, u0, t0, pos0), Total(cum)), 0)
    ensures
      var next := DecRenorm(m, NarrowDec(m, DecState(l0, u0, t0, pos0), SymbolInterval(cum, symbol0)), bits);
      && ok == next.Some?
      && (ok ==> next.value == DecState(l, u, t, index) && DecValid(m, DecState(l, u, t, index)))
      && (ok ==> symbol == FindSymbol(cum, Target(DecState(l, u, t, index), Total(cum)), 0))
  {
    var total := cum[|cum| - 1];
    ghost var d := DecState(l0, u0, t0, pos0);
    var l1 := l0 + (u0 - l0 + 1) * cum[symbol0] / total;
    var u1 := l0 + (u0 - l0 + 1) * cum[symbol0 + 1] / total - 1;
    ghost var narrowed := NarrowDec(m, d, SymbolInterval(cum, symbol0));
    assert l1 == narrowed.l && u1 == narrowed.u;
    ok, l, u, t, index := DecRenormalise(m, bits, l1, u1, t0, pos0);
    symbol := 0;
    if ok {
      symbol := DecodeSymbol(cum, l, u, t);
      TargetIgnoresCursor(DecState(l, u, t, 0), index, total);
    }
  }

  /** `decode(cum_count, m, sequence, dec_len)`: the tag from the first m bits,
      one symbol, then narrow, renormalise and decode until dec_len symbols are
      out.  None stands for the IndexError of reading past the input. */
  method Decode(cum: seq<nat>, m: nat, bits: seq<int>, decLen: nat) returns (r: Option<seq<nat>>)
    requires ValidCum(cum) && Total(cum) > 0 && m >= 2 && IsBits(bits)
    requires FloatExact(m, Total(cum))
    ensures r == Decoded(cum, m, bits, decLen)
  {
    var result: seq<nat> := [];
    var l: nat := 0;
    var u: nat := Pow2(m) - 1;
    var total := cum[|cum| - 1];
    BitsToIntRange(bits[..Min(m, |bits|)]);
    var t: nat := BitsToInt(bits[..Min(m, |bits|)]);
    var index: nat := m;
    assert DecState(l, u, t, index) == Start(m, bits);
    var symbol := DecodeSymbol(cum, l, u, t);
    TargetIgnoresCursor(DecState(l, u, t, 0), index, total);
    ghost var acc: seq<nat> := [];
    result := result + [symbol];
    while |result| < decLen
      invariant DecValid(m, DecState(l, u, t, index)) && result == acc + [symbol]
      invariant symbol == FindSymbol(cum, Target(DecState(l, u, t, index), total), 0)
      invariant DecodeFrom(cum, m, bits, DecState(l, u, t, index), acc, decLen) == Decoded(cum, m, bits, decLen)
      decreases decLen - |result|
    {
      var ok;
      ok, l, u, t, index, symbol := DecodeNext(cum, m, bits, l, u, t, index, symbol);
      if !ok {
        return None;
      }
      acc := result;
      result := result + [symbol];
    }
    return Some(result);
  }

  /** The interval of symbol x, as both sides of the coder see it. */
  function SymbolInterval(cum: seq<nat>, x: nat): Interval
    requires x + 1 < |cum|
  {
    Interval(cum[x], cum[x + 1], Total(cum))
  }

  /** `decode` from the state d with acc already decoded: decode a symbol and,
      while fewer than dec_len symbols are out, narrow to it and renormalise.
      None when the renormalisation reads past the input (an IndexError). */
  function DecodeFrom(cum: seq<nat>, m: nat, bits: seq<int>, d: DecState, acc: seq<nat>, decLen: nat): (r: Option<seq<nat>>)
    requires ValidCum(cum) && Total(cum) > 0 && DecValid(m, d) && IsBits(bits)
    ensures r.Some? ==> |r.value| > |acc| && r.value[..|acc|] == acc
    decreases decLen - |acc|
  {
    var total := Total(cum);
    var x := FindSymbol(cum, Target(d, total), 0);
    var acc1 := acc + [x];
    if |acc1| >= decLen then Some(acc1)
    else
      match DecRenorm(m, NarrowDec(m, d, SymbolInterval(cum, x)), bits)
      case None => None
      case Some(d2) =>
        var r := DecodeFrom(cum, m, bits, d2, acc1, decLen);
        assert r.Some? ==> r.value[..|acc|] == r.value[..|acc1|][..|acc|];
        r
  }

  /** `decode(cum_count, m, sequence, dec_len)` as a function of its inputs. */
  function Decoded(cum: seq<nat>, m: nat, bits: seq<int>, decLen: nat): Option<seq<nat>>
    requires ValidCum(cum) && Total(cum) > 0 && m >= 2 && IsBits(bits)
  {
    DecodeFrom(cum, m, bits, Start(m, bits), [], decLen)
  }

  /** Whatever dec_len asks for, `decode` returns at least one symbol and stops
      as soon as it has dec_len of them: with dec_len = 0 it still returns one. */
  lemma {:induction false} DecodeFromLength(cum: seq<nat>, m: nat, bits: seq<int>, d: DecState, acc: seq<nat>, decLen: nat)
    requires ValidCum(cum) && Total(cum) > 0 && DecValid(m, d) && IsBits(bits)
    ensures DecodeFrom(cum, m, bits, d, acc, decLen).Some? ==>
      |DecodeFrom(cum, m, bits, d, acc, decLen).value| == if decLen > |acc| then decLen else |acc| + 1
    decreases decLen - |acc|
  {
    var total := Total(cum);
    var x := FindSymbol(cum, Target(d, total), 0);
    if |acc| + 1 < decLen {
      var d1 := DecRenorm(m, NarrowDec(m, d, SymbolInterval(cum, x)), bits);
      if d1.Some? {
        DecodeFromLength(cum, m, bits, d1.value, acc + [x], decLen);
      }
    }
  }

  lemma DecodedLength(cum: seq<nat>, m: nat, bits: seq<int>, decLen: nat)
    requires ValidCum(cum) && Total(cum) > 0 && m >= 2 && IsBits(bits)
    ensures Decoded(cum, m, bits, decLen).Some? ==>
      |Decoded(cum, m, bits, decLen).value| == if decLen == 0 then 1 else decLen
  {
    DecodeFromLength(cum, m, bits, Start(m, bits), [], decLen);
  }

  /** The decoder follows the encoder symbol by symbol: in step with the encoder
      after coding s[..i], it decodes the rest of s. */
  lemma {:induction false} DecodeFromTracks(cum: seq<nat>, m: nat, s: seq<nat>, i: nat, c: Coder, n: nat, d: DecState, fin: seq<int>)
    requires ValidCum(cum) && Codable(cum, s) && m >= 2 && Total(cum) <= Pow2(m - 2)
    requires i < |s| && Settled(m, c) && Sync(m, c, Ivs(cum, s)[i..], n, d, fin)
    ensures DecodeFrom(cum, m, fin, d, s[..i], |s|) == Some(s)
    decreases |s| - i
  {
    var ivs := Ivs(cum, s);
    var total := Total(cum);
    assert ivs[i..][0] == ivs[i] == SymbolInterval(cum, s[i]);
    SyncNarrow(m, c, ivs[i..], n, d, fin);
    FindSymbolIs(cum, Target(d, total), s[i]);
    assert s[..i] + [s[i]] == s[..i + 1];
    if i + 1 < |s| {
      assert ivs[i..][1..] == ivs[i + 1..];
      var c1 := Narrow(m, c, ivs[i]);
      var d1 := NarrowDec(m, d, ivs[i]);
      SyncRenorm(m, c1, ivs[i + 1..], n, d1, fin);
      DecodeFromTracks(cum, m, s, i + 1, Renorm(m, c1).st, n + |Renorm(m, c1).bits|, DecRenorm(m, d1, fin).value, fin);
    } else {
      assert s[..i + 1] == s;
    }
  }

  /** Round trip: decoding the encoding of a non-empty sequence of codable
      symbols with dec_len = len(sequence) gives the sequence back. */
  lemma RoundTrip(cum: seq<nat>, m: nat, s: seq<nat>)
    requires ValidCum(cum) && Codable(cum, s) && m >= 2 && Total(cum) <= Pow2(m - 2) && s != []
    ensures AllValid(m, Ivs(cum, s)) && Total(cum) > 0
    ensures Decoded(cum, m, ArithCoder.Encode(m, Ivs(cum, s)), |s|) == Some(s)
  {
    IvsValid(cum, m, s);
    assert cum[s[0]] < cum[s[0] + 1] <= cum[|cum| - 1];
    var ivs := Ivs(cum, s);
    SyncStart(m, ivs);
    InitIsSettled(m);
    assert ivs[0..] == ivs && s[..0] == [];
    DecodeFromTracks(cum, m, s, 0, Init(m), 0, Start(m, ArithCoder.Encode(m, ivs)), ArithCoder.Encode(m, ivs));
  }

  /** `_test_series`: with the table and word length derived from the counts,
      every non-empty sequence of symbols of positive count round-trips. */
  lemma SeriesRoundTrip(counts: seq<nat>, s: seq<nat>)
    requires s != [] && forall i :: 0 <= i < |s| ==> s[i] < |counts| && counts[s[i]] > 0
    ensures ValidCum(CumCounts(counts)) && Codable(CumCounts(counts), s) && MinWordLen(counts) >= 2
    ensures AllValid(MinWordLen(counts), Ivs(CumCounts(counts), s))
    ensures Decoded(CumCounts(counts), MinWordLen(counts),
                    ArithCoder.Encode(MinWordLen(counts), Ivs(CumCounts(counts), s)), |s|) == Some(s)
  {
    var cum := CumCounts(counts);
    CumCountsValid(counts);
    assert Codable(cum, s) by {
      forall i | 0 <= i < |s|
        ensures s[i] + 1 < |cum| && cum[s[i]] < cum[s[i] + 1]
      {
        assert cum[s[i] + 1] == cum[s[i]] + counts[s[i]];
      }
    }
    assert cum[s[0]] < cum[s[0] + 1] <= cum[|cum| - 1];
    MinWordLenFits(counts);
    RoundTrip(cum, MinWordLen(counts), s);
  }

  /** `test_encode_decode_book`: counts [40, 1, 9] give word length 8, and the
      symbols [0, 2, 1, 0] coded with that word length decode back to them. */
  lemma BookExample(counts: seq<nat>, s: seq<nat>)
    requires counts == [40, 1, 9] && s == [0, 2, 1, 0]
    ensures MinWordLen(counts) == 8
    ensures ValidCum(CumCounts(counts)) && Codable(CumCounts(counts), s)
    ensures AllValid(8, Ivs(CumCounts(counts), s))
    ensures Decoded(CumCounts(counts), 8, ArithCoder.Encode(8, Ivs(CumCounts(counts), s)), |s|) == Some(s)
  {
    MinWordLenExample();
    SeriesRoundTrip(counts, s);
  }
}
