/** The known answer of `test_encode_decode_book` (artihmetic.py:147-153):
    the counts [40, 1, 9] with word length 8 code [0, 2, 1, 0] as sixteen
    given bits, traced one renormalisation step at a time. */
module StaticArithmeticExamples {
  import opened Bits
  import opened Wrappers
  import opened ArithCoder
  import opened StaticArithmetic

  const A: Interval := Interval(0, 40, 50)
  const B: Interval := Interval(41, 50, 50)
  const C: Interval := Interval(40, 41, 50)

  lemma Widths()
    ensures Pow2(8) == 256 && Pow2(7) == 128 && Pow2(6) == 64
  {
  }

  /** 2^8 * 50 is far below 2^53: the book example is exact in floats. */
  lemma BookFloatExact()
    ensures FloatExact(8, 50)
  {
    Pow2Monotone(14, DoubleBits());
    assert Pow2(14) == 16384;
  }

  lemma Valid()
    ensures AllValid(8, [A, B, C, A])
  {
    Widths();
  }

  /** An E1/E2 step from c to c' writes bits. */
  lemma ShiftTo(c: Coder, c': Coder, bits: seq<int>, rest: seq<Interval>)
    requires Bounded(8, c) && AllValid(8, rest) && E12(8, c.l, c.u)
    requires ShiftOut(8, c) == c' && ShiftOutBits(8, c) == bits
    ensures EncodeFrom(8, c, rest) == bits + EncodeFrom(8, c', rest)
  {
  }

  /** An E3 step from c to c' writes nothing. */
  lemma StraddleTo(c: Coder, c': Coder, rest: seq<Interval>)
    requires Bounded(8, c) && AllValid(8, rest) && !E12(8, c.l, c.u) && E3(8, c.l, c.u)
    requires Straddle(8, c) == c'
    ensures EncodeFrom(8, c, rest) == EncodeFrom(8, c', rest)
  {
  }

  /** A settled c codes the next interval, landing in c'. */
  lemma NarrowTo(c: Coder, c': Coder, rest: seq<Interval>)
    requires Settled(8, c) && AllValid(8, rest) && rest != []
    requires Narrow(8, c, rest[0]) == c'
    ensures EncodeFrom(8, c, rest) == EncodeFrom(8, c', rest[1..])
  {
  }

  /** A settled c with nothing left to code is flushed. */
  lemma FlushTo(c: Coder, bits: seq<int>)
    requires Settled(8, c) && Flush(8, c) == bits
    ensures EncodeFrom(8, c, []) == bits
  {
  }

  // The trace of `encode`, one fact per step.

  lemma NarrowA0()
    ensures Settled(8, Coder(0, 255, 0)) && ValidInterval(8, A)
    ensures Narrow(8, Coder(0, 255, 0), A) == Coder(0, 203, 0)
  {
    Widths();
  }

  lemma NarrowB()
    ensures Settled(8, Coder(0, 203, 0)) && ValidInterval(8, B)
    ensures Narrow(8, Coder(0, 203, 0), B) == Coder(167, 203, 0)
  {
    Widths();
  }

  lemma ShiftFirst()
    ensures Bounded(8, Coder(167, 203, 0)) && E12(8, 167, 203)
    ensures ShiftOut(8, Coder(167, 203, 0)) == Coder(78, 151, 0)
    ensures ShiftOutBits(8, Coder(167, 203, 0)) == [1]
  {
    Widths();
  }

  lemma StraddleFirst()
    ensures Bounded(8, Coder(78, 151, 0)) && !E12(8, 78, 151) && E3(8, 78, 151)
    ensures Straddle(8, Coder(78, 151, 0)) == Coder(28, 175, 1)
  {
    Widths();
  }

  lemma NarrowC()
    ensures Settled(8, Coder(28, 175, 1)) && ValidInterval(8, C)
    ensures Narrow(8, Coder(28, 175, 1), C) == Coder(146, 148, 1)
  {
    Widths();
  }

  lemma ShiftDeferred()
    ensures Bounded(8, Coder(146, 148, 1)) && E12(8, 146, 148)
    ensures ShiftOut(8, Coder(146, 148, 1)) == Coder(36, 41, 0)
    ensures ShiftOutBits(8, Coder(146, 148, 1)) == [1, 0]
  {
    Widths();
    assert Rep(0, 1) == [0];
  }

  /** An E1/E2 step from [l, u] with nothing deferred writes bit b and
      leaves [l', u']. */
  lemma ShiftPlain(l: nat, u: nat, b: int, l': nat, u': nat)
    requires Bounded(8, Coder(l, u, 0)) && E12(8, l, u)
    requires Msb(l, 8) == b && ShiftOut(8, Coder(l, u, 0)) == Coder(l', u', 0)
    ensures ShiftOutBits(8, Coder(l, u, 0)) == [b]
  {
  }

  lemma ShiftRun()
    ensures Bounded(8, Coder(36, 41, 0)) && E12(8, 36, 41)
    ensures ShiftOut(8, Coder(36, 41, 0)) == Coder(72, 83, 0) && Msb(36, 8) == 0
    ensures Bounded(8, Coder(72, 83, 0)) && E12(8, 72, 83)
    ensures ShiftOut(8, Coder(72, 83, 0)) == Coder(144, 167, 0) && Msb(72, 8) == 0
    ensures Bounded(8, Coder(144, 167, 0)) && E12(8, 144, 167)
    ensures ShiftOut(8, Coder(144, 167, 0)) == Coder(32, 79, 0) && Msb(144, 8) == 1
    ensures Bounded(8, Coder(32, 79, 0)) && E12(8, 32, 79)
    ensures ShiftOut(8, Coder(32, 79, 0)) == Coder(64, 159, 0) && Msb(32, 8) == 0
  {
    Widths();
  }

  lemma StraddleLast()
    ensures Bounded(8, Coder(64, 159, 0)) && !E12(8, 64, 159) && E3(8, 64, 159)
    ensures Straddle(8, Coder(64, 159, 0)) == Coder(0, 191, 1)
  {
    Widths();
  }

  lemma NarrowA3()
    ensures Settled(8, Coder(0, 191, 1)) && ValidInterval(8, A)
    ensures Narrow(8, Coder(0, 191, 1), A) == Coder(0, 152, 1)
  {
    Widths();
  }

  lemma SevenZeros()
    ensures Rep(0, 7) == [0, 0, 0, 0, 0, 0, 0]
  {
    assert Rep(0, 1) == [0];
    assert Rep(0, 3) == [0, 0, 0];
  }

  lemma LastSettled(c: Coder)
    requires c == Coder(0, 152, 1)
    ensures Settled(8, c)
  {
    Widths();
  }

  /** Flushing from a lower bound of 0 writes a 0, the deferred 1s and m - 1
      more 0s. */
  lemma FlushFromZero(m: nat, c: Coder)
    requires m >= 2 && c.l == 0
    ensures Flush(m, c) == [0] + Rep(1, c.scale3) + Rep(0, m - 1)
  {
    GetBitOfZero(m - 1);
    ModIs(2 * 0, Pow2(m), 0);
    ShiftBitsOfZero(m, m - 1);
  }

  lemma FlushLast(c: Coder)
    requires c == Coder(0, 152, 1)
    ensures Flush(8, c) == [0, 1, 0, 0, 0, 0, 0, 0, 0]
  {
    FlushFromZero(8, c);
    SevenZeros();
    assert Rep(1, 1) == [1];
  }

  // Each step of the trace, for whatever intervals remain. The states are
  // parameters, so that the verifier does not evaluate `EncodeFrom` on them.

  lemma Step1(c: Coder, c': Coder, rest: seq<Interval>)
    requires c == Coder(0, 255, 0) && c' == Coder(0, 203, 0)
    requires AllValid(8, rest) && rest != [] && rest[0] == A
    ensures EncodeFrom(8, c, rest) == EncodeFrom(8, c', rest[1..])
  {
    NarrowA0();
    NarrowTo(c, c', rest);
  }

  lemma Step2(c: Coder, c': Coder, rest: seq<Interval>)
    requires c == Coder(0, 203, 0) && c' == Coder(167, 203, 0)
    requires AllValid(8, rest) && rest != [] && rest[0] == B
    ensures EncodeFrom(8, c, rest) == EncodeFrom(8, c', rest[1..])
  {
    NarrowB();
    NarrowTo(c, c', rest);
  }

  lemma Step3(c: Coder, c': Coder, rest: seq<Interval>)
    requires c == Coder(167, 203, 0) && c' == Coder(28, 175, 1)
    requires AllValid(8, rest)
    ensures EncodeFrom(8, c, rest) == [1] + EncodeFrom(8, c', rest)
  {
    ShiftFirst();
    ShiftTo(c, Coder(78, 151, 0), [1], rest);
    StraddleFirst();
    StraddleTo(Coder(78, 151, 0), c', rest);
  }

  lemma Step4(c: Coder, c': Coder, rest: seq<Interval>)
    requires c == Coder(28, 175, 1) && c' == Coder(146, 148, 1)
    requires AllValid(8, rest) && rest != [] && rest[0] == C
    ensures EncodeFrom(8, c, rest) == EncodeFrom(8, c', rest[1..])
  {
    NarrowC();
    NarrowTo(c, c', rest);
  }

  lemma Step5(c: Coder, c': Coder, rest: seq<Interval>)
    requires c == Coder(146, 148, 1) && c' == Coder(36, 41, 0)
    requires AllValid(8, rest)
    ensures EncodeFrom(8, c, rest) == [1, 0] + EncodeFrom(8, c', rest)
  {
    ShiftDeferred();
    ShiftTo(c, c', [1, 0], rest);
  }

  lemma Step6(c: Coder, c': Coder, rest: seq<Interval>)
    requires c == Coder(36, 41, 0) && c' == Coder(144, 167, 0)
    requires AllValid(8, rest)
    ensures EncodeFrom(8, c, rest) == [0, 0] + EncodeFrom(8, c', rest)
  {
    ShiftRun();
    ShiftPlain(36, 41, 0, 72, 83);
    ShiftTo(c, Coder(72, 83, 0), [0], rest);
    ShiftPlain(72, 83, 0, 144, 167);
    ShiftTo(Coder(72, 83, 0), c', [0], rest);
  }

  lemma Step7(c: Coder, c': Coder, rest: seq<Interval>)
    requires c == Coder(144, 167, 0) && c' == Coder(64, 159, 0)
    requires AllValid(8, rest)
    ensures EncodeFrom(8, c, rest) == [1, 0] + EncodeFrom(8, c', rest)
  {
    ShiftRun();
    ShiftPlain(144, 167, 1, 32, 79);
    ShiftTo(c, Coder(32, 79, 0), [1], rest);
    ShiftPlain(32, 79, 0, 64, 159);
    ShiftTo(Coder(32, 79, 0), c', [0], rest);
  }

  lemma Step8(c: Coder, c': Coder, rest: seq<Interval>)
    requires c == Coder(64, 159, 0) && c' == Coder(0, 152, 1)
    requires AllValid(8, rest) && rest != [] && rest[0] == A
    ensures EncodeFrom(8, c, rest) == EncodeFrom(8, c', rest[1..])
  {
    StraddleLast();
    StraddleTo(c, Coder(0, 191, 1), rest);
    NarrowA3();
    NarrowTo(Coder(0, 191, 1), c', rest);
  }

  lemma Step9(c: Coder)
    requires c == Coder(0, 152, 1)
    ensures EncodeFrom(8, c, []) == [0, 1, 0, 0, 0, 0, 0, 0, 0]
  {
    LastSettled(c);
    FlushLast(c);
    FlushTo(c, [0, 1, 0, 0, 0, 0, 0, 0, 0]);
  }

  // The output from each state of the trace on, composed from the end.

  lemma FromLastSymbol(c: Coder, rest: seq<Interval>)
    requires c == Coder(64, 159, 0)
    requires AllValid(8, rest) && rest != [] && rest[0] == A && rest[1..] == []
    ensures EncodeFrom(8, c, rest) == [0, 1, 0, 0, 0, 0, 0, 0, 0]
  {
    Step8(c, Coder(0, 152, 1), rest);
    Step9(Coder(0, 152, 1));
  }

  lemma JoinLastThree()
    ensures [1, 0] + ([0, 0] + ([1, 0] + [0, 1, 0, 0, 0, 0, 0, 0, 0]))
         == [1, 0, 0, 0, 1, 0, 0, 1, 0, 0, 0, 0, 0, 0, 0]
  {
  }

  lemma JoinFirst()
    ensures [1] + [1, 0, 0, 0, 1, 0, 0, 1, 0, 0, 0, 0, 0, 0, 0]
         == [1, 1, 0, 0, 0, 1, 0, 0, 1, 0, 0, 0, 0, 0, 0, 0]
  {
  }

  lemma FromDeferredShift(c: Coder, c5: Coder, c6: Coder, c7: Coder, rest: seq<Interval>)
    requires c == Coder(146, 148, 1) && c5 == Coder(36, 41, 0)
    requires c6 == Coder(144, 167, 0) && c7 == Coder(64, 159, 0)
    requires AllValid(8, rest) && rest != [] && rest[0] == A && rest[1..] == []
    ensures EncodeFrom(8, c, rest) == [1, 0, 0, 0, 1, 0, 0, 1, 0, 0, 0, 0, 0, 0, 0]
  {
    FromLastSymbol(c7, rest);
    Step7(c6, c7, rest);
    Step6(c5, c6, rest);
    Step5(c, c5, rest);
    JoinLastThree();
  }

  lemma FromThirdSymbol(c: Coder, c3: Coder, c4: Coder, rest: seq<Interval>)
    requires c == Coder(167, 203, 0) && c3 == Coder(28, 175, 1) && c4 == Coder(146, 148, 1)
    requires AllValid(8, rest) && |rest| == 2 && rest[0] == C && rest[1] == A
    ensures EncodeFrom(8, c, rest) == [1, 1, 0, 0, 0, 1, 0, 0, 1, 0, 0, 0, 0, 0, 0, 0]
  {
    var r := rest[1..];
    assert r[0] == A && r[1..] == [];
    FromDeferredShift(c4, Coder(36, 41, 0), Coder(144, 167, 0), Coder(64, 159, 0), r);
    Step4(c3, c4, rest);
    Step3(c, c3, rest);
    JoinFirst();
  }

  /** The coder's output for the book's four intervals. */
  lemma BookBits(ivs: seq<Interval>)
    requires ivs == [A, B, C, A]
    ensures AllValid(8, ivs)
    ensures ArithCoder.Encode(8, ivs) == [1, 1, 0, 0, 0, 1, 0, 0, 1, 0, 0, 0, 0, 0, 0, 0]
  {
    var r1, r2 := ivs[1..], ivs[2..];
    assert r1[0] == B && r1[1..] == r2 && |r2| == 2 && r2[0] == C && r2[1] == A;
    Valid();
    Widths();
    var c0, c1, c2 := Init(8), Coder(0, 203, 0), Coder(167, 203, 0);
    FromThirdSymbol(c2, Coder(28, 175, 1), Coder(146, 148, 1), r2);
    Step2(c1, c2, r1);
    Step1(c0, c1, ivs);
  }

  /** The book's symbols, as intervals of the table [0, 40, 41, 50]. */
  lemma BookIntervals(cum: seq<nat>, s: seq<nat>)
    requires cum == [0, 40, 41, 50] && s == [0, 2, 1, 0]
    ensures ValidCum(cum) && Codable(cum, s)
    ensures Ivs(cum, s) == [A, B, C, A]
  {
    assert ValidCum(cum);
    assert Total(cum) == 50;
    var ivs := Ivs(cum, s);
    assert ivs[0] == A && ivs[1] == B && ivs[2] == C && ivs[3] == A;
  }

  /** `test_encode_decode_book`: `encode` writes the sixteen given bits and
      `decode` of those bits with length 4 gives the symbols back. */
  method Book() returns (enc: seq<int>, dec: Option<seq<nat>>)
    ensures enc == [1, 1, 0, 0, 0, 1, 0, 0, 1, 0, 0, 0, 0, 0, 0, 0]
    ensures dec == Some([0, 2, 1, 0])
  {
    var counts := [40, 1, 9];
    var s := [0, 2, 1, 0];
    BookExample(counts, s);
    BookCounts();
    BookIntervals(CumCounts(counts), s);
    Widths();
    BookFloatExact();
    var cum := CumCounts(counts);
    enc := StaticArithmetic.Encode(cum, MinWordLen(counts), s);
    BookBits(Ivs(cum, s));
    dec := Decode(cum, MinWordLen(counts), enc, |s|);
  }
}
