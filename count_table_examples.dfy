/** The known answers of the unit test of `CountArraySparse`
    (`test_count_array_sparse`, ppm.py:383-485), obtained through the class's
    own methods and derived from the counting lemmas. */
module CountTableExamples {
  import opened CountTable

  /** `contains(x)`, `get_count(x)` and `get_cum_count(x)` for every symbol x. */
  method Observe(ca: CountArraySparse) returns (present: seq<bool>, counts: seq<int>, cums: seq<int>)
    requires ca.Valid()
    ensures |present| == |counts| == |cums| == |ca.Counts|
    ensures forall x :: 0 <= x < |ca.Counts| ==> present[x] == (ca.Counts[x] > 0)
    ensures forall x :: 0 <= x < |ca.Counts| ==> counts[x] == ca.Counts[x]
    ensures forall x :: 0 <= x < |ca.Counts| ==> cums[x] == if ca.Counts[x] > 0 then CumCount(ca.Counts, x) else 0
  {
    present, counts, cums := [], [], [];
    for x := 0 to ca.cumCounts.Length
      invariant |present| == |counts| == |cums| == x
      invariant forall y :: 0 <= y < x ==> present[y] == (ca.Counts[y] > 0)
      invariant forall y :: 0 <= y < x ==> counts[y] == ca.Counts[y]
      invariant forall y :: 0 <= y < x ==> cums[y] == if ca.Counts[y] > 0 then CumCount(ca.Counts, y) else 0
    {
      var b := ca.Contains(x);
      var c := ca.GetCount(x);
      var s := ca.GetCumCount(x);
      present, counts, cums := present + [b], counts + [c], cums + [s];
    }
  }

  /** The known answers of a table of ten symbols in which 1, 2, 4 and 9
      have the counts 3, 1, 2 and 5: the cumulative counts are 3, 4, 6 and 11
      and the total is 11. */
  lemma TenSymbolCounts(c: seq<nat>)
    requires c == [0, 3, 1, 0, 2, 0, 0, 0, 0, 5]
    ensures CumCount(c, 1) == 3 && CumCount(c, 2) == 4 && CumCount(c, 4) == 6 && CumCount(c, 9) == 11
    ensures Sum(c) == 11
  {
    CumCountStep(c, 0);
    CumCountStep(c, 1);
    CumCountStep(c, 2);
    CumCountStep(c, 3);
    CumCountStep(c, 4);
    CumCountSkip(c, 4, 8);
    CumCountStep(c, 9);
    CumCountAtEnd(c);
  }

  /** Three increments of 1, one of 2, two of 4 and five of 9, in ascending
      order (ppm.py:404-415). */
  const Ascending: seq<int> := [1, 1, 1, 2, 4, 4, 9, 9, 9, 9, 9]

  /** How often each symbol occurs in the ascending run. */
  function TenSymbolCount(x: int): nat
  {
    if x == 1 then 3 else if x == 2 then 1 else if x == 4 then 2 else if x == 9 then 5 else 0
  }

  lemma AscendingMultiset()
    ensures multiset(Ascending) == multiset{1, 1, 1, 2, 4, 4, 9, 9, 9, 9, 9}
  {
  }

  lemma AscendingMultiplicity(x: int)
    ensures multiset(Ascending)[x] == TenSymbolCount(x)
  {
    AscendingMultiset();
  }

  lemma AscendingCount(x: int)
    requires 0 <= x < 10
    ensures IncAll(Zeros(10), Ascending)[x] == TenSymbolCount(x)
  {
    IncAllMultiplicity(Zeros(10), Ascending, x);
    AscendingMultiplicity(x);
  }

  lemma AscendingRun()
    ensures IncAll(Zeros(10), Ascending) == [0, 3, 1, 0, 2, 0, 0, 0, 0, 5]
  {
    forall x | 0 <= x < 10 ensures IncAll(Zeros(10), Ascending)[x] == TenSymbolCount(x) {
      AscendingCount(x);
    }
  }

  /** One `increment_count(x)` call per element x of xs, in order. */
  method IncrementEach(ca: CountArraySparse, xs: seq<int>)
    requires ca.Valid() && forall k :: 0 <= k < |xs| ==> 0 <= xs[k] < |ca.Counts|
    modifies ca, ca.cumCounts, ca.prev
    ensures ca.Valid() && ca.Counts == IncAll(old(ca.Counts), xs)
  {
    for k := 0 to |xs|
      invariant ca.Valid() && ca.Counts == IncAll(old(ca.Counts), xs[..k])
    {
      assert xs[..k + 1][..k] == xs[..k];
      ca.IncrementCount(xs[k]);
    }
    assert xs[..|xs|] == xs;
  }

  /** `contains`, `get_count`, `get_cum_count` and `get_total_count` after
      the ascending run in a table of ten symbols (ppm.py:404-434). */
  method TenSymbolsAscending() returns (present: seq<bool>, counts: seq<int>, cums: seq<int>, total: int)
    ensures |present| == |counts| == |cums| == 10
    ensures forall x :: 0 <= x < 10 ==> present[x] == (x in {1, 2, 4, 9})
    ensures counts[1] == 3 && counts[2] == 1 && counts[4] == 2 && counts[9] == 5
    ensures cums[1] == 3 && cums[2] == 4 && cums[4] == 6 && cums[9] == 11
    ensures total == 11
  {
    var ca := new CountArraySparse(10);
    IncrementEach(ca, Ascending);
    AscendingRun();
    present, counts, cums := Observe(ca);
    total := ca.GetTotalCount();
    TenSymbolCounts(ca.Counts);
  }

  /** The same increments in descending order (ppm.py:436-447). */
  const Descending: seq<int> := [9, 9, 9, 9, 9, 4, 4, 2, 1, 1, 1]

  /** The known answers after the descending run (ppm.py:436-466) are those
      of the ascending run: the order of the increments does not matter. */
  method TenSymbolsDescending() returns (present: seq<bool>, counts: seq<int>, cums: seq<int>, total: int)
    ensures |present| == |counts| == |cums| == 10
    ensures forall x :: 0 <= x < 10 ==> present[x] == (x in {1, 2, 4, 9})
    ensures counts[1] == 3 && counts[2] == 1 && counts[4] == 2 && counts[9] == 5
    ensures cums[1] == 3 && cums[2] == 4 && cums[4] == 6 && cums[9] == 11
    ensures total == 11
  {
    var ca := new CountArraySparse(10);
    IncrementEach(ca, Descending);
    DescendingRun();
    present, counts, cums := Observe(ca);
    total := ca.GetTotalCount();
    TenSymbolCounts(ca.Counts);
  }

  lemma DescendingMultiset()
    ensures multiset(Descending) == multiset{1, 1, 1, 2, 4, 4, 9, 9, 9, 9, 9}
  {
  }

  lemma DescendingMultiplicity(x: int)
    ensures multiset(Descending)[x] == TenSymbolCount(x)
  {
    DescendingMultiset();
    AscendingMultiset();
    AscendingMultiplicity(x);
  }

  lemma DescendingCount(x: int)
    requires 0 <= x < 10
    ensures IncAll(Zeros(10), Descending)[x] == TenSymbolCount(x)
  {
    IncAllMultiplicity(Zeros(10), Descending, x);
    DescendingMultiplicity(x);
  }

  lemma DescendingRun()
    ensures IncAll(Zeros(10), Descending) == [0, 3, 1, 0, 2, 0, 0, 0, 0, 5]
  {
    forall x | 0 <= x < 10 ensures IncAll(Zeros(10), Descending)[x] == TenSymbolCount(x) {
      DescendingCount(x);
    }
  }

  /** A single increment of symbol x in a table of three symbols
      (ppm.py:385-400). */
  method ThreeSymbols(x: int) returns (present: seq<bool>, counts: seq<int>, cums: seq<int>)
    requires 0 <= x < 3
    ensures |present| == |counts| == |cums| == 3
    ensures forall y :: 0 <= y < 3 ==> present[y] == (y == x)
    ensures counts[x] == 1 && cums[x] == 1
  {
    var ca := new CountArraySparse(3);
    ca.IncrementCount(x);
    present, counts, cums := Observe(ca);
    CumCountSkip(ca.Counts, -1, x - 1);
    CumCountStep(ca.Counts, x);
  }

  /** The first run of the table of 28 symbols. */
  const FirstRun: seq<int> := [19, 7, 8]

  /** The second run: 18, 26 and 19 again. */
  const SecondRun: seq<int> := [18, 26, 19]

  lemma FirstRunCount(x: int)
    requires 0 <= x < 28
    ensures IncAll(Zeros(28), FirstRun)[x] == if x in {7, 8, 19} then 1 else 0
  {
    assert multiset(FirstRun) == multiset{7, 8, 19};
    IncAllMultiplicity(Zeros(28), FirstRun, x);
  }

  lemma SecondRunCount(c1: seq<nat>, x: int)
    requires c1 == IncAll(Zeros(28), FirstRun) && 0 <= x < 28
    ensures IncAll(c1, SecondRun)[x] == if x == 19 then 2 else if x in {7, 8, 18, 26} then 1 else 0
  {
    assert multiset(SecondRun) == multiset{18, 19, 26};
    FirstRunCount(x);
    IncAllMultiplicity(c1, SecondRun, x);
  }

  /** After the first run 7, 8 and 19 are active with cumulative counts 1,
      2 and 3. */
  lemma FirstRunCounts(c: seq<nat>)
    requires c == IncAll(Zeros(28), FirstRun)
    ensures c[7] > 0 && c[8] > 0 && c[19] > 0
    ensures CumCount(c, 7) == 1 && CumCount(c, 8) == 2 && CumCount(c, 19) == 3
  {
    forall x | 0 <= x < 28 ensures c[x] == if x in {7, 8, 19} then 1 else 0 {
      FirstRunCount(x);
    }
    CumCountSkip(c, -1, 6);
    CumCountStep(c, 7);
    CumCountStep(c, 8);
    CumCountSkip(c, 8, 18);
    CumCountStep(c, 19);
  }

  /** After the second run 7, 8, 18, 19 and 26 are active with cumulative
      counts 1, 2, 3, 5 and 6: 18 is spliced in below 19 and 26 above it. */
  lemma SecondRunCounts(c1: seq<nat>, c: seq<nat>)
    requires c1 == IncAll(Zeros(28), FirstRun) && c == IncAll(c1, SecondRun)
    ensures c[7] > 0 && c[8] > 0 && c[18] > 0 && c[19] > 0 && c[26] > 0
    ensures CumCount(c, 7) == 1 && CumCount(c, 8) == 2 && CumCount(c, 18) == 3
    ensures CumCount(c, 19) == 5 && CumCount(c, 26) == 6
  {
    forall x | 0 <= x < 28
      ensures c[x] == if x == 19 then 2 else if x in {7, 8, 18, 26} then 1 else 0
    {
      SecondRunCount(c1, x);
    }
    CumCountSkip(c, -1, 6);
    CumCountStep(c, 7);
    CumCountStep(c, 8);
    CumCountSkip(c, 8, 17);
    CumCountStep(c, 18);
    CumCountStep(c, 19);
    CumCountSkip(c, 19, 25);
    CumCountStep(c, 26);
  }

  /** New symbols spliced into the middle of the predecessor chain of a
      table of 28 symbols (ppm.py:468-485). */
  method TwentyEightSymbols() returns (before: seq<int>, after: seq<int>)
    ensures |before| == |after| == 28
    ensures before[7] == 1 && before[8] == 2 && before[19] == 3
    ensures after[7] == 1 && after[8] == 2 && after[18] == 3 && after[19] == 5 && after[26] == 6
  {
    var ca := new CountArraySparse(28);
    IncrementEach(ca, FirstRun);
    FirstRunCounts(ca.Counts);
    var present, counts;
    present, counts, before := Observe(ca);
    ghost var c1 := ca.Counts;
    IncrementEach(ca, SecondRun);
    SecondRunCounts(c1, ca.Counts);
    present, counts, after := Observe(ca);
  }
}
