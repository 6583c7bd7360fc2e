/** `build_frequency` (utils.py:12-16): the histogram of a sequence, one
    (symbol, count) pair per distinct symbol, in the order in which the
    symbols first occur (the insertion order of the `counts` dict). */
module Frequency {

  /** The distinct symbols of s in order of first occurrence. */
  function Distinct(s: seq<int>): (r: seq<int>)
    ensures forall x :: x in r <==> x in s
  {
    if s == [] then []
    else
      var d := Distinct(s[..|s| - 1]);
      if s[|s| - 1] in d then d else d + [s[|s| - 1]]
  }

  predicate NoDuplicates(s: seq<int>)
  {
    forall a, b :: 0 <= a < b < |s| ==> s[a] != s[b]
  }

  /** The histogram: each distinct symbol with its number of occurrences. */
  function Histogram(s: seq<int>): (r: seq<(int, nat)>)
    ensures |r| == |Distinct(s)|
  {
    var d := Distinct(s);
    seq(|d|, j requires 0 <= j < |d| => (d[j], multiset(s)[d[j]]))
  }

  /** The sum of the counts of a histogram. */
  function Total(r: seq<(int, nat)>): nat
  {
    if r == [] then 0 else Total(r[..|r| - 1]) + r[|r| - 1].1
  }

  /** The index of the first occurrence of x in s. */
  function FirstIndex(s: seq<int>, x: int): (i: nat)
    requires x in s
    ensures i < |s| && s[i] == x && forall t :: 0 <= t < i ==> s[t] != x
  {
    if s[0] == x then 0 else 1 + FirstIndex(s[1..], x)
  }

  /** `build_frequency(sequence)`: count each symbol in a dict, then list the
      dict's items in insertion order. */
  method BuildFrequency(sequence: seq<int>) returns (r: seq<(int, nat)>)
    ensures r == Histogram(sequence)
  {
    var counts: map<int, nat> := map[];
    var keys: seq<int> := [];
    for i := 0 to |sequence|
      invariant keys == Distinct(sequence[..i])
      invariant forall x :: x in counts <==> x in keys
      invariant forall x :: x in counts ==> counts[x] == multiset(sequence[..i])[x]
    {
      var x := sequence[i];
      assert sequence[..i + 1] == sequence[..i] + [x];
      if x !in counts {
        keys := keys + [x];
      }
      counts := counts[x := (if x in counts then counts[x] else 0) + 1];
    }
    assert sequence[..|sequence|] == sequence;
    r := [];
    for j := 0 to |keys|
      invariant |r| == j
      invariant forall x :: x in counts ==> counts[x] == multiset(sequence)[x]
      invariant forall x :: x in keys ==> x in counts
      invariant forall t :: 0 <= t < j ==> r[t] == (keys[t], multiset(sequence)[keys[t]])
    {
      r := r + [(keys[j], counts[keys[j]])];
    }
  }

  /** The distinct symbols are distinct. */
  lemma {:induction false} DistinctNoDuplicates(s: seq<int>)
    ensures NoDuplicates(Distinct(s))
  {
    if s != [] {
      DistinctNoDuplicates(s[..|s| - 1]);
    }
  }

  /** The keys of the histogram are exactly the symbols of the sequence, each
      listed once, and each count is the symbol's number of occurrences, so at
      least 1. */
  lemma HistogramKeys(s: seq<int>)
    ensures forall j :: 0 <= j < |Histogram(s)| ==> Histogram(s)[j].0 in s
    ensures forall x :: x in s ==> exists j :: 0 <= j < |Histogram(s)| && Histogram(s)[j].0 == x
    ensures forall a, b :: 0 <= a < b < |Histogram(s)| ==> Histogram(s)[a].0 != Histogram(s)[b].0
    ensures forall j :: 0 <= j < |Histogram(s)| ==> Histogram(s)[j].1 == multiset(s)[Histogram(s)[j].0] >= 1
  {
    var d, r := Distinct(s), Histogram(s);
    DistinctNoDuplicates(s);
    forall x | x in s ensures exists j :: 0 <= j < |r| && r[j].0 == x {
      var j :| 0 <= j < |d| && d[j] == x;
      assert r[j].0 == x;
    }
  }

  /** The counts of the symbols ks in s. */
  function CountsOf(ks: seq<int>, s: seq<int>): nat
  {
    if ks == [] then 0 else CountsOf(ks[..|ks| - 1], s) + multiset(s)[ks[|ks| - 1]]
  }

  /** One more symbol x in s adds 1 to the counts of ks when x is one of them. */
  lemma {:induction false} CountsOfSnoc(ks: seq<int>, s: seq<int>, x: int)
    requires NoDuplicates(ks)
    ensures CountsOf(ks, s + [x]) == CountsOf(ks, s) + (if x in ks then 1 else 0)
  {
    if ks != [] {
      var front := ks[..|ks| - 1];
      assert NoDuplicates(front);
      CountsOfSnoc(front, s, x);
      assert multiset(s + [x]) == multiset(s) + multiset{x};
      assert x in ks <==> x in front || x == ks[|ks| - 1];
      if x == ks[|ks| - 1] {
        assert x !in front;
      }
    }
  }

  /** The counts of the distinct symbols add up to the length of s. */
  lemma {:induction false} DistinctCounts(s: seq<int>)
    ensures CountsOf(Distinct(s), s) == |s|
  {
    if s != [] {
      var front, x := s[..|s| - 1], s[|s| - 1];
      assert s == front + [x];
      var d := Distinct(front);
      DistinctCounts(front);
      DistinctNoDuplicates(front);
      CountsOfSnoc(d, front, x);
      if x !in d {
        assert (d + [x])[..|d|] == d;
        assert multiset(front)[x] == 0;
      }
    }
  }

  /** The total of the histogram is the counts of its keys. */
  lemma {:induction false} TotalOfPrefix(s: seq<int>, n: nat)
    requires n <= |Histogram(s)|
    ensures Total(Histogram(s)[..n]) == CountsOf(Distinct(s)[..n], s)
  {
    if n > 0 {
      var r := Histogram(s)[..n];
      assert r[..n - 1] == Histogram(s)[..n - 1];
      assert Distinct(s)[..n][..n - 1] == Distinct(s)[..n - 1];
      TotalOfPrefix(s, n - 1);
    }
  }

  /** The counts add up to len(sequence). */
  lemma HistogramTotal(s: seq<int>)
    ensures Total(Histogram(s)) == |s|
  {
    TotalOfPrefix(s, |Histogram(s)|);
    assert Histogram(s)[..|Histogram(s)|] == Histogram(s);
    assert Distinct(s)[..|Distinct(s)|] == Distinct(s);
    DistinctCounts(s);
  }

  /** First occurrences in a prefix are first occurrences in the whole. */
  lemma FirstIndexOfPrefix(s: seq<int>, n: nat, x: int)
    requires n <= |s| && x in s[..n]
    ensures FirstIndex(s[..n], x) == FirstIndex(s, x)
  {
    var i, k := FirstIndex(s[..n], x), FirstIndex(s, x);
    assert s[..n][i] == s[i];
    assert k < n ==> s[..n][k] == s[k];
  }

  /** The symbols are listed in order of their first occurrence. */
  lemma {:induction false} DistinctOrder(s: seq<int>)
    ensures forall a, b :: 0 <= a < b < |Distinct(s)| ==> FirstIndex(s, Distinct(s)[a]) < FirstIndex(s, Distinct(s)[b])
  {
    if s != [] {
      var front, x := s[..|s| - 1], s[|s| - 1];
      var d := Distinct(front);
      DistinctOrder(front);
      forall a, b | 0 <= a < b < |Distinct(s)|
        ensures FirstIndex(s, Distinct(s)[a]) < FirstIndex(s, Distinct(s)[b])
      {
        var u, v := Distinct(s)[a], Distinct(s)[b];
        FirstIndexOfPrefix(s, |s| - 1, u);
        if b < |d| {
          FirstIndexOfPrefix(s, |s| - 1, v);
        } else {
          assert v == x && x !in front;
          assert FirstIndex(s, v) == |s| - 1 by {
            var k := FirstIndex(s, v);
            assert forall t :: 0 <= t < |s| - 1 ==> front[t] == s[t];
          }
        }
      }
    }
  }

  /** The distinct symbols of [0, 1] are 0 and 1. */
  lemma DistinctPair(s: seq<int>)
    requires s == [0, 1]
    ensures Distinct(s) == [0, 1]
  {
    assert Distinct(s[..1]) == [0] by { assert s[..1][..0] == []; }
  }

  /** The distinct symbols of [0, 1, 1, 1, 0] are 0 and 1. */
  lemma DistinctReturn(s: seq<int>)
    requires s == [0, 1, 1, 1, 0]
    ensures Distinct(s) == [0, 1]
  {
    assert Distinct(s[..1]) == [0] by { assert s[..1][..0] == []; }
    assert Distinct(s[..2]) == [0, 1] by { assert s[..2][..1] == s[..1]; }
    assert Distinct(s[..3]) == [0, 1] by { assert s[..3][..2] == s[..2]; }
    assert Distinct(s[..4]) == [0, 1] by { assert s[..4][..3] == s[..3]; }
    assert s[..4] == s[..|s| - 1];
  }

  /** The distinct symbols of [0, 1, 2, 2, 2, 2] are 0, 1 and 2. */
  lemma DistinctRun(s: seq<int>)
    requires s == [0, 1, 2, 2, 2, 2]
    ensures Distinct(s) == [0, 1, 2]
  {
    assert Distinct(s[..1]) == [0] by { assert s[..1][..0] == []; }
    assert Distinct(s[..2]) == [0, 1] by { assert s[..2][..1] == s[..1]; }
    assert Distinct(s[..3]) == [0, 1, 2] by { assert s[..3][..2] == s[..2]; }
    assert Distinct(s[..4]) == [0, 1, 2] by { assert s[..4][..3] == s[..3]; }
    assert Distinct(s[..5]) == [0, 1, 2] by { assert s[..5][..4] == s[..4]; }
    assert s[..5] == s[..|s| - 1];
  }

  lemma OccurrencesPair(s: seq<int>)
    requires s == [0, 1]
    ensures multiset(s)[0] == 1 && multiset(s)[1] == 1
  {
    assert multiset(s) == multiset{0, 1};
  }

  lemma HistogramPair(s: seq<int>)
    requires s == [0, 1]
    ensures Histogram(s) == [(0, 1), (1, 1)]
  {
    DistinctPair(s);
    OccurrencesPair(s);
    var r := Histogram(s);
    assert r[0] == (0, 1) && r[1] == (1, 1);
  }

  lemma OccurrencesReturn(s: seq<int>)
    requires s == [0, 1, 1, 1, 0]
    ensures multiset(s)[0] == 2 && multiset(s)[1] == 3
  {
    calc {
      multiset(s);
      multiset([0] + [1, 1, 1] + [0]);
      multiset([0]) + multiset([1, 1, 1]) + multiset([0]);
    }
  }

  lemma HistogramReturn(s: seq<int>)
    requires s == [0, 1, 1, 1, 0]
    ensures Histogram(s) == [(0, 2), (1, 3)]
  {
    DistinctReturn(s);
    OccurrencesReturn(s);
    var r := Histogram(s);
    assert r[0] == (0, 2) && r[1] == (1, 3);
  }

  lemma OccurrencesRun(s: seq<int>)
    requires s == [0, 1, 2, 2, 2, 2]
    ensures multiset(s)[0] == 1 && multiset(s)[1] == 1 && multiset(s)[2] == 4
  {
    calc {
      multiset(s);
      multiset([0, 1] + [2, 2, 2, 2]);
      multiset([0, 1]) + multiset([2, 2, 2, 2]);
    }
  }

  lemma HistogramRun(s: seq<int>)
    requires s == [0, 1, 2, 2, 2, 2]
    ensures Histogram(s) == [(0, 1), (1, 1), (2, 4)]
  {
    DistinctRun(s);
    OccurrencesRun(s);
    var r := Histogram(s);
    assert r[0] == (0, 1) && r[1] == (1, 1) && r[2] == (2, 4);
  }

  /** The three known answers of `build_frequency` (utils.py:29-31). */
  method Examples() returns (r1: seq<(int, nat)>, r2: seq<(int, nat)>, r3: seq<(int, nat)>)
    ensures r1 == [(0, 1), (1, 1)]
    ensures r2 == [(0, 2), (1, 3)]
    ensures r3 == [(0, 1), (1, 1), (2, 4)]
  {
    r1 := BuildFrequency([0, 1]);
    HistogramPair([0, 1]);
    r2 := BuildFrequency([0, 1, 1, 1, 0]);
    HistogramReturn([0, 1, 1, 1, 0]);
    r3 := BuildFrequency([0, 1, 2, 2, 2, 2]);
    HistogramRun([0, 1, 2, 2, 2, 2]);
  }
}
