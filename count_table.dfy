/** The sparse cumulative-frequency table of the PPM coder (`CountArraySparse`,
    ppm.py:3-58).  Abstractly a table is a list of per-symbol counts; the class
    stores, for every active symbol x, the cumulative count of all symbols <= x,
    and a back link `prev[x]` to the nearest smaller active symbol. */
module CountTable {

  /** Sum of a list of counts. */
  function Sum(c: seq<nat>): nat
  {
    if c == [] then 0 else Sum(c[..|c| - 1]) + c[|c| - 1]
  }

  /** Cumulative count through symbol x (0 for x == -1). */
  function CumCount(c: seq<nat>, x: int): nat
    requires -1 <= x < |c|
  {
    Sum(c[..x + 1])
  }

  /** A symbol is active once it has been counted. */
  predicate Active(c: seq<nat>, x: int)
    requires 0 <= x < |c|
  {
    c[x] > 0
  }

  /** Cumulative counts never decrease along the symbols. */
  lemma {:induction false} CumCountMono(c: seq<nat>, a: int, b: int)
    requires -1 <= a <= b < |c|
    ensures CumCount(c, a) <= CumCount(c, b)
    decreases b - a
  {
    if a < b {
      CumCountStep(c, b);
      CumCountMono(c, a, b - 1);
    }
  }

  /** The nearest active symbol strictly below x, or -1 when there is none. */
  function PrevActive(c: seq<nat>, x: int): (r: int)
    requires 0 <= x <= |c|
    ensures -1 <= r < x
    ensures r >= 0 ==> c[r] > 0
    ensures forall y :: r < y < x ==> c[y] == 0
  {
    if x == 0 then -1 else if c[x - 1] > 0 then x - 1 else PrevActive(c, x - 1)
  }

  /** The largest active symbol, or -1 for an empty table. */
  function LastActive(c: seq<nat>): (r: int)
    ensures -1 <= r < |c|
    ensures r >= 0 ==> c[r] > 0
    ensures forall y :: r < y < |c| ==> c[y] == 0
  {
    PrevActive(c, |c|)
  }

  /** The counts after one more occurrence of x. */
  function Inc(c: seq<nat>, x: int): (r: seq<nat>)
    requires 0 <= x < |c|
    ensures |r| == |c| && r[x] == c[x] + 1
    ensures forall y :: 0 <= y < |c| && y != x ==> r[y] == c[y]
  {
    c[x := c[x] + 1]
  }

  function Zeros(n: nat): (r: seq<nat>)
    ensures |r| == n && forall y :: 0 <= y < n ==> r[y] == 0
  {
    seq(n, _ => 0)
  }

  lemma CumCountStep(c: seq<nat>, x: int)
    requires 0 <= x < |c|
    ensures CumCount(c, x) == CumCount(c, x - 1) + c[x]
  {
    assert c[..x + 1][..x] == c[..x];
  }

  /** Inactive symbols between a and b add nothing to the cumulative count. */
  lemma {:induction false} CumCountSkip(c: seq<nat>, a: int, b: int)
    requires -1 <= a <= b < |c|
    requires forall y :: a < y <= b ==> c[y] == 0
    ensures CumCount(c, b) == CumCount(c, a)
  {
    if a < b {
      CumCountStep(c, b);
      CumCountSkip(c, a, b - 1);
    }
  }

  /** The stored value of x minus the stored value of its predecessor is x's own count. */
  lemma CumCountPrev(c: seq<nat>, x: int)
    requires 0 <= x < |c|
    ensures CumCount(c, x) == c[x] + CumCount(c, PrevActive(c, x))
  {
    CumCountStep(c, x);
    CumCountSkip(c, PrevActive(c, x), x - 1);
  }

  lemma {:induction false} CumCountAtEnd(c: seq<nat>)
    ensures CumCount(c, |c| - 1) == Sum(c)
  {
    assert c[..|c|] == c;
  }

  /** The total equals the cumulative count of the largest active symbol. */
  lemma TotalIsCumCountOfLast(c: seq<nat>)
    ensures Sum(c) == CumCount(c, LastActive(c))
  {
    CumCountAtEnd(c);
    CumCountSkip(c, LastActive(c), |c| - 1);
  }

  /** One more occurrence of x adds 1 to the cumulative count of x and of every
      symbol above it, and leaves the symbols below x as they were. */
  lemma {:induction false} CumCountInc(c: seq<nat>, x: int, y: int)
    requires 0 <= x < |c| && -1 <= y < |c|
    ensures CumCount(Inc(c, x), y) == CumCount(c, y) + (if y >= x then 1 else 0)
  {
    if y >= 0 {
      CumCountStep(c, y);
      CumCountStep(Inc(c, x), y);
      CumCountInc(c, x, y - 1);
    }
  }

  /** Counting x for the first time splices it into the predecessor chain. */
  lemma {:induction false} PrevActiveInc(c: seq<nat>, x: int, y: int)
    requires 0 <= x < |c| && 0 <= y <= |c|
    ensures PrevActive(Inc(c, x), y) ==
      if y <= x then PrevActive(c, y)
      else if PrevActive(c, y) > x then PrevActive(c, y) else x
  {
    if y > 0 {
      PrevActiveInc(c, x, y - 1);
    }
  }

  /** The total never decreases and grows by exactly one per increment. */
  lemma SumInc(c: seq<nat>, x: int)
    requires 0 <= x < |c|
    ensures Sum(Inc(c, x)) == Sum(c) + 1
  {
    CumCountAtEnd(c);
    CumCountAtEnd(Inc(c, x));
    CumCountInc(c, x, |c| - 1);
  }

  /** The counts after one increment per element of xs, in order, from c. */
  function IncAll(c: seq<nat>, xs: seq<int>): (r: seq<nat>)
    requires forall k :: 0 <= k < |xs| ==> 0 <= xs[k] < |c|
    ensures |r| == |c|
  {
    if xs == [] then c else Inc(IncAll(c, xs[..|xs| - 1]), xs[|xs| - 1])
  }

  /** How often x occurs in xs. */
  function Occurrences(xs: seq<int>, x: int): nat
  {
    if xs == [] then 0 else Occurrences(xs[..|xs| - 1], x) + (if xs[|xs| - 1] == x then 1 else 0)
  }

  /** How many elements of xs are at most y. */
  function AtMost(xs: seq<int>, y: int): nat
  {
    if xs == [] then 0 else AtMost(xs[..|xs| - 1], y) + (if xs[|xs| - 1] <= y then 1 else 0)
  }

  /** After any run of increments, each symbol's count has grown by the
      number of its increments. */
  lemma {:induction false} IncAllCount(c: seq<nat>, xs: seq<int>, x: int)
    requires forall k :: 0 <= k < |xs| ==> 0 <= xs[k] < |c|
    requires 0 <= x < |c|
    ensures IncAll(c, xs)[x] == c[x] + Occurrences(xs, x)
  {
    if xs != [] {
      IncAllCount(c, xs[..|xs| - 1], x);
    }
  }

  /** After any run of increments, each cumulative count has grown by the
      number of increments of symbols at most y. */
  lemma {:induction false} IncAllCumCount(c: seq<nat>, xs: seq<int>, y: int)
    requires forall k :: 0 <= k < |xs| ==> 0 <= xs[k] < |c|
    requires -1 <= y < |c|
    ensures CumCount(IncAll(c, xs), y) == CumCount(c, y) + AtMost(xs, y)
  {
    if xs != [] {
      var front := xs[..|xs| - 1];
      IncAllCumCount(c, front, y);
      CumCountInc(IncAll(c, front), xs[|xs| - 1], y);
    }
  }

  /** Occurrences counts the elements of the multiset. */
  lemma {:induction false} OccurrencesIsMultiplicity(xs: seq<int>, x: int)
    ensures Occurrences(xs, x) == multiset(xs)[x]
  {
    if xs != [] {
      OccurrencesIsMultiplicity(xs[..|xs| - 1], x);
      assert xs == xs[..|xs| - 1] + [xs[|xs| - 1]];
    }
  }

  /** After any run of increments, whatever their order, each count has
      grown by the multiplicity of its symbol in the run. */
  lemma IncAllMultiplicity(c: seq<nat>, xs: seq<int>, x: int)
    requires forall k :: 0 <= k < |xs| ==> 0 <= xs[k] < |c|
    requires 0 <= x < |c|
    ensures IncAll(c, xs)[x] == c[x] + multiset(xs)[x]
  {
    IncAllCount(c, xs, x);
    OccurrencesIsMultiplicity(xs, x);
  }

  /** The order of the increments does not matter: runs with the same
      multiset of symbols give the same counts. */
  lemma IncAllOrder(c: seq<nat>, xs: seq<int>, ys: seq<int>)
    requires forall k :: 0 <= k < |xs| ==> 0 <= xs[k] < |c|
    requires forall k :: 0 <= k < |ys| ==> 0 <= ys[k] < |c|
    requires multiset(xs) == multiset(ys)
    ensures IncAll(c, xs) == IncAll(c, ys)
  {
    forall x | 0 <= x < |c| ensures IncAll(c, xs)[x] == IncAll(c, ys)[x] {
      IncAllMultiplicity(c, xs, x);
      IncAllMultiplicity(c, ys, x);
    }
  }

  /** An empty table has no cumulative count anywhere. */
  lemma ZerosCumCount(n: nat, y: int)
    requires -1 <= y < n
    ensures CumCount(Zeros(n), y) == 0
  {
    CumCountSkip(Zeros(n), -1, y);
  }

  /** What the two arrays of a table hold for the counts c: for every active y its
      cumulative count and its nearest smaller active symbol, and 0 / -1 elsewhere. */
  ghost predicate Stored(cs: seq<int>, ps: seq<int>, c: seq<nat>)
  {
    && |cs| == |ps| == |c|
    && (forall y {:trigger cs[y]} :: 0 <= y < |c| ==> cs[y] == if c[y] > 0 then CumCount(c, y) else 0)
    && (forall y {:trigger ps[y]} :: 0 <= y < |c| ==> ps[y] == if c[y] > 0 then PrevActive(c, y) else -1)
  }

  /** Cumulative array part-way through the walk of `increment_count`: x already
      bumped, and every active symbol from j upwards bumped. */
  function Bumped(cs: seq<int>, c: seq<nat>, x: int, j: int): (r: seq<int>)
    requires |cs| == |c|
    ensures |r| == |cs|
  {
    seq(|cs|, y requires 0 <= y < |cs| =>
      if y == x || (c[y] > 0 && y >= j) then cs[y] + 1 else cs[y])
  }

  lemma StoredFacts(cs: seq<int>, ps: seq<int>, c: seq<nat>, x: int)
    requires Stored(cs, ps, c) && 0 <= x < |c|
    ensures forall y :: 0 <= y < |c| ==> CumCount(Inc(c, x), y) == CumCount(c, y) + (if y >= x then 1 else 0)
    ensures forall y :: 0 <= y <= |c| ==>
      PrevActive(Inc(c, x), y) ==
        (if y <= x then PrevActive(c, y)
         else if PrevActive(c, y) > x then PrevActive(c, y) else x)
  {
    forall y | 0 <= y < |c| ensures CumCount(Inc(c, x), y) == CumCount(c, y) + (if y >= x then 1 else 0) {
      CumCountInc(c, x, y);
    }
    forall y | 0 <= y <= |c|
      ensures PrevActive(Inc(c, x), y) ==
        if y <= x then PrevActive(c, y)
        else if PrevActive(c, y) > x then PrevActive(c, y) else x
    {
      PrevActiveInc(c, x, y);
    }
  }

  /** Increment of the largest active symbol, or of the first symbol of an empty table. */
  lemma IncAtLast(cs: seq<int>, ps: seq<int>, c: seq<nat>, x: int)
    requires Stored(cs, ps, c) && 0 <= x < |c|
    requires LastActive(c) == -1 || LastActive(c) == x
    ensures Stored(cs[x := cs[x] + 1], ps, Inc(c, x))
    ensures LastActive(Inc(c, x)) == x
  {
    StoredFacts(cs, ps, c, x);
    if LastActive(c) == -1 {
      CumCountSkip(c, -1, x);
    }
  }

  /** First increment of a symbol above the largest active one. */
  lemma IncAboveLast(cs: seq<int>, ps: seq<int>, c: seq<nat>, x: int)
    requires Stored(cs, ps, c) && 0 <= x < |c|
    requires 0 <= LastActive(c) < x
    ensures Stored(cs[x := 1 + cs[LastActive(c)]], ps[x := LastActive(c)], Inc(c, x))
    ensures LastActive(Inc(c, x)) == x
  {
    StoredFacts(cs, ps, c, x);
    CumCountSkip(c, LastActive(c), x);
  }

  /** One step of the walk: bump the next active symbol i down the chain. */
  lemma BumpStep(cs: seq<int>, c: seq<nat>, x: int, j: int, i: int)
    requires |cs| == |c| && 0 <= x < i < j <= |c| && i == PrevActive(c, j)
    ensures Bumped(cs, c, x, j)[i := Bumped(cs, c, x, j)[i] + 1] == Bumped(cs, c, x, i)
  {
    var a, b := Bumped(cs, c, x, j)[i := Bumped(cs, c, x, j)[i] + 1], Bumped(cs, c, x, i);
    forall y | 0 <= y < |cs| ensures a[y] == b[y] {
      if i < y < j {
        assert c[y] == 0;
      }
    }
  }

  /** The walk reached x itself: x was already active. */
  lemma IncFoundInChain(cs: seq<int>, ps: seq<int>, c: seq<nat>, x: int, j: int)
    requires Stored(cs, ps, c) && 0 <= x < j < |c| && c[j] > 0
    requires PrevActive(c, j) == x && x >= 0
    ensures Stored(Bumped(cs, c, x, j), ps, Inc(c, x))
    ensures LastActive(Inc(c, x)) == LastActive(c)
  {
    StoredFacts(cs, ps, c, x);
  }

  /** PrevActive is characterised by its postcondition. */
  lemma {:induction false} PrevActiveUnique(c: seq<nat>, x: int, r: int)
    requires 0 <= x <= |c| && -1 <= r < x
    requires r >= 0 ==> c[r] > 0
    requires forall y :: r < y < x ==> c[y] == 0
    ensures PrevActive(c, x) == r
  {
    if x - 1 > r {
      PrevActiveUnique(c, x - 1, r);
    }
  }

  /** The cumulative array after the splice of a new x between i and j. */
  lemma SpliceCum(cs: seq<int>, ps: seq<int>, c: seq<nat>, x: int, j: int, i: int, y: int)
    requires Stored(cs, ps, c) && 0 <= x < j < |c| && c[j] > 0
    requires i == PrevActive(c, j) && i < x && 0 <= y < |c|
    ensures var cs1 := Bumped(cs, c, x, j)[x := 1 + (if i >= 0 then CumCount(c, i) else 0)];
      cs1[y] == if Inc(c, x)[y] > 0 then CumCount(Inc(c, x), y) else 0
  {
    CumCountInc(c, x, y);
    if y == x {
      CumCountSkip(c, i, x);
    } else if c[y] > 0 && y < j {
      assert y <= i;
    }
  }

  /** The predecessor array after the splice of a new x between i and j. */
  lemma SplicePrev(cs: seq<int>, ps: seq<int>, c: seq<nat>, x: int, j: int, i: int, y: int)
    requires Stored(cs, ps, c) && 0 <= x < j < |c| && c[j] > 0
    requires i == PrevActive(c, j) && i < x && 0 <= y < |c|
    ensures ps[j := x][x := i][y] == if Inc(c, x)[y] > 0 then PrevActive(Inc(c, x), y) else -1
  {
    PrevActiveInc(c, x, y);
    if y == x {
      PrevActiveUnique(c, x, i);
    } else if y != j && c[y] > 0 {
      if y > j {
        assert PrevActive(c, y) >= j;
      } else {
        assert y <= i;
      }
    }
  }

  /** The walk stopped below x: x is new and is spliced in between i and j. */
  lemma IncSplice(cs: seq<int>, ps: seq<int>, c: seq<nat>, x: int, j: int, i: int)
    requires Stored(cs, ps, c) && 0 <= x < j < |c| && c[j] > 0
    requires i == PrevActive(c, j) && i < x
    ensures c[x] == 0 && Bumped(cs, c, x, j)[x] == 1
    ensures i >= 0 ==> Bumped(cs, c, x, j)[i] == CumCount(c, i)
    ensures Stored(Bumped(cs, c, x, j)[x := 1 + (if i >= 0 then CumCount(c, i) else 0)],
                   ps[j := x][x := i], Inc(c, x))
    ensures LastActive(Inc(c, x)) == LastActive(c)
  {
    var c1 := Inc(c, x);
    var cs1 := Bumped(cs, c, x, j)[x := 1 + (if i >= 0 then CumCount(c, i) else 0)];
    var ps1 := ps[j := x][x := i];
    forall y {:trigger cs1[y]} | 0 <= y < |c| ensures cs1[y] == if c1[y] > 0 then CumCount(c1, y) else 0 {
      SpliceCum(cs, ps, c, x, j, i, y);
    }
    forall y {:trigger ps1[y]} | 0 <= y < |c| ensures ps1[y] == if c1[y] > 0 then PrevActive(c1, y) else -1 {
      SplicePrev(cs, ps, c, x, j, i, y);
    }
    PrevActiveInc(c, x, |c|);
    assert LastActive(c) >= j;
  }

  class CountArraySparse {
    const cumCounts: array<int>
    const prev: array<int>
    var last: int
    /** Abstract value: the number of increments of each symbol so far. */
    ghost var Counts: seq<nat>

    ghost function Repr(): set<object>
    {
      {this, cumCounts, prev}
    }

    ghost predicate Valid()
      reads this, cumCounts, prev
    {
      && cumCounts != prev
      && Stored(cumCounts[..], prev[..], Counts)
      && last == LastActive(Counts)
    }

    /** `CountArraySparse(len)`: an empty table over symbols 0..len-1. */
    constructor (len: nat)
      ensures Valid() && fresh(Repr())
      ensures Counts == Zeros(len)
    {
      cumCounts := new int[len](_ => 0);
      prev := new int[len](_ => -1);
      last := -1;
      Counts := Zeros(len);
    }

    /** `contains(x)`: x has been counted at least once. */
    method Contains(x: int) returns (b: bool)
      requires Valid() && 0 <= x < |Counts|
      ensures b <==> Counts[x] > 0
    {
      assert cumCounts[..][x] == cumCounts[x];
      if Counts[x] > 0 {
        CumCountStep(Counts, x);
      }
      b := cumCounts[x] > 0;
    }

    /** `get_count(x)`: the number of times x has been counted. */
    method GetCount(x: int) returns (r: int)
      requires Valid() && 0 <= x < |Counts|
      ensures r == Counts[x]
    {
      assert cumCounts[..][x] == cumCounts[x] && prev[..][x] == prev[x];
      if Counts[x] > 0 {
        CumCountPrev(Counts, x);
      }
      if prev[x] == -1 {
        r := cumCounts[x];
      } else {
        assert cumCounts[..][prev[x]] == cumCounts[prev[x]];
        r := cumCounts[x] - cumCounts[prev[x]];
      }
    }

    /** `get_cum_count(x)`: for an active x, the sum of the counts of all symbols <= x. */
    method GetCumCount(x: int) returns (r: int)
      requires Valid() && 0 <= x < |Counts|
      ensures r == if Counts[x] > 0 then CumCount(Counts, x) else 0
    {
      assert cumCounts[..][x] == cumCounts[x];
      r := cumCounts[x];
    }

    /** `get_total_count()`: the number of increments so far (0 for an empty table). */
    method GetTotalCount() returns (r: int)
      requires Valid()
      ensures r == Sum(Counts)
    {
      TotalIsCumCountOfLast(Counts);
      if last == -1 {
        r := 0;
      } else {
        assert cumCounts[..][last] == cumCounts[last];
        r := cumCounts[last];
      }
    }

    /** `increment_count(x)`: count one more occurrence of x.  When x is below the
        largest active symbol, the loop walks the predecessor chain down from
        `last`, adding 1 to every active symbol above x, and splices a new x in. */
    method IncrementCount(x: int)
      requires Valid() && 0 <= x < |Counts|
      modifies this, cumCounts, prev
      ensures Valid()
      ensures Counts == Inc(old(Counts), x)
    {
      ghost var c0, cs0, ps0 := Counts, cumCounts[..], prev[..];

      cumCounts[x] := cumCounts[x] + 1;
      assert cumCounts[..] == cs0[x := cs0[x] + 1];

      if last == -1 || last == x {
        IncAtLast(cs0, ps0, c0, x);
        last := x;
        Counts := Inc(c0, x);
        return;
      }

      if last < x {
        IncAboveLast(cs0, ps0, c0, x);
        assert cs0[x] == 0 && cs0[last] == cumCounts[last];
        prev[x] := last;
        cumCounts[x] := cumCounts[x] + cumCounts[last];
        assert cumCounts[..] == cs0[x := 1 + cs0[last]];
        assert prev[..] == ps0[x := last];
        last := x;
        Counts := Inc(c0, x);
        return;
      }

      var j, i := BumpChainAbove(x, c0, cs0, ps0);

      if i == x {
        IncFoundInChain(cs0, ps0, c0, x, j);
        Counts := Inc(c0, x);
        return;
      }

      IncSplice(cs0, ps0, c0, x, j, i);
      ghost var bumped := cumCounts[..];
      assert cumCounts[x] == bumped[x] == 1;
      if i >= 0 && i < x && cumCounts[x] == 1 {
        cumCounts[x] := cumCounts[x] + cumCounts[i];
      }
      assert cumCounts[..] == bumped[x := 1 + (if i >= 0 then CumCount(c0, i) else 0)];

      prev[j] := x;
      prev[x] := i;
      assert prev[..] == ps0[j := x][x := i];
      Counts := Inc(c0, x);
    }

    /** The loop of `increment_count`: from `last` down the predecessor chain, add 1
        to every active symbol above x.  Returns the last symbol bumped (j) and its
        predecessor (i), the first active symbol <= x or -1. */
    method BumpChainAbove(x: int, ghost c0: seq<nat>, ghost cs0: seq<int>, ghost ps0: seq<int>)
      returns (j: int, i: int)
      requires cumCounts != prev && Stored(cs0, ps0, c0) && Counts == c0
      requires 0 <= x < last == LastActive(c0)
      requires cumCounts[..] == cs0[x := cs0[x] + 1] && prev[..] == ps0
      modifies cumCounts
      ensures x < j < |c0| && c0[j] > 0 && i == PrevActive(c0, j) && i <= x
      ensures cumCounts[..] == Bumped(cs0, c0, x, j)
    {
      j := last;
      cumCounts[last] := cumCounts[last] + 1;
      assert cumCounts[..] == Bumped(cs0, c0, x, j);

      i := prev[j];
      while i > x
        invariant x < j < |c0| && c0[j] > 0
        invariant i == PrevActive(c0, j)
        invariant cumCounts[..] == Bumped(cs0, c0, x, j)
        decreases i
      {
        BumpStep(cs0, c0, x, j, i);
        cumCounts[i] := cumCounts[i] + 1;
        j := i;
        i := prev[j];
      }
    }
  }
}
