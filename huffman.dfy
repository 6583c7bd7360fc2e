/** The Huffman coder (huffman.py): `build_huffman_code` sorts the (symbol,
    frequency) pairs by frequency, repeatedly merges the two lightest trees and
    re-inserts the merged tree with `bisect_right`, then walks the tree to fill
    a 256-slot lookup list with '0'/'1' paths; `encode` concatenates the codes
    and `decode` walks the tree bit by bit. */
module Huffman {
  import opened Wrappers

  /** A (symbol, frequency) pair. */
  type Pair = (int, int)

  /** A tree node: the source's `[s, None, None]` leaf or `[None, l, r]` node. */
  datatype Tree = Leaf(symbol: int) | Node(left: Tree, right: Tree)

  /** The code returned by `build_huffman_code`: the root and the lookup list. */
  datatype Code = Code(root: Tree, lookup: seq<Option<seq<char>>>)

  /** The leaf symbols of a tree, left to right. */
  function Symbols(t: Tree): seq<int>
  {
    match t
    case Leaf(s) => [s]
    case Node(l, r) => Symbols(l) + Symbols(r)
  }

  /** The leaf symbols of a list of trees, as a multiset. */
  function Forest(ts: seq<Tree>): multiset<int>
  {
    if ts == [] then multiset{} else multiset(Symbols(ts[0])) + Forest(ts[1..])
  }

  predicate Sorted(ws: seq<int>)
  {
    forall a, b :: 0 <= a < b < |ws| ==> ws[a] <= ws[b]
  }

  function Weights(ps: seq<Pair>): (r: seq<int>)
    ensures |r| == |ps| && forall k :: 0 <= k < |ps| ==> r[k] == ps[k].1
  {
    seq(|ps|, k requires 0 <= k < |ps| => ps[k].1)
  }

  function Firsts(ps: seq<Pair>): (r: seq<int>)
    ensures |r| == |ps| && forall k :: 0 <= k < |ps| ==> r[k] == ps[k].0
  {
    seq(|ps|, k requires 0 <= k < |ps| => ps[k].0)
  }

  function Leaves(ps: seq<Pair>): (r: seq<Tree>)
    ensures |r| == |ps| && forall k :: 0 <= k < |ps| ==> r[k] == Leaf(ps[k].0)
  {
    seq(|ps|, k requires 0 <= k < |ps| => Leaf(ps[k].0))
  }

  /** `bisect_right(a, x)`: the position after every entry <= x and before the
      first entry > x. */
  function BisectRight(a: seq<int>, x: int): (i: nat)
    ensures i <= |a|
    ensures forall k :: 0 <= k < i ==> a[k] <= x
    ensures i < |a| ==> x < a[i]
  {
    if a == [] || x < a[0] then 0 else 1 + BisectRight(a[1..], x)
  }

  /** `a.insert(i, x)`. */
  function Insert<T>(a: seq<T>, i: nat, x: T): (r: seq<T>)
    requires i <= |a|
    ensures |r| == |a| + 1
    ensures forall k :: 0 <= k < i ==> r[k] == a[k]
    ensures r[i] == x
    ensures forall k :: i < k < |r| ==> r[k] == a[k - 1]
  {
    a[..i] + [x] + a[i..]
  }

  /** Inserting at `bisect_right` keeps a sorted list sorted. */
  lemma InsertSorted(a: seq<int>, x: int)
    requires Sorted(a)
    ensures Sorted(Insert(a, BisectRight(a, x), x))
  {
    var i := BisectRight(a, x);
    var b := Insert(a, i, x);
    forall u, v | 0 <= u < v < |b| ensures b[u] <= b[v] {
      if i < v && u <= i {
        assert a[i] <= a[v - 1];
      }
    }
  }

  lemma MultisetInsert<T>(a: seq<T>, i: nat, x: T)
    requires i <= |a|
    ensures multiset(Insert(a, i, x)) == multiset(a) + multiset{x}
  {
    assert a == a[..i] + a[i..];
  }

  /** Insert p after every pair of weight <= its own. */
  function InsertByWeight(s: seq<Pair>, p: Pair): (r: seq<Pair>)
    ensures |r| == |s| + 1
  {
    Insert(s, BisectRight(Weights(s), p.1), p)
  }

  lemma InsertByWeightFacts(s: seq<Pair>, p: Pair)
    requires Sorted(Weights(s))
    ensures Sorted(Weights(InsertByWeight(s, p)))
    ensures multiset(Firsts(InsertByWeight(s, p))) == multiset(Firsts(s)) + multiset{p.0}
  {
    var i := BisectRight(Weights(s), p.1);
    InsertSorted(Weights(s), p.1);
    assert Weights(InsertByWeight(s, p)) == Insert(Weights(s), i, p.1);
    assert Firsts(InsertByWeight(s, p)) == Insert(Firsts(s), i, p.0);
    MultisetInsert(Firsts(s), i, p.0);
  }

  /** `sorted(frequency, key = lambda x: x[1])`: a stable sort by frequency,
      written as an insertion sort that puts each pair after the pairs of equal
      weight already placed. */
  function SortByWeight(ps: seq<Pair>): (r: seq<Pair>)
    ensures |r| == |ps|
  {
    if ps == [] then [] else InsertByWeight(SortByWeight(ps[..|ps| - 1]), ps[|ps| - 1])
  }

  /** The pairs of weight w, in their order in ps. */
  function OfWeight(ps: seq<Pair>, w: int): seq<Pair>
  {
    if ps == [] then []
    else OfWeight(ps[..|ps| - 1], w) + (if ps[|ps| - 1].1 == w then [ps[|ps| - 1]] else [])
  }

  lemma {:induction false} OfWeightConcat(a: seq<Pair>, b: seq<Pair>, w: int)
    ensures OfWeight(a + b, w) == OfWeight(a, w) + OfWeight(b, w)
    decreases |b|
  {
    if b == [] {
      assert a + b == a;
    } else {
      var front := b[..|b| - 1];
      assert (a + b)[..|a + b| - 1] == a + front;
      OfWeightConcat(a, front, w);
    }
  }

  lemma {:induction false} OfWeightNone(ps: seq<Pair>, w: int)
    requires forall k :: 0 <= k < |ps| ==> ps[k].1 != w
    ensures OfWeight(ps, w) == []
    decreases |ps|
  {
    if ps != [] {
      OfWeightNone(ps[..|ps| - 1], w);
    }
  }

  lemma OfWeightSingle(p: Pair, w: int)
    ensures OfWeight([p], w) == if p.1 == w then [p] else []
  {
    assert [p][..0] == [];
  }

  /** In a list sorted by weight, every pair from `bisect_right` of x on is
      heavier than x. */
  lemma HeavierFromBisect(s: seq<Pair>, x: int)
    requires Sorted(Weights(s))
    ensures forall k :: BisectRight(Weights(s), x) <= k < |s| ==> x < s[k].1
  {
    var i := BisectRight(Weights(s), x);
    forall k | i <= k < |s|
      ensures x < s[k].1
    {
      if k > i {
        assert Weights(s)[i] <= Weights(s)[k];
      }
    }
  }

  /** Splicing p in front of heavier pairs adds it after the pairs of its
      own weight. */
  lemma {:induction false} OfWeightSplice(front: seq<Pair>, p: Pair, back: seq<Pair>, w: int)
    requires forall k :: 0 <= k < |back| ==> p.1 < back[k].1
    ensures OfWeight(front + [p] + back, w) == OfWeight(front + back, w) + (if p.1 == w then [p] else [])
  {
    OfWeightConcat(front + [p], back, w);
    OfWeightConcat(front, [p], w);
    OfWeightConcat(front, back, w);
    OfWeightSingle(p, w);
    if p.1 == w {
      OfWeightNone(back, w);
    }
  }

  /** Inserting p by weight puts it after every pair of its own weight and
      keeps the order of the others. */
  lemma InsertByWeightStable(s: seq<Pair>, p: Pair, w: int)
    requires Sorted(Weights(s))
    ensures OfWeight(InsertByWeight(s, p), w) == OfWeight(s, w) + (if p.1 == w then [p] else [])
  {
    var i := BisectRight(Weights(s), p.1);
    HeavierFromBisect(s, p.1);
    OfWeightSplice(s[..i], p, s[i..], w);
    assert s[..i] + s[i..] == s;
  }

  lemma {:induction false} SortByWeightSorted(ps: seq<Pair>)
    ensures Sorted(Weights(SortByWeight(ps)))
    ensures multiset(Firsts(SortByWeight(ps))) == multiset(Firsts(ps))
  {
    if ps != [] {
      var front, p := ps[..|ps| - 1], ps[|ps| - 1];
      SortByWeightSorted(front);
      InsertByWeightFacts(SortByWeight(front), p);
      FirstsSnoc(ps);
    }
  }

  lemma {:induction false} SortByWeightPermutes(ps: seq<Pair>)
    ensures multiset(SortByWeight(ps)) == multiset(ps)
  {
    if ps != [] {
      var front, p := ps[..|ps| - 1], ps[|ps| - 1];
      SortByWeightPermutes(front);
      MultisetInsert(SortByWeight(front), BisectRight(Weights(SortByWeight(front)), p.1), p);
      assert ps == front + [p];
    }
  }

  lemma {:induction false} SortByWeightStable(ps: seq<Pair>, w: int)
    ensures OfWeight(SortByWeight(ps), w) == OfWeight(ps, w)
  {
    if ps != [] {
      var front, p := ps[..|ps| - 1], ps[|ps| - 1];
      SortByWeightStable(front, w);
      SortByWeightSorted(front);
      InsertByWeightStable(SortByWeight(front), p, w);
    }
  }

  /** The sorted list is sorted by weight and is a permutation of the input
      that keeps pairs of equal weight in their input order, which is what
      the stable `sorted` returns; in particular it holds the same symbols. */
  lemma SortByWeightFacts(ps: seq<Pair>)
    ensures Sorted(Weights(SortByWeight(ps)))
    ensures multiset(SortByWeight(ps)) == multiset(ps)
    ensures forall w :: OfWeight(SortByWeight(ps), w) == OfWeight(ps, w)
    ensures multiset(Firsts(SortByWeight(ps))) == multiset(Firsts(ps))
  {
    SortByWeightSorted(ps);
    SortByWeightPermutes(ps);
    forall w
      ensures OfWeight(SortByWeight(ps), w) == OfWeight(ps, w)
    {
      SortByWeightStable(ps, w);
    }
  }

  lemma FirstsSnoc(ps: seq<Pair>)
    requires ps != []
    ensures Firsts(ps) == Firsts(ps[..|ps| - 1]) + [ps[|ps| - 1].0]
  {
  }

  /** Inserting a tree adds its leaves. */
  lemma {:induction false} ForestInsert(a: seq<Tree>, i: nat, t: Tree)
    requires i <= |a|
    ensures Forest(Insert(a, i, t)) == Forest(a) + multiset(Symbols(t))
  {
    if i == 0 {
      assert Insert(a, i, t)[1..] == a;
    } else {
      assert Insert(a, i, t)[1..] == Insert(a[1..], i - 1, t);
      ForestInsert(a[1..], i - 1, t);
    }
  }

  /** One turn of the merge loop: pop the two lightest trees, and insert their
      union, weighing the sum of their weights, at `bisect_right`. */
  function Step(ws: seq<int>, ts: seq<Tree>): (r: (seq<int>, seq<Tree>))
    requires |ws| == |ts| >= 2
    ensures |r.0| == |r.1| == |ws| - 1
  {
    var w := ws[0] + ws[1];
    var i := BisectRight(ws[2..], w);
    (Insert(ws[2..], i, w), Insert(ts[2..], i, Node(ts[0], ts[1])))
  }

  /** A turn keeps the weights sorted: the two popped weights are the
      smallest, and the sum goes in at its place. */
  lemma StepSorted(ws: seq<int>, ts: seq<Tree>)
    requires |ws| == |ts| >= 2 && Sorted(ws)
    ensures Sorted(Step(ws, ts).0)
  {
    var rest := ws[2..];
    assert Sorted(rest);
    InsertSorted(rest, ws[0] + ws[1]);
  }

  /** A turn replaces the two popped weights by their sum. */
  lemma StepSum(ws: seq<int>, ts: seq<Tree>)
    requires |ws| == |ts| >= 2
    ensures multiset(Step(ws, ts).0) == multiset(ws[2..]) + multiset{ws[0] + ws[1]}
  {
    var w, rest := ws[0] + ws[1], ws[2..];
    var i := BisectRight(rest, w);
    assert Step(ws, ts).0 == Insert(rest, i, w);
    MultisetInsert(rest, i, w);
  }

  /** A turn keeps every leaf. */
  lemma StepForest(ws: seq<int>, ts: seq<Tree>)
    requires |ws| == |ts| >= 2
    ensures Forest(Step(ws, ts).1) == Forest(ts)
  {
    var i := BisectRight(ws[2..], ws[0] + ws[1]);
    ForestInsert(ts[2..], i, Node(ts[0], ts[1]));
    assert ts[1..][1..] == ts[2..];
  }

  /** The list of trees the merge loop ends with. */
  function Merged(ws: seq<int>, ts: seq<Tree>): seq<Tree>
    requires |ws| == |ts|
    decreases |ws|
  {
    if |ws| <= 1 then ts else var st := Step(ws, ts); Merged(st.0, st.1)
  }

  /** The merge loop ends with a single tree holding every leaf (none for an
      empty list), and that tree is a node once there were two trees. */
  lemma {:induction false} MergedFacts(ws: seq<int>, ts: seq<Tree>)
    requires |ws| == |ts| && Sorted(ws)
    ensures |Merged(ws, ts)| == if ws == [] then 0 else 1
    decreases |ws|
    ensures Forest(Merged(ws, ts)) == Forest(ts)
    ensures |ws| >= 2 ==> Merged(ws, ts)[0].Node?
  {
    if |ws| >= 2 {
      var st := Step(ws, ts);
      StepSorted(ws, ts);
      StepForest(ws, ts);
      MergedFacts(st.0, st.1);
      if |st.0| == 1 {
        assert st.1 == [Node(ts[0], ts[1])];
      }
    }
  }

  /** The tree `build_huffman_code` builds, or None when the list is empty
      (`sorted_nodes[0]` raises IndexError). */
  function BuildTree(frequency: seq<Pair>): Option<Tree>
  {
    var s := SortByWeight(frequency);
    var m := Merged(Weights(s), Leaves(s));
    if m == [] then None else Some(m[0])
  }

  lemma {:induction false} ForestLeaves(ps: seq<Pair>)
    ensures Forest(Leaves(ps)) == multiset(Firsts(ps))
  {
    if ps != [] {
      assert Leaves(ps)[1..] == Leaves(ps[1..]);
      assert Firsts(ps) == [ps[0].0] + Firsts(ps[1..]);
      ForestLeaves(ps[1..]);
    }
  }

  /** The tree exists iff the list is non-empty; its leaves carry exactly the
      symbols of the list; with two or more pairs the root is a node. */
  lemma BuildTreeFacts(frequency: seq<Pair>)
    ensures BuildTree(frequency).Some? <==> frequency != []
    ensures BuildTree(frequency).Some? ==> multiset(Symbols(BuildTree(frequency).value)) == multiset(Firsts(frequency))
    ensures |frequency| >= 2 ==> BuildTree(frequency).Some? && BuildTree(frequency).value.Node?
  {
    var s := SortByWeight(frequency);
    SortByWeightFacts(frequency);
    MergedFacts(Weights(s), Leaves(s));
    ForestLeaves(s);
    var m := Merged(Weights(s), Leaves(s));
    if m != [] {
      assert m[1..] == [];
    }
  }

  /** Every symbol of the tree fits the 256-slot lookup list. */
  predicate InRange(t: Tree)
  {
    match t
    case Leaf(s) => 0 <= s < 256
    case Node(l, r) => InRange(l) && InRange(r)
  }

  lemma {:induction false} InRangeOf(t: Tree)
    requires forall s :: s in Symbols(t) ==> 0 <= s < 256
    ensures InRange(t)
  {
    match t
    case Leaf(x) =>
      assert x in Symbols(t);
    case Node(l, r) =>
      assert forall s :: s in Symbols(l) ==> s in Symbols(t);
      assert forall s :: s in Symbols(r) ==> s in Symbols(t);
      InRangeOf(l);
      InRangeOf(r);
  }

  lemma {:induction false} InRangeMember(t: Tree, s: int)
    requires InRange(t) && s in Symbols(t)
    ensures 0 <= s < 256
  {
    match t
    case Leaf(_) =>
    case Node(l, r) =>
      if s in Symbols(l) {
        InRangeMember(l, s);
      } else {
        InRangeMember(r, s);
      }
  }

  /** Every symbol of a frequency list fits the lookup list. */
  predicate SymbolsInRange(frequency: seq<Pair>)
  {
    forall k :: 0 <= k < |frequency| ==> 0 <= frequency[k].0 < 256
  }

  lemma BuildTreeInRange(frequency: seq<Pair>)
    requires SymbolsInRange(frequency)
    ensures BuildTree(frequency).Some? ==> InRange(BuildTree(frequency).value)
  {
    BuildTreeFacts(frequency);
    if BuildTree(frequency).Some? {
      var root := BuildTree(frequency).value;
      forall s | s in Symbols(root) ensures 0 <= s < 256 {
        assert s in multiset(Symbols(root));
        assert s in Firsts(frequency);
      }
      InRangeOf(root);
    }
  }

  /** `walk_tree(node, acc, lookup)`: each leaf's slot gets its path; a later
      leaf with the same symbol overwrites an earlier one. */
  function Walk(t: Tree, acc: seq<char>, table: seq<Option<seq<char>>>): (r: seq<Option<seq<char>>>)
    requires |table| == 256 && InRange(t)
    ensures |r| == 256
  {
    match t
    case Leaf(s) => table[s := Some(acc)]
    case Node(left, right) => Walk(right, acc + ['1'], Walk(left, acc + ['0'], table))
  }

  /** The tree reached by following a path, '0' to the left and any other bit
      to the right, or None when the path runs past a leaf. */
  function Follow(t: Tree, p: seq<char>): Option<Tree>
  {
    if p == [] then Some(t)
    else match t
      case Leaf(_) => None
      case Node(l, r) => Follow(if p[0] == '0' then l else r, p[1..])
  }

  /** The path to the last leaf carrying s (the one whose slot survives). */
  function LastPath(t: Tree, s: int): seq<char>
    requires s in Symbols(t)
  {
    match t
    case Leaf(_) => []
    case Node(l, r) => if s in Symbols(r) then ['1'] + LastPath(r, s) else ['0'] + LastPath(l, s)
  }

  /** The last path leads to a leaf carrying s, and consists of '0' and '1'. */
  lemma {:induction false} LastPathLeads(t: Tree, s: int)
    requires s in Symbols(t)
    ensures Follow(t, LastPath(t, s)) == Some(Leaf(s))
    ensures forall k :: 0 <= k < |LastPath(t, s)| ==> LastPath(t, s)[k] in "01"
  {
    match t
    case Leaf(_) =>
    case Node(l, r) =>
      var sub := if s in Symbols(r) then r else l;
      LastPathLeads(sub, s);
      assert LastPath(t, s)[1..] == LastPath(sub, s);
  }

  /** After the walk, the slot of every symbol of the tree holds acc followed
      by the path to its last leaf, and every other slot is untouched. */
  lemma {:induction false} WalkCodes(t: Tree, acc: seq<char>, table: seq<Option<seq<char>>>, s: int)
    requires |table| == 256 && InRange(t) && 0 <= s < 256
    ensures s in Symbols(t) ==> Walk(t, acc, table)[s] == Some(acc + LastPath(t, s))
    ensures s !in Symbols(t) ==> Walk(t, acc, table)[s] == table[s]
  {
    match t
    case Leaf(_) =>
      assert acc + [] == acc;
    case Node(l, r) =>
      WalkCodes(l, acc + ['0'], table, s);
      WalkCodes(r, acc + ['1'], Walk(l, acc + ['0'], table), s);
      if s in Symbols(r) {
        assert acc + ['1'] + LastPath(r, s) == acc + (['1'] + LastPath(r, s));
      } else if s in Symbols(l) {
        assert acc + ['0'] + LastPath(l, s) == acc + (['0'] + LastPath(l, s));
      }
  }

  /** `walk_tree`, writing into the lookup array. */
  method WalkTree(node: Tree, acc: seq<char>, lookup: array<Option<seq<char>>>)
    requires lookup.Length == 256 && InRange(node)
    modifies lookup
    ensures lookup[..] == Walk(node, acc, old(lookup[..]))
    decreases node
  {
    match node
    case Leaf(s) =>
      lookup[s] := Some(acc);
    case Node(l, r) =>
      WalkTree(l, acc + ['0'], lookup);
      WalkTree(r, acc + ['1'], lookup);
  }

  /** `[None] * 256`. */
  function Empty(): (r: seq<Option<seq<char>>>)
    ensures |r| == 256 && forall s :: 0 <= s < 256 ==> r[s] == None
  {
    seq(256, _ => None)
  }

  /** The code `build_huffman_code` returns, or None for an empty list. */
  function HuffmanCode(frequency: seq<Pair>): (r: Option<Code>)
    requires SymbolsInRange(frequency)
    ensures r.Some? ==> |r.value.lookup| == 256
  {
    BuildTreeInRange(frequency);
    match BuildTree(frequency)
    case None => None
    case Some(root) => Some(Code(root, Walk(root, [], Empty())))
  }

  /** One turn of the loop of `build_huffman_code`: pop two trees and their
      weights, and insert the merged node at `bisect_right` of its weight. */
  method MergeTurn(sortedFreq: seq<int>, sortedNodes: seq<Tree>) returns (freqs: seq<int>, nodes: seq<Tree>)
    requires |sortedFreq| == |sortedNodes| >= 2
    ensures (freqs, nodes) == Step(sortedFreq, sortedNodes)
  {
    freqs, nodes := sortedFreq, sortedNodes;
    var freq0, l := freqs[0], nodes[0];
    freqs, nodes := freqs[1..], nodes[1..];
    var freq1, r := freqs[0], nodes[0];
    freqs, nodes := freqs[1..], nodes[1..];
    assert freqs == sortedFreq[2..] && nodes == sortedNodes[2..];
    var node := (freq0 + freq1, Node(l, r));
    var i := BisectRight(freqs, node.0);
    freqs := Insert(freqs, i, node.0);
    nodes := Insert(nodes, i, node.1);
  }

  /** `build_huffman_code(frequency)`; the merge loop runs once per pair but
      one. */
  method BuildHuffmanCode(frequency: seq<Pair>) returns (r: Option<Code>, ghost merges: nat)
    requires SymbolsInRange(frequency)
    ensures r == HuffmanCode(frequency)
    ensures frequency != [] ==> merges == |frequency| - 1
  {
    var sorted := SortByWeight(frequency);
    SortByWeightFacts(frequency);
    var sortedFreq := Weights(sorted);
    var sortedNodes := Leaves(sorted);
    ghost var target := Merged(sortedFreq, sortedNodes);
    merges := 0;
    while |sortedFreq| > 1
      invariant |sortedFreq| == |sortedNodes| && Sorted(sortedFreq)
      invariant Merged(sortedFreq, sortedNodes) == target
      invariant merges + |sortedFreq| == |frequency|
      invariant frequency != [] ==> |sortedFreq| >= 1
      decreases |sortedFreq|
    {
      StepSorted(sortedFreq, sortedNodes);
      sortedFreq, sortedNodes := MergeTurn(sortedFreq, sortedNodes);
      merges := merges + 1;
    }
    assert sortedNodes == target;
    var lookup := new Option<seq<char>>[256](_ => None);
    if sortedNodes == [] {
      return None, merges;
    }
    var root := sortedNodes[0];
    BuildTreeInRange(frequency);
    assert lookup[..] == Empty();
    WalkTree(root, [], lookup);
    r := Some(Code(root, lookup[..]));
  }

  /** A path that ends at a leaf is a prefix of no other path that can be
      followed. */
  lemma {:induction false} FollowPrefixFree(t: Tree, p: seq<char>, q: seq<char>)
    requires Follow(t, p).Some? && Follow(t, p).value.Leaf?
    requires p <= q && Follow(t, q).Some?
    ensures p == q
  {
    if p == [] {
      assert q == [] || Follow(t, q) == None;
    } else {
      var sub := if p[0] == '0' then t.left else t.right;
      assert q[0] == p[0];
      FollowPrefixFree(sub, p[1..], q[1..]);
    }
  }

  /** Each symbol of the list, and no other, gets a code; the code is the
      '0'/'1' path from the root to a leaf carrying the symbol. */
  lemma CodePaths(frequency: seq<Pair>, s: int)
    requires SymbolsInRange(frequency) && HuffmanCode(frequency).Some? && 0 <= s < 256
    ensures var c := HuffmanCode(frequency).value;
      && (c.lookup[s].Some? <==> s in Firsts(frequency))
      && (c.lookup[s].Some? ==> Follow(c.root, c.lookup[s].value) == Some(Leaf(s)))
      && (c.lookup[s].Some? ==> forall k :: 0 <= k < |c.lookup[s].value| ==> c.lookup[s].value[k] in "01")
  {
    BuildTreeFacts(frequency);
    BuildTreeInRange(frequency);
    var root := BuildTree(frequency).value;
    WalkCodes(root, [], Empty(), s);
    assert s in Symbols(root) <==> s in multiset(Symbols(root));
    if s in Symbols(root) {
      LastPathLeads(root, s);
      assert [] + LastPath(root, s) == LastPath(root, s);
    }
  }

  /** No code is a prefix of another symbol's code. */
  lemma CodesPrefixFree(frequency: seq<Pair>, s1: int, s2: int)
    requires SymbolsInRange(frequency) && HuffmanCode(frequency).Some?
    requires 0 <= s1 < 256 && 0 <= s2 < 256 && s1 != s2
    requires HuffmanCode(frequency).value.lookup[s1].Some? && HuffmanCode(frequency).value.lookup[s2].Some?
    ensures !(HuffmanCode(frequency).value.lookup[s1].value <= HuffmanCode(frequency).value.lookup[s2].value)
  {
    var c := HuffmanCode(frequency).value;
    CodePaths(frequency, s1);
    CodePaths(frequency, s2);
    if c.lookup[s1].value <= c.lookup[s2].value {
      FollowPrefixFree(c.root, c.lookup[s1].value, c.lookup[s2].value);
    }
  }

  /** Prepend xs to an optional list; None stays None. */
  function Then<T>(xs: seq<T>, o: Option<seq<T>>): Option<seq<T>>
  {
    if o.None? then None else Some(xs + o.value)
  }

  lemma ThenNil<T>(o: Option<seq<T>>)
    ensures Then([], o) == o
  {
    if o.Some? {
      assert [] + o.value == o.value;
    }
  }

  lemma ThenThen<T>(xs: seq<T>, ys: seq<T>, o: Option<seq<T>>)
    ensures Then(xs, Then(ys, o)) == Then(xs + ys, o)
  {
    if o.Some? {
      assert xs + (ys + o.value) == xs + ys + o.value;
    }
  }

  /** `code[1][s]` with Python's indexing: a negative s counts from the end;
      None when s is outside the list or has no code (an IndexError, or a
      TypeError when the missing code is appended). */
  function CodeOf(lookup: seq<Option<seq<char>>>, s: int): Option<seq<char>>
    requires |lookup| == 256
  {
    if 0 <= s < 256 then lookup[s] else if -256 <= s < 0 then lookup[256 + s] else None
  }

  /** The concatenation of the codes of xs, in order. */
  function Encoded(lookup: seq<Option<seq<char>>>, xs: seq<int>): Option<seq<char>>
    requires |lookup| == 256
  {
    if xs == [] then Some([])
    else match CodeOf(lookup, xs[0])
      case None => None
      case Some(c) => Then(c, Encoded(lookup, xs[1..]))
  }

  /** `encode(code, sequence)`. */
  method Encode(code: Code, sequence: seq<int>) returns (r: Option<seq<char>>)
    requires |code.lookup| == 256
    ensures r == Encoded(code.lookup, sequence)
  {
    var result: seq<char> := [];
    assert sequence[0..] == sequence;
    ThenNil(Encoded(code.lookup, sequence));
    for i := 0 to |sequence|
      invariant Encoded(code.lookup, sequence) == Then(result, Encoded(code.lookup, sequence[i..]))
    {
      var b := CodeOf(code.lookup, sequence[i]);
      assert sequence[i..][0] == sequence[i] && sequence[i..][1..] == sequence[i + 1..];
      if b.None? {
        return None;
      }
      ThenThen(result, b.value, Encoded(code.lookup, sequence[i + 1..]));
      result := result + b.value;
    }
    assert sequence[|sequence|..] == [] && result + [] == result;
    r := Some(result);
  }

  /** Walk from node to a leaf, reading bits: the leaf's symbol and the number
      of bits read, or None when the bits run out first (IndexError). */
  function DecodeSymbol(node: Tree, bits: seq<char>): (r: Option<(int, nat)>)
    ensures r.Some? ==> r.value.1 <= |bits|
    ensures r.Some? && node.Node? ==> r.value.1 >= 1
  {
    match node
    case Leaf(s) => Some((s, 0))
    case Node(left, right) =>
      if bits == [] then None
      else match DecodeSymbol(if bits[0] == '0' then left else right, bits[1..])
        case None => None
        case Some(p) => Some((p.0, p.1 + 1))
  }

  /** The symbols decoded from bits, starting each one at the root. A root
      that is a single leaf never consumes a bit, so the source loops forever
      on non-empty bits; that case is excluded. */
  function DecodeAll(root: Tree, bits: seq<char>): Option<seq<int>>
    requires root.Node? || bits == []
    decreases |bits|
  {
    if bits == [] then Some([])
    else match DecodeSymbol(root, bits)
      case None => None
      case Some(p) => Then([p.0], DecodeAll(root, bits[p.1..]))
  }

  function Shift(o: Option<(int, nat)>, d: nat): Option<(int, nat)>
  {
    if o.None? then None else Some((o.value.0, o.value.1 + d))
  }

  /** The inner loop of `decode`: descend from the root, reading bits from
      position i on, until a leaf; the leaf's symbol and the position after
      the bits read, or None when the bits run out (IndexError). */
  method DecodeNext(root: Tree, sequence: seq<char>, start: nat) returns (r: Option<(int, nat)>)
    requires start <= |sequence|
    ensures r == Shift(DecodeSymbol(root, sequence[start..]), start)
  {
    var node := root;
    var i := start;
    while node.Node?
      invariant start <= i <= |sequence|
      invariant DecodeSymbol(root, sequence[start..]) == Shift(DecodeSymbol(node, sequence[i..]), i - start)
      decreases node
    {
      if i >= |sequence| {
        return None;
      }
      var b := sequence[i];
      assert sequence[i..][1..] == sequence[i + 1..];
      i := i + 1;
      if b == '0' {
        node := node.left;
      } else {
        node := node.right;
      }
    }
    r := Some((node.symbol, i));
  }

  /** `decode(code, sequence)`. */
  method Decode(code: Code, sequence: seq<char>) returns (r: Option<seq<int>>)
    requires code.root.Node? || sequence == []
    ensures r == DecodeAll(code.root, sequence)
  {
    var result: seq<int> := [];
    var i := 0;
    assert sequence[0..] == sequence;
    ThenNil(DecodeAll(code.root, sequence));
    while i < |sequence|
      invariant i <= |sequence|
      invariant DecodeAll(code.root, sequence) == Then(result, DecodeAll(code.root, sequence[i..]))
      decreases |sequence| - i
    {
      var next := DecodeNext(code.root, sequence, i);
      if next.None? {
        return None;
      }
      assert sequence[i..][next.value.1 - i..] == sequence[next.value.1..];
      ThenThen(result, [next.value.0], DecodeAll(code.root, sequence[next.value.1..]));
      result := result + [next.value.0];
      i := next.value.1;
    }
    assert sequence[i..] == [] && result + [] == result;
    r := Some(result);
  }

  /** Bits that follow a path to a leaf decode to the leaf's symbol. */
  lemma {:induction false} FollowDecodes(t: Tree, p: seq<char>, rest: seq<char>, x: int)
    requires Follow(t, p) == Some(Leaf(x))
    ensures DecodeSymbol(t, p + rest) == Some((x, |p|))
  {
    if p != [] {
      var sub := if p[0] == '0' then t.left else t.right;
      assert (p + rest)[1..] == p[1..] + rest;
      FollowDecodes(sub, p[1..], rest, x);
    }
  }

  /** Decoding the codes of xs, built by walking a tree that holds every symbol
      of xs, gives xs back. */
  lemma {:induction false} DecodeEncoded(root: Tree, xs: seq<int>)
    requires root.Node? && InRange(root)
    requires forall x :: x in xs ==> x in Symbols(root)
    ensures Encoded(Walk(root, [], Empty()), xs).Some?
    ensures DecodeAll(root, Encoded(Walk(root, [], Empty()), xs).value) == Some(xs)
  {
    if xs != [] {
      var table := Walk(root, [], Empty());
      var x := xs[0];
      assert x in xs;
      InRangeMember(root, x);
      WalkCodes(root, [], Empty(), x);
      LastPathLeads(root, x);
      var c := LastPath(root, x);
      assert [] + c == c;
      assert CodeOf(table, x) == Some(c);
      DecodeEncoded(root, xs[1..]);
      var b := Encoded(table, xs[1..]).value;
      FollowDecodes(root, c, b, x);
      assert c != [];
      assert (c + b)[|c|..] == b;
      assert [x] + xs[1..] == xs;
    }
  }

  /** Codes that are all empty encode a sequence to no bits. */
  lemma {:induction false} EncodedEmptyCode(lookup: seq<Option<seq<char>>>, x: int, xs: seq<int>)
    requires |lookup| == 256 && 0 <= x < 256 && lookup[x] == Some([])
    requires forall k :: 0 <= k < |xs| ==> xs[k] == x
    ensures Encoded(lookup, xs) == Some([])
    decreases |xs|
  {
    if xs != [] {
      EncodedEmptyCode(lookup, x, xs[1..]);
      ThenNil(Encoded(lookup, xs[1..]));
    }
  }

  /** With a single pair the tree is one leaf and `walk_tree` gives its symbol
      the empty code, so `encode` returns no bits for any sequence of that
      symbol and `decode` of no bits returns no symbols: the round trip loses
      every non-empty message. */
  lemma SingleLeafLosesMessage(x: int, f: int, xs: seq<int>)
    requires 0 <= x < 256 && xs != []
    requires forall k :: 0 <= k < |xs| ==> xs[k] == x
    ensures SymbolsInRange([(x, f)]) && HuffmanCode([(x, f)]).Some?
    ensures HuffmanCode([(x, f)]).value.root == Leaf(x)
    ensures Encoded(HuffmanCode([(x, f)]).value.lookup, xs) == Some([])
    ensures DecodeAll(Leaf(x), []) == Some([]) != Some(xs)
  {
    var ps := [(x, f)];
    assert ps[..0] == [];
    assert SortByWeight(ps) == ps;
    assert BuildTree(ps) == Some(Leaf(x));
    var lookup := Walk(Leaf(x), [], Empty());
    assert lookup[x] == Some([]);
    EncodedEmptyCode(lookup, x, xs);
  }

  /** `decode(code, encode(code, sequence)) == sequence` for a code built from
      at least two pairs, when every symbol of the sequence is listed. */
  method RoundTrip(frequency: seq<Pair>, sequence: seq<int>) returns (decoded: Option<seq<int>>)
    requires SymbolsInRange(frequency) && |frequency| >= 2
    requires forall x :: x in sequence ==> x in Firsts(frequency)
    ensures decoded == Some(sequence)
  {
    var code;
    ghost var merges;
    code, merges := BuildHuffmanCode(frequency);
    BuildTreeFacts(frequency);
    BuildTreeInRange(frequency);
    var root := BuildTree(frequency).value;
    forall x | x in sequence ensures x in Symbols(root) {
      assert x in multiset(Symbols(root));
    }
    DecodeEncoded(root, sequence);
    var bits := Encode(code.value, sequence);
    decoded := Decode(code.value, bits.value);
  }
}
