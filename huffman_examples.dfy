/** The known answers of the Huffman tests (huffman.py:69-90), with the
    average code length of `get_average_codelength` (utils.py:4-6) stated as
    its integer numerator: the sum over the pairs of code length times
    frequency. */
module HuffmanExamples {
  import opened Wrappers
  import opened Huffman

  /** Sum of code length times frequency over the pairs. */
  function WeightedLength(lookup: seq<Option<seq<char>>>, freq: seq<Pair>): int
    requires |lookup| == 256
    requires forall k :: 0 <= k < |freq| ==> CodeOf(lookup, freq[k].0).Some?
  {
    if freq == [] then 0
    else WeightedLength(lookup, freq[..|freq| - 1]) + |CodeOf(lookup, freq[|freq| - 1].0).value| * freq[|freq| - 1].1
  }

  /** One more pair of the list is one more insertion. */
  lemma SortSnoc(ps: seq<Pair>, k: nat)
    requires k < |ps|
    ensures SortByWeight(ps[..k + 1]) == InsertByWeight(SortByWeight(ps[..k]), ps[k])
  {
    assert ps[..k + 1][..k] == ps[..k];
  }

  /** The code of a symbol of the tree is the path to its last leaf. */
  lemma CodeIsPath(t: Tree, s: int)
    requires InRange(t) && 0 <= s < 256 && s in Symbols(t)
    ensures CodeOf(Walk(t, [], Empty()), s) == Some(LastPath(t, s))
  {
    WalkCodes(t, [], Empty(), s);
    assert [] + LastPath(t, s) == LastPath(t, s);
  }

  lemma LengthSnoc(lookup: seq<Option<seq<char>>>, freq: seq<Pair>, k: nat)
    requires |lookup| == 256 && k < |freq|
    requires forall j :: 0 <= j < |freq| ==> CodeOf(lookup, freq[j].0).Some?
    ensures WeightedLength(lookup, freq[..k + 1]) == WeightedLength(lookup, freq[..k]) + |CodeOf(lookup, freq[k].0).value| * freq[k].1
  {
    assert freq[..k + 1][..k] == freq[..k];
  }

  // test_building_huffman, second list: two 1-bit codes.

  const Pairs: seq<Pair> := [(0, 1), (1, 1)]
  const PairsTree := Node(Leaf(0), Leaf(1))

  lemma PairsTreeBuilt()
    ensures BuildTree(Pairs) == Some(PairsTree)
  {
    assert Pairs[..1] == [(0, 1)];
    assert SortByWeight([(0, 1)]) == [(0, 1)];
    assert Weights([(0, 1)]) == [1];
    assert BisectRight([1], 1) == 1 by { assert [1][1..] == []; }
    assert SortByWeight(Pairs) == [(0, 1), (1, 1)];
    assert Weights([(0, 1), (1, 1)]) == [1, 1];
    assert Leaves([(0, 1), (1, 1)]) == [Leaf(0), Leaf(1)];
    assert Step([1, 1], [Leaf(0), Leaf(1)]) == ([2], [PairsTree]) by {
      assert [1, 1][2..] == [] && [Leaf(0), Leaf(1)][2..] == [];
      assert BisectRight([], 2) == 0;
      assert Insert([], 0, 2) == [2];
      assert Insert([], 0, PairsTree) == [PairsTree];
    }
    assert Merged([2], [PairsTree]) == [PairsTree];
  }

  lemma PairsCodes()
    ensures var lookup := Walk(PairsTree, [], Empty());
      CodeOf(lookup, 0) == Some("0") && CodeOf(lookup, 1) == Some("1")
  {
    CodeIsPath(PairsTree, 0);
    CodeIsPath(PairsTree, 1);
    assert LastPath(PairsTree, 0) == ['0'] + [] == "0";
    assert LastPath(PairsTree, 1) == ['1'] + [] == "1";
  }

  lemma PairsLength(lookup: seq<Option<seq<char>>>)
    requires lookup == Walk(PairsTree, [], Empty())
    ensures forall k :: 0 <= k < |Pairs| ==> CodeOf(lookup, Pairs[k].0).Some?
    ensures CodeOf(lookup, 0) == Some("0") && CodeOf(lookup, 1) == Some("1")
    ensures WeightedLength(lookup, Pairs) == 2
  {
    PairsCodes();
    LengthSnoc(lookup, Pairs, 0);
    LengthSnoc(lookup, Pairs, 1);
    assert Pairs[..0] == [] && Pairs[..2] == Pairs;
  }

  // test_building_huffman, first list: average 2.2, so 22 over a total of 10.

  const Five: seq<Pair> := [(0, 4), (1, 2), (2, 2), (3, 1), (4, 1)]
  const FiveTree := Node(Node(Leaf(1), Leaf(2)), Node(Node(Leaf(3), Leaf(4)), Leaf(0)))

  lemma FiveSort3(ps: seq<Pair>)
    requires ps == [(0, 4), (1, 2), (2, 2)]
    ensures SortByWeight(ps) == [(1, 2), (2, 2), (0, 4)]
  {
    assert ps[..2] == [(0, 4), (1, 2)];
    assert SortByWeight([(0, 4), (1, 2)]) == [(1, 2), (0, 4)];
    assert Weights([(1, 2), (0, 4)]) == [2, 4];
    assert BisectRight([2, 4], 2) == 1 by { assert [2, 4][1..] == [4]; }
    assert Insert([(1, 2), (0, 4)], 1, (2, 2)) == [(1, 2), (2, 2), (0, 4)];
  }

  lemma FiveSort4(ps: seq<Pair>)
    requires ps == [(0, 4), (1, 2), (2, 2), (3, 1)]
    ensures SortByWeight(ps) == [(3, 1), (1, 2), (2, 2), (0, 4)]
  {
    FiveSort3(ps[..3]);
    var sorted := [(1, 2), (2, 2), (0, 4)];
    assert Weights(sorted) == [2, 2, 4];
    assert BisectRight([2, 2, 4], 1) == 0;
    assert Insert(sorted, 0, (3, 1)) == [(3, 1), (1, 2), (2, 2), (0, 4)];
  }

  lemma FiveSorted()
    ensures SortByWeight(Five) == [(3, 1), (4, 1), (1, 2), (2, 2), (0, 4)]
  {
    FiveSort4(Five[..4]);
    assert Weights([(3, 1), (1, 2), (2, 2), (0, 4)]) == [1, 2, 2, 4];
    assert BisectRight([1, 2, 2, 4], 1) == 1 by { assert [1, 2, 2, 4][1..] == [2, 2, 4]; }
    assert Insert([(3, 1), (1, 2), (2, 2), (0, 4)], 1, (4, 1)) == [(3, 1), (4, 1), (1, 2), (2, 2), (0, 4)];
  }

  lemma FiveStep1()
    ensures Step([1, 1, 2, 2, 4], [Leaf(3), Leaf(4), Leaf(1), Leaf(2), Leaf(0)])
         == ([2, 2, 2, 4], [Leaf(1), Leaf(2), Node(Leaf(3), Leaf(4)), Leaf(0)])
  {
    assert [1, 1, 2, 2, 4][2..] == [2, 2, 4];
    assert [Leaf(3), Leaf(4), Leaf(1), Leaf(2), Leaf(0)][2..] == [Leaf(1), Leaf(2), Leaf(0)];
    assert BisectRight([2, 2, 4], 2) == 2 by { assert [2, 2, 4][1..] == [2, 4]; assert [2, 4][1..] == [4]; }
    assert Insert([2, 2, 4], 2, 2) == [2, 2, 2, 4];
    assert Insert([Leaf(1), Leaf(2), Leaf(0)], 2, Node(Leaf(3), Leaf(4))) == [Leaf(1), Leaf(2), Node(Leaf(3), Leaf(4)), Leaf(0)];
  }

  lemma FiveStep2()
    ensures Step([2, 2, 2, 4], [Leaf(1), Leaf(2), Node(Leaf(3), Leaf(4)), Leaf(0)])
         == ([2, 4, 4], [Node(Leaf(3), Leaf(4)), Leaf(0), Node(Leaf(1), Leaf(2))])
  {
    assert [2, 2, 2, 4][2..] == [2, 4];
    assert [Leaf(1), Leaf(2), Node(Leaf(3), Leaf(4)), Leaf(0)][2..] == [Node(Leaf(3), Leaf(4)), Leaf(0)];
    assert BisectRight([2, 4], 4) == 2 by { assert [2, 4][1..] == [4]; assert [4][1..] == []; }
    assert Insert([2, 4], 2, 4) == [2, 4, 4];
    assert Insert([Node(Leaf(3), Leaf(4)), Leaf(0)], 2, Node(Leaf(1), Leaf(2))) == [Node(Leaf(3), Leaf(4)), Leaf(0), Node(Leaf(1), Leaf(2))];
  }

  lemma FiveStep3()
    ensures Step([2, 4, 4], [Node(Leaf(3), Leaf(4)), Leaf(0), Node(Leaf(1), Leaf(2))])
         == ([4, 6], [Node(Leaf(1), Leaf(2)), Node(Node(Leaf(3), Leaf(4)), Leaf(0))])
  {
    assert [2, 4, 4][2..] == [4];
    assert [Node(Leaf(3), Leaf(4)), Leaf(0), Node(Leaf(1), Leaf(2))][2..] == [Node(Leaf(1), Leaf(2))];
    assert BisectRight([4], 6) == 1 by { assert [4][1..] == []; }
    assert Insert([4], 1, 6) == [4, 6];
    assert Insert([Node(Leaf(1), Leaf(2))], 1, Node(Node(Leaf(3), Leaf(4)), Leaf(0))) == [Node(Leaf(1), Leaf(2)), Node(Node(Leaf(3), Leaf(4)), Leaf(0))];
  }

  lemma FiveStep4()
    ensures Step([4, 6], [Node(Leaf(1), Leaf(2)), Node(Node(Leaf(3), Leaf(4)), Leaf(0))]) == ([10], [FiveTree])
  {
    assert [4, 6][2..] == [];
    assert [Node(Leaf(1), Leaf(2)), Node(Node(Leaf(3), Leaf(4)), Leaf(0))][2..] == [];
    assert BisectRight([], 10) == 0;
    assert Insert([], 0, 10) == [10];
    assert Insert([], 0, FiveTree) == [FiveTree];
  }

  lemma FiveMerged()
    ensures Merged([1, 1, 2, 2, 4], [Leaf(3), Leaf(4), Leaf(1), Leaf(2), Leaf(0)]) == [FiveTree]
  {
    FiveStep1();
    FiveStep2();
    FiveStep3();
    FiveStep4();
    var t2, t3 := Node(Leaf(1), Leaf(2)), Node(Node(Leaf(3), Leaf(4)), Leaf(0));
    assert Merged([10], [FiveTree]) == [FiveTree];
    assert Merged([4, 6], [t2, t3]) == [FiveTree];
    assert Merged([2, 4, 4], [Node(Leaf(3), Leaf(4)), Leaf(0), t2]) == [FiveTree];
    assert Merged([2, 2, 2, 4], [Leaf(1), Leaf(2), Node(Leaf(3), Leaf(4)), Leaf(0)]) == [FiveTree];
  }

  lemma FiveColumns()
    ensures Weights([(3, 1), (4, 1), (1, 2), (2, 2), (0, 4)]) == [1, 1, 2, 2, 4]
    ensures Leaves([(3, 1), (4, 1), (1, 2), (2, 2), (0, 4)]) == [Leaf(3), Leaf(4), Leaf(1), Leaf(2), Leaf(0)]
  {
  }

  lemma FiveTreeBuilt()
    ensures BuildTree(Five) == Some(FiveTree)
  {
    FiveSorted();
    FiveColumns();
    FiveMerged();
  }

  lemma FiveLength()
    ensures forall k :: 0 <= k < |Five| ==> CodeOf(Walk(FiveTree, [], Empty()), Five[k].0).Some?
    ensures WeightedLength(Walk(FiveTree, [], Empty()), Five) == 22
  {
    var lookup := Walk(FiveTree, [], Empty());
    CodeIsPath(FiveTree, 0);
    CodeIsPath(FiveTree, 1);
    CodeIsPath(FiveTree, 2);
    CodeIsPath(FiveTree, 3);
    CodeIsPath(FiveTree, 4);
    assert |CodeOf(lookup, 0).value| == 2;
    assert |CodeOf(lookup, 1).value| == 2;
    assert |CodeOf(lookup, 2).value| == 2;
    assert |CodeOf(lookup, 3).value| == 3;
    assert |CodeOf(lookup, 4).value| == 3;
    LengthSnoc(lookup, Five, 0);
    LengthSnoc(lookup, Five, 1);
    LengthSnoc(lookup, Five, 2);
    LengthSnoc(lookup, Five, 3);
    LengthSnoc(lookup, Five, 4);
    assert Five[..0] == [] && Five[..5] == Five;
  }

  // test_building_huffman, third and fourth lists: one heavy symbol a and two
  // light ones b <= c with b + c < a get codes of 1, 2 and 2 bits.

  function ThreeTree(): Tree
  {
    Node(Node(Leaf(1), Leaf(2)), Leaf(0))
  }

  lemma ThreeSorted(a: int, b: int, c: int)
    requires 0 <= b <= c && b + c < a
    ensures SortByWeight([(0, a), (1, b), (2, c)]) == [(1, b), (2, c), (0, a)]
  {
    var ps := [(0, a), (1, b), (2, c)];
    assert ps[..1] == [(0, a)] && ps[..2] == [(0, a), (1, b)];
    assert SortByWeight([(0, a)]) == [(0, a)];
    assert Weights([(0, a)]) == [a];
    assert BisectRight([a], b) == 0;
    assert SortByWeight([(0, a), (1, b)]) == [(1, b), (0, a)];
    assert Weights([(1, b), (0, a)]) == [b, a];
    assert BisectRight([b, a], c) == 1 by { assert [b, a][1..] == [a]; }
    assert Insert([(1, b), (0, a)], 1, (2, c)) == [(1, b), (2, c), (0, a)];
  }

  lemma ThreeStep1(a: int, b: int, c: int)
    requires b + c < a
    ensures Step([b, c, a], [Leaf(1), Leaf(2), Leaf(0)]) == ([b + c, a], [Node(Leaf(1), Leaf(2)), Leaf(0)])
  {
    assert [b, c, a][2..] == [a] && [Leaf(1), Leaf(2), Leaf(0)][2..] == [Leaf(0)];
    assert BisectRight([a], b + c) == 0;
    assert Insert([a], 0, b + c) == [b + c, a];
    assert Insert([Leaf(0)], 0, Node(Leaf(1), Leaf(2))) == [Node(Leaf(1), Leaf(2)), Leaf(0)];
  }

  lemma ThreeStep2(a: int, b: int, c: int)
    ensures Step([b + c, a], [Node(Leaf(1), Leaf(2)), Leaf(0)]) == ([b + c + a], [ThreeTree()])
  {
    assert [b + c, a][2..] == [] && [Node(Leaf(1), Leaf(2)), Leaf(0)][2..] == [];
    assert BisectRight([], b + c + a) == 0;
    assert Insert([], 0, b + c + a) == [b + c + a];
    assert Insert([], 0, ThreeTree()) == [ThreeTree()];
  }

  lemma ThreeMerged(a: int, b: int, c: int)
    requires 0 <= b <= c && b + c < a
    ensures Merged([b, c, a], [Leaf(1), Leaf(2), Leaf(0)]) == [ThreeTree()]
  {
    ThreeStep1(a, b, c);
    ThreeStep2(a, b, c);
    assert Merged([b + c + a], [ThreeTree()]) == [ThreeTree()];
    assert Merged([b + c, a], [Node(Leaf(1), Leaf(2)), Leaf(0)]) == [ThreeTree()];
  }

  lemma ThreeColumns(a: int, b: int, c: int)
    ensures Weights([(1, b), (2, c), (0, a)]) == [b, c, a]
    ensures Leaves([(1, b), (2, c), (0, a)]) == [Leaf(1), Leaf(2), Leaf(0)]
  {
  }

  lemma ThreeTreeBuilt(a: int, b: int, c: int)
    requires 0 <= b <= c && b + c < a
    ensures BuildTree([(0, a), (1, b), (2, c)]) == Some(ThreeTree())
  {
    ThreeSorted(a, b, c);
    ThreeColumns(a, b, c);
    ThreeMerged(a, b, c);
  }

  lemma ThreeLength(a: int, b: int, c: int)
    ensures forall k :: 0 <= k < 3 ==> CodeOf(Walk(ThreeTree(), [], Empty()), [(0, a), (1, b), (2, c)][k].0).Some?
    ensures WeightedLength(Walk(ThreeTree(), [], Empty()), [(0, a), (1, b), (2, c)]) == a + 2 * b + 2 * c
  {
    var lookup, ps := Walk(ThreeTree(), [], Empty()), [(0, a), (1, b), (2, c)];
    CodeIsPath(ThreeTree(), 0);
    CodeIsPath(ThreeTree(), 1);
    CodeIsPath(ThreeTree(), 2);
    assert |CodeOf(lookup, 0).value| == 1;
    assert |CodeOf(lookup, 1).value| == 2;
    assert |CodeOf(lookup, 2).value| == 2;
    LengthSnoc(lookup, ps, 0);
    LengthSnoc(lookup, ps, 1);
    LengthSnoc(lookup, ps, 2);
    assert ps[..0] == [] && ps[..3] == ps;
  }

  /** test_building_huffman, first list: the weighted code length is 22
      (average 2.2 over a total of 10). */
  method FiveCodeLength() returns (w: int)
    ensures w == 22
  {
    assert SymbolsInRange(Five) by {
      forall k | 0 <= k < |Five| ensures 0 <= Five[k].0 < 256 {
        assert Five[k].0 == k;
      }
    }
    var c;
    ghost var merges;
    c, merges := BuildHuffmanCode(Five);
    FiveTreeBuilt();
    FiveLength();
    w := WeightedLength(c.value.lookup, Five);
  }

  /** test_building_huffman, second list: two 1-bit codes, "0" and "1". */
  method PairsCodeLength() returns (w: int, code0: Option<seq<char>>, code1: Option<seq<char>>)
    ensures w == 2 && code0 == Some("0") && code1 == Some("1")
  {
    assert SymbolsInRange(Pairs) by {
      forall k | 0 <= k < |Pairs| ensures 0 <= Pairs[k].0 < 256 {
        assert Pairs[k].0 == k;
      }
    }
    var c;
    ghost var merges;
    c, merges := BuildHuffmanCode(Pairs);
    PairsTreeBuilt();
    PairsCodes();
    var lookup := c.value.lookup;
    PairsLength(lookup);
    w := WeightedLength(lookup, Pairs);
    code0, code1 := CodeOf(lookup, 0), CodeOf(lookup, 1);
  }

  /** The weighted code length of [(0, a), (1, b), (2, c)]. */
  method ThreeCodeLength(a: int, b: int, c: int) returns (w: int)
    requires 0 <= b <= c && b + c < a
    ensures w == a + 2 * b + 2 * c
  {
    var ps := [(0, a), (1, b), (2, c)];
    assert SymbolsInRange(ps) by {
      forall k | 0 <= k < |ps| ensures 0 <= ps[k].0 < 256 {
        assert ps[k].0 == k;
      }
    }
    var code;
    ghost var merges;
    code, merges := BuildHuffmanCode(ps);
    ThreeTreeBuilt(a, b, c);
    ThreeLength(a, b, c);
    w := WeightedLength(code.value.lookup, ps);
  }

  /** test_building_huffman, third and fourth lists: 120 (average 1.2 over a
      total of 100) and 105 (average 1.05 over 100). */
  method ThreeCodeLengths() returns (w3: int, w4: int)
    ensures w3 == 120 && w4 == 105
  {
    w3 := ThreeCodeLength(80, 2, 18);
    w4 := ThreeCodeLength(95, 2, 3);
  }

  /** test_encode_decode: [0, 0, 0, 0, 1, 2] survives encode and decode with
      the code of [(0, 10), (1, 2), (2, 2), (3, 1), (4, 1)]. */
  method EncodeDecodeExample() returns (decoded: Option<seq<int>>)
    ensures decoded == Some([0, 0, 0, 0, 1, 2])
  {
    var freq := [(0, 10), (1, 2), (2, 2), (3, 1), (4, 1)];
    assert Firsts(freq) == [0, 1, 2, 3, 4];
    decoded := RoundTrip(freq, [0, 0, 0, 0, 1, 2]);
  }
}
