/** The PPM compressor of ppm.py (`encode`, ppm.py:138-201, and `decode`,
    ppm.py:293-369) as functions.  A context is the list of the (at most K)
    symbols before the current one; each context seen so far has a table of
    counts.  A symbol is coded in the longest context that knows it, after an
    escape in every longer non-empty context that does not, and falls back to
    the uniform order -1 table.  Both sides then count the symbol in every
    context of orders 0..K.  The round trip is proved here; the loops of the
    source are in module Ppm. */
module PpmModel {
  import opened Bits
  import opened Wrappers
  import opened ArithCoder
  import opened CoderTheory
  import opened CountTable
  import opened PpmCoder

  /** `m = 30`: the word length of both sides. It is given through a
      function so that the verifier does not unfold Pow2 thirty times
      wherever the width appears. */
  const WordLength: nat := Thirty()

  function Thirty(): nat
  {
    30
  }

  /** The counts of every context seen so far, keyed by the context. */
  type Tables = map<seq<nat>, seq<nat>>

  /** Every table has one count per alphabet symbol. */
  predicate Over(tabs: Tables, n: nat)
  {
    forall k :: k in tabs ==> |tabs[k]| == n
  }

  /** Every symbol is an alphabet index. */
  predicate Symbols(s: seq<nat>, n: nat)
  {
    forall i :: 0 <= i < |s| ==> s[i] < n
  }

  /** No table has counted more than b symbols. */
  predicate TotalsAtMost(tabs: Tables, b: nat)
  {
    forall k :: k in tabs ==> Sum(tabs[k]) <= b
  }

  /** With every context, its suffix one symbol shorter is a context too. */
  predicate SuffixClosed(tabs: Tables)
  {
    forall k :: k in tabs && k != [] ==> k[1..] in tabs
  }

  predicate Distinct(keys: seq<seq<nat>>)
  {
    forall a, b :: 0 <= a < b < |keys| ==> keys[a] != keys[b]
  }

  lemma {:induction false} SumZeros(n: nat)
    ensures Sum(Zeros(n)) == 0
  {
    if n > 0 {
      assert Zeros(n)[..n - 1] == Zeros(n - 1);
      SumZeros(n - 1);
    }
  }

  // ----- the order -1 table -----

  /** The order -1 table: every alphabet symbol counted once. */
  function Ones(n: nat): (r: seq<nat>)
    ensures |r| == n && forall y :: 0 <= y < n ==> r[y] == 1
  {
    seq(n, _ => 1)
  }

  lemma {:induction false} SumOnes(n: nat)
    ensures Sum(Ones(n)) == n
  {
    if n > 0 {
      assert Ones(n)[..n - 1] == Ones(n - 1);
      SumOnes(n - 1);
    }
  }

  /** In the order -1 table symbol x has the interval [x, x + 1) out of the
      alphabet size, and no escape slot. */
  lemma UniformInterval(n: nat, x: nat)
    requires x < n
    ensures SymbolIv(Ones(n), x, false) == Interval(x, x + 1, n)
  {
    SumOnes(n);
    assert Ones(n)[..x + 1] == Ones(x + 1);
    SumOnes(x + 1);
  }

  // ----- contexts -----

  /** `max(0, i - max_context_len)`: where the longest context starts. */
  function Lowest(i: nat, K: nat): nat
  {
    if i >= K then i - K else 0
  }

  /** The contexts s[j:i] for j = from..i, longest first; the last is empty. */
  function Contexts(s: seq<nat>, from: nat, i: nat): (r: seq<seq<nat>>)
    requires from <= i + 1 && i <= |s|
    ensures |r| == i + 1 - from
    ensures forall t :: 0 <= t < |r| ==> r[t] == s[from + t..i]
    decreases i + 1 - from
  {
    if from > i then [] else [s[from..i]] + Contexts(s, from + 1, i)
  }

  /** The contexts consulted for the symbol at position i. */
  function Keys(s: seq<nat>, i: nat, K: nat): (r: seq<seq<nat>>)
    requires i <= |s|
    ensures |r| == i + 1 - Lowest(i, K) && r[|r| - 1] == []
    ensures forall t :: 0 <= t < |r| ==> r[t] == s[Lowest(i, K) + t..i]
  {
    Contexts(s, Lowest(i, K), i)
  }

  /** The contexts depend only on the symbols before position i. */
  lemma KeysOfPrefix(s: seq<nat>, i: nat, K: nat)
    requires i <= |s|
    ensures Keys(s[..i], i, K) == Keys(s, i, K)
  {
    var a, b := Keys(s[..i], i, K), Keys(s, i, K);
    forall t | 0 <= t < |a|
      ensures a[t] == b[t]
    {
      assert s[..i][Lowest(i, K) + t..i] == s[Lowest(i, K) + t..i];
    }
  }

  /** The contexts have different lengths, so they are distinct, and each one
      after the first is its predecessor without its oldest symbol. */
  lemma KeysChain(s: seq<nat>, i: nat, K: nat)
    requires i <= |s|
    ensures Distinct(Keys(s, i, K))
    ensures forall t :: 0 <= t < |Keys(s, i, K)| - 1 ==> Keys(s, i, K)[t + 1] == Keys(s, i, K)[t][1..]
  {
    var keys := Keys(s, i, K);
    forall a, b | 0 <= a < b < |keys|
      ensures keys[a] != keys[b]
    {
      assert |keys[a]| != |keys[b]|;
    }
  }

  // ----- what the encoder codes -----

  /** The intervals `encode` codes for symbol x given the tables and the
      contexts, longest first: nothing in a context that is missing or
      empty, the escape [total, total + 1) in a non-empty context without x,
      and [cum - count, cum) out of total + 1 in the first context that has x.
      When no context has x, the order -1 interval [x, x + 1) out of n. */
  function SymbolIvs(tabs: Tables, keys: seq<seq<nat>>, x: nat, n: nat): (r: seq<Interval>)
    requires Over(tabs, n) && x < n
    ensures r != []
    decreases |keys|
  {
    if keys == [] then [SymbolIv(Ones(n), x, false)]
    else if keys[0] in tabs && Sum(tabs[keys[0]]) > 0 then
      var c := tabs[keys[0]];
      if c[x] > 0 then [SymbolIv(c, x, true)]
      else [SymbolIv(c, n, true)] + SymbolIvs(tabs, keys[1..], x, n)
    else SymbolIvs(tabs, keys[1..], x, n)
  }

  /** Counting x in each of the contexts, creating the missing ones. */
  function Update(tabs: Tables, keys: seq<seq<nat>>, x: nat, n: nat): (r: Tables)
    requires Over(tabs, n) && x < n
    ensures Over(r, n)
    decreases |keys|
  {
    if keys == [] then tabs
    else Update(tabs[keys[0] := Inc(Lookup(tabs, keys[0], n), x)], keys[1..], x, n)
  }

  /** One step of Update: count x in the first context, then the others. */
  lemma UpdateStep(tabs: Tables, keys: seq<seq<nat>>, x: nat, n: nat)
    requires Over(tabs, n) && x < n && keys != []
    ensures Update(tabs, keys, x, n) == Update(tabs[keys[0] := Inc(Lookup(tabs, keys[0], n), x)], keys[1..], x, n)
  {
  }

  /** The tables before the first symbol: only the empty (order 0) context. */
  function Initial(n: nat): (r: Tables)
    ensures Over(r, n)
  {
    map[[] := Zeros(n)]
  }

  /** The intervals coded for s[i..] from the tables tabs. */
  function IvsFrom(s: seq<nat>, K: nat, n: nat, i: nat, tabs: Tables): seq<Interval>
    requires i <= |s| && Symbols(s, n) && Over(tabs, n)
    decreases |s| - i
  {
    if i == |s| then []
    else
      var keys := Keys(s, i, K);
      SymbolIvs(tabs, keys, s[i], n) + IvsFrom(s, K, n, i + 1, Update(tabs, keys, s[i], n))
  }

  /** Everything `encode(sequence, max_context_len, alphabet)` codes. */
  function Intervals(s: seq<nat>, K: nat, n: nat): seq<Interval>
    requires Symbols(s, n)
  {
    IvsFrom(s, K, n, 0, Initial(n))
  }

  // ----- facts about the tables -----

  /** Update counts x once in each of the (distinct) contexts and touches no
      other context. */
  lemma {:induction false} UpdateFacts(tabs: Tables, keys: seq<seq<nat>>, x: nat, n: nat)
    requires Over(tabs, n) && x < n && Distinct(keys)
    ensures forall k :: k in Update(tabs, keys, x, n) <==> k in tabs || k in keys
    ensures forall k :: k in keys ==>
      Update(tabs, keys, x, n)[k] == Inc(if k in tabs then tabs[k] else Zeros(n), x)
    ensures forall k :: k in tabs && k !in keys ==> Update(tabs, keys, x, n)[k] == tabs[k]
    decreases |keys|
  {
    if keys != [] {
      var tabs1 := tabs[keys[0] := Inc(Lookup(tabs, keys[0], n), x)];
      assert Distinct(keys[1..]);
      UpdateFacts(tabs1, keys[1..], x, n);
      assert forall k :: k in keys <==> k == keys[0] || k in keys[1..];
      assert keys[0] !in keys[1..];
    }
  }

  /** Each update adds one to the total of every context it touches. */
  lemma UpdateTotals(tabs: Tables, keys: seq<seq<nat>>, x: nat, n: nat, b: nat)
    requires Over(tabs, n) && x < n && Distinct(keys) && TotalsAtMost(tabs, b)
    ensures TotalsAtMost(Update(tabs, keys, x, n), b + 1)
  {
    UpdateFacts(tabs, keys, x, n);
    SumZeros(n);
    forall k | k in Update(tabs, keys, x, n)
      ensures Sum(Update(tabs, keys, x, n)[k]) <= b + 1
    {
      if k in keys {
        SumInc(if k in tabs then tabs[k] else Zeros(n), x);
      }
    }
  }

  /** The contexts of a step form a suffix chain ending in the empty one, so
      adding them keeps the set of contexts suffix-closed. */
  lemma UpdateSuffixClosed(tabs: Tables, s: seq<nat>, i: nat, K: nat, x: nat, n: nat)
    requires Over(tabs, n) && x < n && i <= |s| && SuffixClosed(tabs) && [] in tabs
    ensures SuffixClosed(Update(tabs, Keys(s, i, K), x, n)) && [] in Update(tabs, Keys(s, i, K), x, n)
  {
    var keys := Keys(s, i, K);
    KeysChain(s, i, K);
    UpdateFacts(tabs, keys, x, n);
    var r := Update(tabs, keys, x, n);
    forall k | k in r && k != []
      ensures k[1..] in r
    {
      if k !in tabs {
        var t :| 0 <= t < |keys| && keys[t] == k;
        assert t + 1 < |keys|;
        assert keys[t + 1] == k[1..];
      }
    }
  }

  /** Once a context of the chain exists, all shorter ones do. */
  lemma {:induction false} ChainPresent(tabs: Tables, s: seq<nat>, i: nat, K: nat, t: nat, t2: nat)
    requires i <= |s| && SuffixClosed(tabs)
    requires t <= t2 < |Keys(s, i, K)| && Keys(s, i, K)[t] in tabs
    ensures Keys(s, i, K)[t2] in tabs
    decreases t2 - t
  {
    if t < t2 {
      KeysChain(s, i, K);
      ChainPresent(tabs, s, i, K, t + 1, t2);
    }
  }

  // ----- the inner loop of the encoder, one context at a time -----

  /** What the inner loop of `encode` codes in an existing context with table
      c while x is not coded yet: x's interval if c has it, else the escape if
      c is not empty, else nothing. */
  function CodeAt(c: seq<nat>, x: nat): seq<Interval>
    requires x < |c|
  {
    if c[x] > 0 then [SymbolIv(c, x, true)]
    else if Sum(c) > 0 then [SymbolIv(c, |c|, true)]
    else []
  }

  /** The table of context key, or an empty one when key is not a context yet. */
  function Lookup(tabs: Tables, key: seq<nat>, n: nat): (r: seq<nat>)
    requires Over(tabs, n)
    ensures |r| == n
  {
    if key in tabs then tabs[key] else Zeros(n)
  }

  /** What the inner loop of `encode` codes in context key: nothing once x is
      coded or when the context is missing, else CodeAt. */
  function Coded(tabs: Tables, key: seq<nat>, x: nat, n: nat, encoded: bool): seq<Interval>
    requires Over(tabs, n) && x < n
  {
    if key in tabs && !encoded then CodeAt(tabs[key], x) else []
  }

  /** Whether context key exists and has x, so that x gets coded there. */
  predicate Hit(tabs: Tables, key: seq<nat>, x: nat, n: nat)
    requires Over(tabs, n) && x < n
  {
    key in tabs && tabs[key][x] > 0
  }

  /** The inner loop of `encode` over the contexts keys, from the (partly
      updated) tables tabs, with `encoded` telling whether x is coded yet:
      the intervals it codes, the order -1 one included, and the tables it
      leaves.  Every context counts x, whether it coded it or not. */
  function EncodePass(tabs: Tables, keys: seq<seq<nat>>, x: nat, n: nat, encoded: bool): (r: (seq<Interval>, Tables))
    requires Over(tabs, n) && x < n
    ensures Over(r.1, n)
    decreases |keys|
  {
    if keys == [] then (if encoded then [] else [SymbolIv(Ones(n), x, false)], tabs)
    else
      var r := EncodePass(tabs[keys[0] := Inc(Lookup(tabs, keys[0], n), x)], keys[1..], x, n,
                          encoded || Hit(tabs, keys[0], x, n));
      (Coded(tabs, keys[0], x, n, encoded) + r.0, r.1)
  }

  /** Along the inner loop of `encode`, a context is missing only while x is
      not coded yet (the source asserts `encoded == False` there). */
  predicate MissingOnlyUncoded(tabs: Tables, keys: seq<seq<nat>>, x: nat, n: nat, encoded: bool)
    requires Over(tabs, n) && x < n
    decreases |keys|
  {
    keys != [] ==>
      && (keys[0] !in tabs ==> !encoded)
      && MissingOnlyUncoded(tabs[keys[0] := Inc(Lookup(tabs, keys[0], n), x)], keys[1..], x, n,
                            encoded || Hit(tabs, keys[0], x, n))
  }

  /** One turn of the inner loop of `encode`: the pass from key on codes what
      Coded codes at key and then the rest of the pass, from the tables with x
      counted at key. */
  lemma PassStep(tabs: Tables, keys: seq<seq<nat>>, x: nat, n: nat, encoded: bool, rest: seq<Interval>)
    requires Over(tabs, n) && x < n && keys != []
    ensures var next := tabs[keys[0] := Inc(Lookup(tabs, keys[0], n), x)];
            var r := EncodePass(next, keys[1..], x, n, encoded || Hit(tabs, keys[0], x, n));
            && EncodePass(tabs, keys, x, n, encoded).1 == r.1
            && EncodePass(tabs, keys, x, n, encoded).0 + rest == Coded(tabs, keys[0], x, n, encoded) + (r.0 + rest)
            && (MissingOnlyUncoded(tabs, keys, x, n, encoded) ==>
                  MissingOnlyUncoded(next, keys[1..], x, n, encoded || Hit(tabs, keys[0], x, n)))
  {
    var next := tabs[keys[0] := Inc(Lookup(tabs, keys[0], n), x)];
    var r := EncodePass(next, keys[1..], x, n, encoded || Hit(tabs, keys[0], x, n));
    var a := Coded(tabs, keys[0], x, n, encoded);
    assert (a + r.0) + rest == a + (r.0 + rest);
  }

  /** A table changed outside the contexts keys does not change what they code. */
  lemma {:induction false} SymbolIvsFrame(tabs: Tables, k: seq<nat>, v: seq<nat>, keys: seq<seq<nat>>, x: nat, n: nat)
    requires Over(tabs, n) && x < n && |v| == n && k !in keys
    ensures SymbolIvs(tabs[k := v], keys, x, n) == SymbolIvs(tabs, keys, x, n)
    decreases |keys|
  {
    if keys != [] {
      assert keys[0] != k;
      assert k !in keys[1..];
      SymbolIvsFrame(tabs, k, v, keys[1..], x, n);
    }
  }

  /** Once x is coded, the pass codes nothing more and only counts. */
  lemma {:induction false} EncodePassCoded(tabs: Tables, keys: seq<seq<nat>>, x: nat, n: nat)
    requires Over(tabs, n) && x < n
    ensures EncodePass(tabs, keys, x, n, true) == ([], Update(tabs, keys, x, n))
    decreases |keys|
  {
    if keys != [] {
      EncodePassCoded(tabs[keys[0] := Inc(Lookup(tabs, keys[0], n), x)], keys[1..], x, n);
      var none: seq<Interval> := [];
      assert none + none == none;
    }
  }

  /** The inner loop of `encode`, started with x not coded, codes exactly
      SymbolIvs and leaves exactly Update. */
  lemma {:induction false} EncodePassIsSpec(tabs: Tables, keys: seq<seq<nat>>, x: nat, n: nat)
    requires Over(tabs, n) && x < n && Distinct(keys)
    ensures EncodePass(tabs, keys, x, n, false) == (SymbolIvs(tabs, keys, x, n), Update(tabs, keys, x, n))
    decreases |keys|
  {
    if keys != [] {
      var k := keys[0];
      var c := Lookup(tabs, k, n);
      var tabs1 := tabs[k := Inc(c, x)];
      assert k !in keys[1..] by {
        forall t | 0 <= t < |keys[1..]|
          ensures keys[1..][t] != k
        {
          assert keys[1..][t] == keys[t + 1];
        }
      }
      if k in tabs && c[x] > 0 {
        EncodePassCoded(tabs1, keys[1..], x, n);
        var hit: seq<Interval> := [SymbolIv(c, x, true)];
        assert hit + [] == hit;
        assert Sum(c) > 0 by {
          CumCountStep(c, x);
          CumCountMono(c, x, |c| - 1);
          CumCountAtEnd(c);
        }
      } else {
        assert Distinct(keys[1..]);
        EncodePassIsSpec(tabs1, keys[1..], x, n);
        SymbolIvsFrame(tabs, k, Inc(c, x), keys[1..], x, n);
        var coded := if k in tabs then CodeAt(c, x) else [];
        assert SymbolIvs(tabs, keys, x, n) == coded + SymbolIvs(tabs, keys[1..], x, n);
      }
    }
  }

  /** The source's assertion holds: along the contexts of a step, with
      suffix-closed tables, a missing context is met only before x is coded.
      tabs are the tables before the step and cur those during it. */
  lemma {:induction false} MissingOnlyUncodedFrom(tabs: Tables, cur: Tables, s: seq<nat>, i: nat, K: nat,
                                                  x: nat, n: nat, t: nat, encoded: bool)
    requires i <= |s| && SuffixClosed(tabs) && Over(cur, n) && x < n
    requires t <= |Keys(s, i, K)|
    requires forall u :: t <= u < |Keys(s, i, K)| ==> (Keys(s, i, K)[u] in cur <==> Keys(s, i, K)[u] in tabs)
    requires encoded ==> forall u :: t <= u < |Keys(s, i, K)| ==> Keys(s, i, K)[u] in tabs
    ensures MissingOnlyUncoded(cur, Keys(s, i, K)[t..], x, n, encoded)
    decreases |Keys(s, i, K)| - t
  {
    var keys := Keys(s, i, K);
    if t < |keys| {
      KeysChain(s, i, K);
      var k := keys[t];
      var c := Lookup(cur, k, n);
      var encoded1 := encoded || Hit(cur, k, x, n);
      if encoded1 {
        forall u | t + 1 <= u < |keys|
          ensures keys[u] in tabs
        {
          if !encoded {
            ChainPresent(tabs, s, i, K, t, u);
          }
        }
      }
      MissingOnlyUncodedFrom(tabs, cur[k := Inc(c, x)], s, i, K, x, n, t + 1, encoded1);
      assert keys[t..][1..] == keys[t + 1..];
    }
  }

  // ----- the intervals are codable -----

  lemma AllValidConcat(m: nat, a: seq<Interval>, b: seq<Interval>)
    requires AllValid(m, a) && AllValid(m, b)
    ensures AllValid(m, a + b)
  {
    forall i | 0 <= i < |a + b|
      ensures ValidInterval(m, (a + b)[i])
    {
      if i >= |a| {
        assert (a + b)[i] == b[i - |a|];
      }
    }
  }

  /** With totals below b and b + 1, n at most 2^(m-2), every interval coded
      for a symbol is a valid interval for the coder. */
  lemma {:induction false} SymbolIvsValid(tabs: Tables, keys: seq<seq<nat>>, x: nat, n: nat, b: nat)
    requires Over(tabs, n) && x < n && TotalsAtMost(tabs, b)
    requires b + 1 <= Pow2(WordLength - 2) && n <= Pow2(WordLength - 2)
    ensures AllValid(WordLength, SymbolIvs(tabs, keys, x, n))
    decreases |keys|
  {
    if keys == [] {
      UniformInterval(n, x);
    } else if keys[0] in tabs && Sum(tabs[keys[0]]) > 0 {
      var c := tabs[keys[0]];
      if c[x] == 0 {
        SymbolIvsValid(tabs, keys[1..], x, n, b);
        AllValidConcat(WordLength, [SymbolIv(c, n, true)], SymbolIvs(tabs, keys[1..], x, n));
      }
    } else {
      SymbolIvsValid(tabs, keys[1..], x, n, b);
    }
  }

  lemma {:induction false} IvsFromValid(s: seq<nat>, K: nat, n: nat, i: nat, tabs: Tables)
    requires i <= |s| && Symbols(s, n) && Over(tabs, n) && TotalsAtMost(tabs, i)
    requires |s| <= Pow2(WordLength - 2) && n <= Pow2(WordLength - 2)
    ensures AllValid(WordLength, IvsFrom(s, K, n, i, tabs))
    decreases |s| - i
  {
    if i < |s| {
      var keys := Keys(s, i, K);
      KeysChain(s, i, K);
      SymbolIvsValid(tabs, keys, s[i], n, i);
      UpdateTotals(tabs, keys, s[i], n, i);
      IvsFromValid(s, K, n, i + 1, Update(tabs, keys, s[i], n));
      AllValidConcat(WordLength, SymbolIvs(tabs, keys, s[i], n), IvsFrom(s, K, n, i + 1, Update(tabs, keys, s[i], n)));
    }
  }

  /** A message and alphabet whose sizes keep the 30-bit narrowing exact in
      floats are far inside the coder's quarter-range bound. */
  lemma FloatExactSizes(s: seq<nat>, n: nat)
    requires FloatExact(WordLength, |s|) && FloatExact(WordLength, n)
    ensures |s| <= Pow2(WordLength - 2) && n <= Pow2(WordLength - 2)
  {
    FloatExactBound(WordLength, |s|, WordLength - 2);
    FloatExactBound(WordLength, n, WordLength - 2);
  }

  lemma IntervalsValid(s: seq<nat>, K: nat, n: nat)
    requires Symbols(s, n) && |s| <= Pow2(WordLength - 2) && n <= Pow2(WordLength - 2)
    ensures AllValid(WordLength, Intervals(s, K, n))
  {
    SumZeros(n);
    IvsFromValid(s, K, n, 0, Initial(n));
  }

  /** The bits `encode(sequence, max_context_len, alphabet)` returns. */
  function PpmEncoded(s: seq<nat>, K: nat, n: nat): (r: seq<int>)
    requires Symbols(s, n) && |s| <= Pow2(WordLength - 2) && n <= Pow2(WordLength - 2)
    ensures IsBits(r) && |r| >= WordLength
  {
    IntervalsValid(s, K, n);
    ArithCoder.Encode(WordLength, Intervals(s, K, n))
  }

  // ----- what the decoder does -----

  /** A decoded symbol and the decoder state after narrowing to it. */
  datatype Found = Found(d: DecState, x: nat)

  /** The search of `decode` for the next symbol: in each non-empty context,
      longest first, renormalise (`decode_stream`) and decode a symbol or an
      escape (`decode_symbol(ctx, True)`); after escapes from all of them,
      renormalise and decode in the order -1 table.  None where a
      renormalisation reads past the input. */
  function DecodeIn(m: nat, n: nat, bits: seq<int>, d: DecState, tabs: Tables, keys: seq<seq<nat>>): (r: Option<Found>)
    requires DecValid(m, d) && IsBits(bits) && Over(tabs, n) && n > 0
    ensures r.Some? ==> DecValid(m, r.value.d) && r.value.x < n
    decreases |keys|
  {
    if keys != [] && !(keys[0] in tabs && Sum(tabs[keys[0]]) > 0) then
      DecodeIn(m, n, bits, d, tabs, keys[1..])
    else
      match DecRenorm(m, d, bits)
      case None => None
      case Some(d1) =>
        if keys == [] then
          SumOnes(n);
          var f := DecodeSymbolSpec(m, d1, Ones(n), false);
          Some(Found(f.1, f.0))
        else
          var f := DecodeSymbolSpec(m, d1, tabs[keys[0]], true);
          if f.0 < n then Some(Found(f.1, f.0)) else DecodeIn(m, n, bits, f.1, tabs, keys[1..])
  }

  /** `decode_stream` and then `decode_symbol(ctx, has_escape)` on the table
      of counts c: None where the renormalisation reads past the input. */
  function TryDecode(m: nat, d: DecState, bits: seq<int>, c: seq<nat>, hasEscape: bool): (r: Option<Found>)
    requires DecValid(m, d) && IsBits(bits) && RangeMax(c, hasEscape) > 0
    ensures r.Some? ==> DecValid(m, r.value.d) && r.value.x <= |c| && (r.value.x == |c| ==> hasEscape)
  {
    match DecRenorm(m, d, bits)
    case None => None
    case Some(d1) =>
      var f := DecodeSymbolSpec(m, d1, c, hasEscape);
      Some(Found(f.1, f.0))
  }

  /** The search in the first context: skipped when missing or empty, else
      decoded there; on an escape the search goes on in the others. */
  lemma DecodeInFirst(m: nat, n: nat, bits: seq<int>, d: DecState, tabs: Tables, keys: seq<seq<nat>>)
    requires DecValid(m, d) && IsBits(bits) && Over(tabs, n) && n > 0 && keys != []
    ensures !(keys[0] in tabs && Sum(tabs[keys[0]]) > 0) ==>
              DecodeIn(m, n, bits, d, tabs, keys) == DecodeIn(m, n, bits, d, tabs, keys[1..])
    ensures keys[0] in tabs && Sum(tabs[keys[0]]) > 0 ==>
              var r := TryDecode(m, d, bits, tabs[keys[0]], true);
              DecodeIn(m, n, bits, d, tabs, keys)
              == if r.None? || r.value.x < n then r else DecodeIn(m, n, bits, r.value.d, tabs, keys[1..])
  {
  }

  /** After escapes from all the contexts, the order -1 table decides. */
  lemma DecodeInLast(m: nat, n: nat, bits: seq<int>, d: DecState, tabs: Tables)
    requires DecValid(m, d) && IsBits(bits) && Over(tabs, n) && n > 0
    ensures (SumOnes(n); DecodeIn(m, n, bits, d, tabs, []) == TryDecode(m, d, bits, Ones(n), false))
  {
    SumOnes(n);
  }

  /** `max(dec_len, 1)`: the decoder always decodes a first symbol. */
  function AtLeastOne(msgLen: nat): nat
  {
    if msgLen == 0 then 1 else msgLen
  }

  /** The main loop of `decode` from decoder state d and tables tabs, with msg
      decoded so far: decode the next symbol, count it in its contexts, until
      message_len symbols are out (and at least one). */
  function DecodeFrom(m: nat, n: nat, K: nat, bits: seq<int>, d: DecState, tabs: Tables, msg: seq<nat>, msgLen: nat): (r: Option<seq<nat>>)
    requires DecValid(m, d) && IsBits(bits) && Over(tabs, n) && n > 0 && |msg| <= AtLeastOne(msgLen)
    decreases AtLeastOne(msgLen) - |msg|
  {
    if msg != [] && |msg| >= msgLen then Some(msg)
    else
      var keys := Keys(msg, |msg|, K);
      match DecodeIn(m, n, bits, d, tabs, keys)
      case None => None
      case Some(f) => DecodeFrom(m, n, K, bits, f.d, Update(tabs, keys, f.x, n), msg + [f.x], msgLen)
  }

  /** `decode(sequence, max_context_len, alphabet, message_len)`. */
  function PpmDecoded(bits: seq<int>, K: nat, n: nat, msgLen: nat): Option<seq<nat>>
    requires IsBits(bits) && n > 0
  {
    DecodeFrom(WordLength, n, K, bits, Start(WordLength, bits), Initial(n), [], msgLen)
  }

  /** The first step of `decode`: from the fresh decoder, which needs no
      renormalisation, the first symbol is decoded in the order -1 table and
      counted in the order 0 context. */
  lemma PpmDecodedFirst(bits: seq<int>, K: nat, n: nat, msgLen: nat)
    requires IsBits(bits) && n > 0
    ensures (SumOnes(n); var f := DecodeSymbolSpec(WordLength, Start(WordLength, bits), Ones(n), false);
             && f.0 < n
             && PpmDecoded(bits, K, n, msgLen)
                == DecodeFrom(WordLength, n, K, bits, f.1, map[[] := Inc(Zeros(n), f.0)], [f.0], msgLen))
  {
    var d0 := Start(WordLength, bits);
    InitIsSettled(WordLength);
    assert !NeedsRenorm(WordLength, d0.l, d0.u);
    assert DecRenorm(WordLength, d0, bits) == Some(d0);
    SumOnes(n);
    assert Keys([], 0, K) == [[]];
    SumZeros(n);
    var f := DecodeSymbolSpec(WordLength, d0, Ones(n), false);
    assert DecodeIn(WordLength, n, bits, d0, Initial(n), [[]]) == Some(Found(f.1, f.0));
    assert [] + [f.0] == [f.0];
    assert Update(Initial(n), [[]], f.0, n) == map[[] := Inc(Zeros(n), f.0)];
  }

  /** One turn of the decoding loop: a failed search ends the decoding,
      otherwise the symbol found is counted under the contexts of its own
      position and appended. */
  lemma DecodeLoopStep(m: nat, n: nat, K: nat, bits: seq<int>, d: DecState, tabs: Tables, msg: seq<nat>, msgLen: nat)
    requires DecValid(m, d) && IsBits(bits) && Over(tabs, n) && n > 0 && msg != [] && |msg| < msgLen
    ensures var f := DecodeIn(m, n, bits, d, tabs, Keys(msg, |msg|, K));
            && (f.None? ==> DecodeFrom(m, n, K, bits, d, tabs, msg, msgLen) == None)
            && (f.Some? ==> DecodeFrom(m, n, K, bits, d, tabs, msg, msgLen)
                            == DecodeFrom(m, n, K, bits, f.value.d, Update(tabs, Keys(msg + [f.value.x], |msg|, K), f.value.x, n), msg + [f.value.x], msgLen))
  {
    var f := DecodeIn(m, n, bits, d, tabs, Keys(msg, |msg|, K));
    if f.Some? {
      KeysOfPrefix(msg + [f.value.x], |msg|, K);
      assert (msg + [f.value.x])[..|msg|] == msg;
    }
  }

  /** Whatever message_len asks for, `decode` returns at least one symbol and
      stops as soon as it has message_len of them. */
  lemma {:induction false} DecodeFromLength(m: nat, n: nat, K: nat, bits: seq<int>, d: DecState, tabs: Tables, msg: seq<nat>, msgLen: nat)
    requires DecValid(m, d) && IsBits(bits) && Over(tabs, n) && n > 0 && |msg| <= AtLeastOne(msgLen)
    ensures var r := DecodeFrom(m, n, K, bits, d, tabs, msg, msgLen);
            r.Some? ==> |r.value| == AtLeastOne(msgLen) && msg <= r.value
    decreases AtLeastOne(msgLen) - |msg|
  {
    if !(msg != [] && |msg| >= msgLen) {
      var keys := Keys(msg, |msg|, K);
      var f := DecodeIn(m, n, bits, d, tabs, keys);
      if f.Some? {
        DecodeFromLength(m, n, K, bits, f.value.d, Update(tabs, keys, f.value.x, n), msg + [f.value.x], msgLen);
      }
    }
  }

  lemma PpmDecodedLength(bits: seq<int>, K: nat, n: nat, msgLen: nat)
    requires IsBits(bits) && n > 0
    ensures PpmDecoded(bits, K, n, msgLen).Some? ==> |PpmDecoded(bits, K, n, msgLen).value| == AtLeastOne(msgLen)
  {
    InitIsSettled(WordLength);
    DecodeFromLength(WordLength, n, K, bits, Start(WordLength, bits), Initial(n), [], msgLen);
  }

  // ----- the round trip -----

  /** One call of `decode_stream` then `decode_symbol` on table c, in step
      with the encoder whose next interval is that of x in c: the input
      suffices, x is found, and both sides stay in step. */
  lemma StepTracks(fin: seq<int>, cd: Coder, all: seq<Interval>, nb: nat, d: DecState,
                   c: seq<nat>, hasEscape: bool, x: nat)
    returns (c1: Coder, nb1: nat)
    requires Sync(WordLength, cd, all, nb, d, fin) && all != []
    requires x <= |c| && (x < |c| ==> c[x] > 0) && (x == |c| ==> hasEscape)
    requires all[0] == SymbolIv(c, x, hasEscape)
    ensures DecRenorm(WordLength, d, fin).Some?
    ensures DecodeSymbolSpec(WordLength, DecRenorm(WordLength, d, fin).value, c, hasEscape).0 == x
    ensures Sync(WordLength, c1, all[1..], nb1, DecodeSymbolSpec(WordLength, DecRenorm(WordLength, d, fin).value, c, hasEscape).1, fin)
  {
    SyncRenorm(WordLength, cd, all, nb, d, fin);
    var e := Renorm(WordLength, cd);
    nb1 := nb + |e.bits|;
    c1 := NarrowTracks(fin, e.st, all, nb1, DecRenorm(WordLength, d, fin).value, c, hasEscape, x);
  }

  /** From a settled state in step with the decoder, the decoder's symbol
      search finds the symbol whose interval the encoder narrowed to, and the
      two stay in step. */
  lemma NarrowTracks(fin: seq<int>, cd: Coder, all: seq<Interval>, nb: nat, d: DecState,
                     c: seq<nat>, hasEscape: bool, x: nat)
    returns (c1: Coder)
    requires Sync(WordLength, cd, all, nb, d, fin) && Settled(WordLength, cd) && all != []
    requires x <= |c| && (x < |c| ==> c[x] > 0) && (x == |c| ==> hasEscape)
    requires all[0] == SymbolIv(c, x, hasEscape)
    ensures DecodeSymbolSpec(WordLength, d, c, hasEscape).0 == x
    ensures Sync(WordLength, c1, all[1..], nb, DecodeSymbolSpec(WordLength, d, c, hasEscape).1, fin)
  {
    SyncNarrow(WordLength, cd, all, nb, d, fin);
    c1 := Narrow(WordLength, cd, all[0]);
    if x < |c| {
      FindActiveHit(c, Target(d, RangeMax(c, hasEscape)), x);
    } else {
      FindActiveEscape(c, Target(d, RangeMax(c, hasEscape)));
    }
  }

  /** The search ends at once, in the order -1 table or in a first non-empty
      context that has x. */
  lemma FoundTracks(n: nat, fin: seq<int>, c: Coder, nb: nat, d: DecState,
                    tabs: Tables, keys: seq<seq<nat>>, x: nat, rest: seq<Interval>)
    returns (c1: Coder, nb1: nat)
    requires x < n && Over(tabs, n)
    requires keys == [] || (keys[0] in tabs && Sum(tabs[keys[0]]) > 0 && tabs[keys[0]][x] > 0)
    requires Sync(WordLength, c, SymbolIvs(tabs, keys, x, n) + rest, nb, d, fin)
    ensures DecodeIn(WordLength, n, fin, d, tabs, keys).Some?
    ensures DecodeIn(WordLength, n, fin, d, tabs, keys).value.x == x
    ensures Sync(WordLength, c1, rest, nb1, DecodeIn(WordLength, n, fin, d, tabs, keys).value.d, fin)
  {
    var all := SymbolIvs(tabs, keys, x, n) + rest;
    assert all[1..] == rest;
    var table := if keys == [] then Ones(n) else tabs[keys[0]];
    SumOnes(n);
    c1, nb1 := StepTracks(fin, c, all, nb, d, table, keys != [], x);
  }

  /** In step with the encoder that still has to code the intervals of
      symbol x followed by rest, the decoder's search finds x and ends in step
      with the encoder that has rest left. */
  lemma {:induction false} DecodeInTracks(n: nat, fin: seq<int>, c: Coder, nb: nat, d: DecState,
                                          tabs: Tables, keys: seq<seq<nat>>, x: nat, rest: seq<Interval>)
    returns (c1: Coder, nb1: nat)
    requires x < n && Over(tabs, n)
    requires Sync(WordLength, c, SymbolIvs(tabs, keys, x, n) + rest, nb, d, fin)
    ensures DecodeIn(WordLength, n, fin, d, tabs, keys).Some?
    ensures DecodeIn(WordLength, n, fin, d, tabs, keys).value.x == x
    ensures Sync(WordLength, c1, rest, nb1, DecodeIn(WordLength, n, fin, d, tabs, keys).value.d, fin)
    decreases |keys|
  {
    if keys == [] || (keys[0] in tabs && Sum(tabs[keys[0]]) > 0 && tabs[keys[0]][x] > 0) {
      c1, nb1 := FoundTracks(n, fin, c, nb, d, tabs, keys, x, rest);
    } else if !(keys[0] in tabs && Sum(tabs[keys[0]]) > 0) {
      c1, nb1 := DecodeInTracks(n, fin, c, nb, d, tabs, keys[1..], x, rest);
    } else {
      var all := SymbolIvs(tabs, keys, x, n) + rest;
      assert all[1..] == SymbolIvs(tabs, keys[1..], x, n) + rest;
      c1, nb1 := StepTracks(fin, c, all, nb, d, tabs[keys[0]], true, n);
      var d2 := DecodeSymbolSpec(WordLength, DecRenorm(WordLength, d, fin).value, tabs[keys[0]], true).1;
      c1, nb1 := DecodeInTracks(n, fin, c1, nb1, d2, tabs, keys[1..], x, rest);
    }
  }

  /** One turn of the main loop of `decode` over a prefix of s that finds the
      next symbol of s. */
  lemma DecodeFromStep(s: seq<nat>, K: nat, n: nat, i: nat, tabs: Tables, d: DecState, fin: seq<int>, d1: DecState)
    requires i < |s| && s[i] < n && n > 0 && Over(tabs, n) && DecValid(WordLength, d) && IsBits(fin)
    requires DecodeIn(WordLength, n, fin, d, tabs, Keys(s, i, K)) == Some(Found(d1, s[i]))
    ensures DecodeFrom(WordLength, n, K, fin, d, tabs, s[..i], |s|)
         == DecodeFrom(WordLength, n, K, fin, d1, Update(tabs, Keys(s, i, K), s[i], n), s[..i + 1], |s|)
  {
    KeysOfPrefix(s, i, K);
    assert |s[..i]| == i;
    assert s[..i] + [s[i]] == s[..i + 1];
  }

  /** One symbol of s: the decoder, in step with the encoder before s[i],
      decodes s[i] and counts it in the same contexts, and both sides are in
      step again. */
  lemma SymbolTracks(s: seq<nat>, K: nat, n: nat, i: nat, tabs: Tables,
                     c: Coder, nb: nat, d: DecState, fin: seq<int>)
    returns (c1: Coder, nb1: nat, d1: DecState)
    requires i < |s| && Symbols(s, n) && Over(tabs, n)
    requires Sync(WordLength, c, IvsFrom(s, K, n, i, tabs), nb, d, fin)
    ensures n > 0 && Sync(WordLength, c1, IvsFrom(s, K, n, i + 1, Update(tabs, Keys(s, i, K), s[i], n)), nb1, d1, fin)
    ensures DecodeFrom(WordLength, n, K, fin, d, tabs, s[..i], |s|)
         == DecodeFrom(WordLength, n, K, fin, d1, Update(tabs, Keys(s, i, K), s[i], n), s[..i + 1], |s|)
  {
    assert s[i] < n;
    var keys := Keys(s, i, K);
    var rest := IvsFrom(s, K, n, i + 1, Update(tabs, keys, s[i], n));
    c1, nb1 := DecodeInTracks(n, fin, c, nb, d, tabs, keys, s[i], rest);
    d1 := DecodeIn(WordLength, n, fin, d, tabs, keys).value.d;
    DecodeFromStep(s, K, n, i, tabs, d, fin, d1);
  }

  /** In step with the encoder after coding s[..i], with the same tables, the
      decoder's main loop decodes the rest of s. */
  lemma {:induction false} DecodeFromTracks(s: seq<nat>, K: nat, n: nat, i: nat, tabs: Tables,
                                            c: Coder, nb: nat, d: DecState, fin: seq<int>)
    requires s != [] && i <= |s| && Symbols(s, n) && Over(tabs, n) && n > 0
    requires Sync(WordLength, c, IvsFrom(s, K, n, i, tabs), nb, d, fin)
    ensures DecodeFrom(WordLength, n, K, fin, d, tabs, s[..i], |s|) == Some(s)
    decreases |s| - i
  {
    if i == |s| {
      assert s[..i] == s;
    } else {
      var c1, nb1, d1 := SymbolTracks(s, K, n, i, tabs, c, nb, d, fin);
      var tabs1 := Update(tabs, Keys(s, i, K), s[i], n);
      DecodeFromTracks(s, K, n, i + 1, tabs1, c1, nb1, d1, fin);
    }
  }

  /** `decode(encode(s, K, A), K, A, len(s)) == s` for every non-empty s whose
      length and alphabet fit the 30-bit coder. */
  lemma PpmRoundTrip(s: seq<nat>, K: nat, n: nat)
    requires s != [] && Symbols(s, n) && |s| <= Pow2(WordLength - 2) && n <= Pow2(WordLength - 2)
    ensures n > 0 && PpmDecoded(PpmEncoded(s, K, n), K, n, |s|) == Some(s)
  {
    IntervalsValid(s, K, n);
    var ivs := Intervals(s, K, n);
    var fin := ArithCoder.Encode(WordLength, ivs);
    SyncStart(WordLength, ivs);
    assert s[0] < n && s[..0] == [];
    DecodeFromTracks(s, K, n, 0, Initial(n), Init(WordLength), 0, Start(WordLength, fin), fin);
  }
}
