/** The loops of `encode` (ppm.py:138-201) and `decode` (ppm.py:293-369):
    the `contexts` dictionary, a local map from context to the counts of its
    table that the loops grow and count in, drives an ArithmeticEncoder or
    ArithmeticDecoder.  The order -1 table `contexts[None]` is held apart, as
    order1.  Each loop is proved to compute the functions of PpmModel, whose
    round trip is proved there. */
module Ppm {
  import opened Bits
  import opened Wrappers
  import opened ArithCoder
  import opened CountTable
  import opened PpmCoder
  import opened PpmModel

  /** The alphabet loop of `encode` and `decode`: count each symbol index
      once in an empty table, giving the uniform order -1 table. */
  method OrderMinusOne(n: nat) returns (t: seq<nat>)
    ensures t == Ones(n)
  {
    t := Zeros(n);
    var index := 0;
    while index < n
      invariant index <= n && t == Ones(index) + Zeros(n - index)
    {
      assert Inc(Ones(index) + Zeros(n - index), index) == Ones(index + 1) + Zeros(n - index - 1);
      t := Inc(t, index);
      index := index + 1;
    }
    assert Ones(n) + Zeros(0) == Ones(n);
  }

  // ----- the encoder -----

  /** `entropy_coder.encode(lo, hi, total)`: the interval is coded, and what
      remains to be written is the output for the rest. */
  method Code(enc: ArithmeticEncoder, lo: nat, hi: nat, total: nat, ghost rest: seq<Interval>)
    requires enc.Valid() && enc.m == WordLength && AllValid(WordLength, [Interval(lo, hi, total)] + rest)
    modifies enc
    ensures enc.Valid() && AllValid(WordLength, rest)
    ensures enc.result + EncodeFrom(WordLength, enc.State(), rest)
         == old(enc.result) + EncodeFrom(WordLength, old(enc.State()), [Interval(lo, hi, total)] + rest)
  {
    CodeStep(WordLength, enc.State(), Interval(lo, hi, total), rest, enc.result);
    enc.Encode(lo, hi, total);
  }

  /** The body of the inner loop of `encode` in an existing context while x
      is not coded yet, c being the counts of that context's table: code x
      when the table has it, else the escape when the table is not empty. */
  method CodeIn(enc: ArithmeticEncoder, c: seq<nat>, x: nat, ghost rest: seq<Interval>)
    returns (hit: bool)
    requires enc.Valid() && enc.m == WordLength && x < |c|
    requires AllValid(WordLength, CodeAt(c, x) + rest)
    modifies enc
    ensures enc.Valid() && (hit <==> c[x] > 0) && AllValid(WordLength, rest)
    ensures enc.result + EncodeFrom(WordLength, enc.State(), rest)
         == old(enc.result) + EncodeFrom(WordLength, old(enc.State()), CodeAt(c, x) + rest)
  {
    hit := c[x] > 0;
    var total := Sum(c);
    if hit {
      var cum := CumCount(c, x);
      Code(enc, cum - c[x], cum, total + 1, rest);
    } else if total > 0 {
      Code(enc, total, total + 1, total + 1, rest);
    } else {
      assert CodeAt(c, x) + rest == rest;
    }
  }

  /** `encode` in the order -1 table, after escapes from every context. */
  method CodeUniform(enc: ArithmeticEncoder, order1: seq<nat>, x: nat, n: nat, ghost rest: seq<Interval>)
    requires enc.Valid() && enc.m == WordLength && order1 == Ones(n) && x < n
    requires AllValid(WordLength, [SymbolIv(Ones(n), x, false)] + rest)
    modifies enc
    ensures enc.Valid() && AllValid(WordLength, rest)
    ensures enc.result + EncodeFrom(WordLength, enc.State(), rest)
         == old(enc.result) + EncodeFrom(WordLength, old(enc.State()), [SymbolIv(Ones(n), x, false)] + rest)
  {
    var cum := CumCount(order1, x);
    Code(enc, cum - order1[x], cum, Sum(order1), rest);
  }

  /** `contexts[ctx_key].increment_count(x)`, creating the table
      `CountArraySparse(len(alphabet))` first when the context is new. */
  method CountIn(contexts: Tables, n: nat, key: seq<nat>, x: nat) returns (contexts1: Tables)
    requires Over(contexts, n) && x < n
    ensures contexts1 == contexts[key := Inc(Lookup(contexts, key, n), x)]
  {
    contexts1 := contexts;
    if key !in contexts1 {
      contexts1 := contexts1[key := Zeros(n)];
    }
    contexts1 := contexts1[key := Inc(contexts1[key], x)];
  }

  /** One turn of the inner loop of `encode`, for context key: code x or an
      escape there unless x is coded or the context is missing, then count x
      in it, creating it when missing.  rest is what is left to code after. */
  method Visit(enc: ArithmeticEncoder, contexts: Tables, n: nat, key: seq<nat>, x: nat, encoded: bool,
               ghost rest: seq<Interval>)
    returns (contexts1: Tables, encoded1: bool)
    requires enc.Valid() && enc.m == WordLength && Over(contexts, n) && x < n
    requires key !in contexts ==> !encoded
    requires AllValid(WordLength, Coded(contexts, key, x, n, encoded) + rest)
    modifies enc
    ensures contexts1 == contexts[key := Inc(Lookup(contexts, key, n), x)]
    ensures encoded1 == (encoded || Hit(contexts, key, x, n))
    ensures enc.Valid() && AllValid(WordLength, rest)
    ensures enc.result + EncodeFrom(WordLength, enc.State(), rest)
         == old(enc.result) + EncodeFrom(WordLength, old(enc.State()), Coded(contexts, key, x, n, encoded) + rest)
  {
    encoded1 := encoded;
    if key in contexts && !encoded {
      encoded1 := CodeIn(enc, contexts[key], x, rest);
    } else {
      assert Coded(contexts, key, x, n, encoded) + rest == rest;
    }
    contexts1 := CountIn(contexts, n, key, x);
  }

  /** The inner loop of `encode` for symbol x = s[i]: Visit each context
      from the longest; then, if x is still not coded, code it in the order -1
      table.  It codes and counts what EncodePass says, and the source's
      `assert encoded == False` holds. */
  method EncodeContexts(enc: ArithmeticEncoder, contexts: Tables, order1: seq<nat>, s: seq<nat>, K: nat, n: nat,
                        i: nat, ghost rest: seq<Interval>)
    returns (contexts1: Tables)
    requires i < |s| && s[i] < n && Over(contexts, n) && order1 == Ones(n)
    requires MissingOnlyUncoded(contexts, Keys(s, i, K), s[i], n, false)
    requires enc.Valid() && enc.m == WordLength
    requires AllValid(WordLength, EncodePass(contexts, Keys(s, i, K), s[i], n, false).0 + rest)
    modifies enc
    ensures contexts1 == EncodePass(contexts, Keys(s, i, K), s[i], n, false).1
    ensures enc.Valid() && AllValid(WordLength, rest)
    ensures enc.result + EncodeFrom(WordLength, enc.State(), rest)
         == old(enc.result) + EncodeFrom(WordLength, old(enc.State()), EncodePass(contexts, Keys(s, i, K), s[i], n, false).0 + rest)
  {
    var x := s[i];
    var k := Lowest(i, K);
    ghost var keys := Keys(s, i, K);
    ghost var pending := EncodePass(contexts, keys, x, n, false).0 + rest;
    ghost var whole := enc.result + EncodeFrom(WordLength, enc.State(), pending);
    contexts1 := contexts;
    var encoded := false;
    ghost var todo := keys;
    var j := k;
    while j <= i
      invariant k <= j <= i + 1 && |todo| == i + 1 - j && Over(contexts1, n)
      invariant forall t :: 0 <= t < |todo| ==> todo[t] == s[j + t..i]
      invariant enc.Valid() && enc.m == WordLength
      invariant MissingOnlyUncoded(contexts1, todo, x, n, encoded)
      invariant EncodePass(contexts1, todo, x, n, encoded).1 == EncodePass(contexts, keys, x, n, false).1
      invariant pending == EncodePass(contexts1, todo, x, n, encoded).0 + rest
      invariant AllValid(WordLength, pending)
      invariant enc.result + EncodeFrom(WordLength, enc.State(), pending) == whole
    {
      var key := s[j..i];
      assert key == todo[0];
      PassStep(contexts1, todo, x, n, encoded, rest);
      ghost var tail := EncodePass(contexts1[key := Inc(Lookup(contexts1, key, n), x)], todo[1..], x, n,
                                   encoded || Hit(contexts1, key, x, n)).0 + rest;
      contexts1, encoded := Visit(enc, contexts1, n, key, x, encoded, tail);
      pending := tail;
      todo := todo[1..];
      j := j + 1;
    }
    if !encoded {
      CodeUniform(enc, order1, x, n, rest);
    } else {
      assert pending == rest;
    }
  }

  /** One turn of the outer loop of `encode`: the intervals coded for s[i]
      are the first of IvsFrom, and the tables are left updated by Update. */
  method EncodeSymbol(enc: ArithmeticEncoder, contexts: Tables, order1: seq<nat>, s: seq<nat>, K: nat, n: nat, i: nat)
    returns (contexts1: Tables)
    requires i < |s| && Symbols(s, n) && Over(contexts, n) && SuffixClosed(contexts) && order1 == Ones(n)
    requires enc.Valid() && enc.m == WordLength
    requires AllValid(WordLength, IvsFrom(s, K, n, i, contexts))
    modifies enc
    ensures contexts1 == Update(contexts, Keys(s, i, K), s[i], n)
    ensures enc.Valid() && AllValid(WordLength, IvsFrom(s, K, n, i + 1, contexts1))
    ensures enc.result + EncodeFrom(WordLength, enc.State(), IvsFrom(s, K, n, i + 1, contexts1))
         == old(enc.result) + EncodeFrom(WordLength, old(enc.State()), IvsFrom(s, K, n, i, contexts))
  {
    ghost var keys := Keys(s, i, K);
    KeysChain(s, i, K);
    EncodePassIsSpec(contexts, keys, s[i], n);
    MissingOnlyUncodedFrom(contexts, contexts, s, i, K, s[i], n, 0, false);
    ghost var rest := IvsFrom(s, K, n, i + 1, Update(contexts, keys, s[i], n));
    assert IvsFrom(s, K, n, i, contexts) == EncodePass(contexts, keys, s[i], n, false).0 + rest;
    contexts1 := EncodeContexts(enc, contexts, order1, s, K, n, i, rest);
  }

  /** The outer loop of `encode` (ppm.py:155-199), from the fresh tables:
      it codes exactly the intervals of the message, in order. */
  method EncodeMessage(enc: ArithmeticEncoder, order1: seq<nat>, s: seq<nat>, K: nat, n: nat)
    requires Symbols(s, n) && order1 == Ones(n) && AllValid(WordLength, Intervals(s, K, n))
    requires enc.Valid() && enc.m == WordLength
    modifies enc
    ensures enc.Valid()
    ensures enc.result + EncodeFrom(WordLength, enc.State(), [])
         == old(enc.result) + EncodeFrom(WordLength, old(enc.State()), Intervals(s, K, n))
  {
    var contexts: Tables := map[[] := Zeros(n)];
    assert contexts == Initial(n);
    var i := 0;
    while i < |s|
      invariant i <= |s| && Over(contexts, n) && SuffixClosed(contexts) && [] in contexts
      invariant enc.Valid() && enc.m == WordLength
      invariant AllValid(WordLength, IvsFrom(s, K, n, i, contexts))
      invariant enc.result + EncodeFrom(WordLength, enc.State(), IvsFrom(s, K, n, i, contexts))
             == old(enc.result) + EncodeFrom(WordLength, old(enc.State()), Intervals(s, K, n))
    {
      UpdateSuffixClosed(contexts, s, i, K, s[i], n);
      contexts := EncodeSymbol(enc, contexts, order1, s, K, n, i);
      i := i + 1;
    }
  }

  /** `encode(sequence, max_context_len, alphabet)`, the sequence given as
      alphabet indices: the bits of the arithmetic code of the PPM model.
      The sizes are bounded so that the float narrowing of the source is the
      integer narrowing of the model. */
  method Encode(s: seq<nat>, K: nat, n: nat) returns (r: seq<int>)
    requires Symbols(s, n) && FloatExact(WordLength, |s|) && FloatExact(WordLength, n)
    ensures (FloatExactSizes(s, n); r == PpmEncoded(s, K, n))
  {
    FloatExactSizes(s, n);
    IntervalsValid(s, K, n);
    var enc := new ArithmeticEncoder(WordLength);
    var order1 := OrderMinusOne(n);
    EncodeMessage(enc, order1, s, K, n);
    r := enc.Flush();
  }

  // ----- the decoder -----

  /** The last loop of `decode`: count the decoded symbol x in every context
      of position i, creating the missing ones. */
  method CountSymbol(contexts: Tables, n: nat, msg: seq<nat>, i: nat, K: nat, x: nat)
    returns (contexts1: Tables)
    requires i <= |msg| && Over(contexts, n) && x < n
    ensures contexts1 == Update(contexts, Keys(msg, i, K), x, n)
  {
    var k := Lowest(i, K);
    ghost var goal := Update(contexts, Keys(msg, i, K), x, n);
    ghost var todo := Keys(msg, i, K);
    contexts1 := contexts;
    var j := k;
    while j <= i
      invariant k <= j <= i + 1 && |todo| == i + 1 - j && Over(contexts1, n)
      invariant forall t :: 0 <= t < |todo| ==> todo[t] == msg[j + t..i]
      invariant Update(contexts1, todo, x, n) == goal
    {
      var key := msg[j..i];
      assert key == todo[0];
      UpdateStep(contexts1, todo, x, n);
      contexts1 := CountIn(contexts1, n, key, x);
      todo := todo[1..];
      j := j + 1;
    }
  }

  /** `decode_stream` then `decode_symbol(ctx, has_escape)` on the table of
      counts c: ok is false where `decode_stream` reads past the input (an
      IndexError in the source). */
  method DecodeNext(dec: ArithmeticDecoder, c: seq<nat>, hasEscape: bool, bits: seq<int>)
    returns (ok: bool, symbol: nat)
    requires dec.Valid() && dec.m == WordLength && IsBits(bits) && RangeMax(c, hasEscape) > 0
    modifies dec
    ensures dec.Valid()
    ensures (if ok then Some(Found(dec.State(), symbol)) else None) == TryDecode(WordLength, old(dec.State()), bits, c, hasEscape)
  {
    symbol := 0;
    ok := dec.DecodeStream(bits);
    if ok {
      symbol := dec.DecodeSymbol(c, hasEscape);
    }
  }

  /** The search loop of `decode` and its order -1 fallback, from the
      longest context of position |msg| on. */
  method Search(dec: ArithmeticDecoder, contexts: Tables, order1: seq<nat>, n: nat, bits: seq<int>, msg: seq<nat>, K: nat)
    returns (ok: bool, symbol: nat)
    requires dec.Valid() && dec.m == WordLength && IsBits(bits) && Over(contexts, n) && n > 0 && order1 == Ones(n)
    modifies dec
    ensures dec.Valid()
    ensures (if ok then Some(Found(dec.State(), symbol)) else None)
         == DecodeIn(WordLength, n, bits, old(dec.State()), contexts, Keys(msg, |msg|, K))
  {
    ok, symbol := false, 0;
    var i := |msg|;
    var k := Lowest(i, K);
    ghost var todo := Keys(msg, i, K);
    ghost var goal := DecodeIn(WordLength, n, bits, dec.State(), contexts, todo);
    var j := k;
    while j <= i
      invariant k <= j <= i + 1 && |todo| == i + 1 - j && dec.Valid()
      invariant forall t :: 0 <= t < |todo| ==> todo[t] == msg[j + t..i]
      invariant DecodeIn(WordLength, n, bits, dec.State(), contexts, todo) == goal
    {
      var key := msg[j..i];
      assert key == todo[0];
      DecodeInFirst(WordLength, n, bits, dec.State(), contexts, todo);
      if key in contexts && Sum(contexts[key]) > 0 {
        var popped;
        ok, popped := DecodeNext(dec, contexts[key], true, bits);
        if !ok {
          return;
        }
        if popped < n {
          symbol := popped;
          break;
        }
      }
      todo := todo[1..];
      j := j + 1;
    }
    if j == i + 1 {
      DecodeInLast(WordLength, n, bits, dec.State(), contexts);
      SumOnes(n);
      ok, symbol := DecodeNext(dec, order1, false, bits);
    }
  }

  /** The start of `decode`: the fresh decoder reads its tag, decodes the
      first symbol in the order -1 table, and the order 0 context counts it. */
  method DecodeFirst(dec: ArithmeticDecoder, order1: seq<nat>, n: nat, bits: seq<int>, K: nat, msgLen: nat)
    returns (symbol: nat, contexts: Tables)
    requires dec.Valid() && dec.m == WordLength && dec.l == 0 && dec.u == Pow2(WordLength) - 1
    requires IsBits(bits) && n > 0 && order1 == Ones(n)
    modifies dec
    ensures dec.Valid() && Over(contexts, n)
    ensures DecodeFrom(WordLength, n, K, bits, dec.State(), contexts, [symbol], msgLen) == PpmDecoded(bits, K, n, msgLen)
  {
    dec.Start(bits);
    PpmDecodedFirst(bits, K, n, msgLen);
    SumOnes(n);
    symbol := dec.DecodeSymbol(order1, false);
    var order0 := Zeros(n);
    order0 := Inc(order0, symbol);
    contexts := map[[] := order0];
  }

  /** One turn of the main loop of `decode`: the search for the next symbol
      and its counting under the contexts of its position. */
  method DecodeTurn(dec: ArithmeticDecoder, contexts: Tables, order1: seq<nat>, n: nat, bits: seq<int>,
                    msg: seq<nat>, K: nat, msgLen: nat)
    returns (ok: bool, symbol: nat, contexts1: Tables)
    requires dec.Valid() && dec.m == WordLength && IsBits(bits) && Over(contexts, n) && n > 0 && order1 == Ones(n)
    requires msg != [] && |msg| < msgLen
    modifies dec
    ensures dec.Valid() && Over(contexts1, n)
    ensures ok ==> DecodeFrom(WordLength, n, K, bits, dec.State(), contexts1, msg + [symbol], msgLen)
                   == DecodeFrom(WordLength, n, K, bits, old(dec.State()), contexts, msg, msgLen)
    ensures !ok ==> DecodeFrom(WordLength, n, K, bits, old(dec.State()), contexts, msg, msgLen) == None
  {
    DecodeLoopStep(WordLength, n, K, bits, dec.State(), contexts, msg, msgLen);
    ok, symbol := Search(dec, contexts, order1, n, bits, msg, K);
    contexts1 := contexts;
    if ok {
      contexts1 := CountSymbol(contexts, n, msg + [symbol], |msg|, K, symbol);
    }
  }

  /** `decode(sequence, max_context_len, alphabet, message_len)`, the result
      as alphabet indices; None where the source raises IndexError. */
  method Decode(bits: seq<int>, K: nat, n: nat, msgLen: nat) returns (r: Option<seq<nat>>)
    requires IsBits(bits) && n > 0 && FloatExact(WordLength, msgLen) && FloatExact(WordLength, n)
    ensures r == PpmDecoded(bits, K, n, msgLen)
  {
    var order1 := OrderMinusOne(n);
    var dec := new ArithmeticDecoder(WordLength);
    var symbol, contexts := DecodeFirst(dec, order1, n, bits, K, msgLen);
    var msg := [symbol];
    while |msg| < msgLen
      invariant 1 <= |msg| <= AtLeastOne(msgLen) && Over(contexts, n)
      invariant dec.Valid() && dec.m == WordLength
      invariant DecodeFrom(WordLength, n, K, bits, dec.State(), contexts, msg, msgLen) == PpmDecoded(bits, K, n, msgLen)
      decreases msgLen - |msg|
    {
      var ok;
      ok, symbol, contexts := DecodeTurn(dec, contexts, order1, n, bits, msg, K, msgLen);
      if !ok {
        return None;
      }
      msg := msg + [symbol];
    }
    r := Some(msg);
  }
}
