/** The LZ77 sliding-window coder (lz77.py): the encoder emits triples
    (offset, length, symbol), either a literal (0, 0, symbol) or the longest
    match among the S positions before the current one followed by the
    symbol after it; the decoder copies a match one symbol at a time, so a
    match may overlap the text it produces. */
module Lz77 {
  import opened Wrappers

  /** One output triple `(o, l, c)`. */
  datatype Triple = Triple(offset: int, length: int, symbol: char)

  /** Python's `result[k]` on a list: a negative k counts from the end, and
      an index outside the list is an IndexError. */
  function PyIndex(r: seq<char>, k: int): (x: Option<char>)
    ensures x.Some? <==> -|r| <= k < |r|
    ensures 0 <= k < |r| ==> x == Some(r[k])
  {
    if 0 <= k < |r| then Some(r[k])
    else if -|r| <= k < 0 then Some(r[|r| + k])
    else None
  }

  /** The copy loop of `decode` (lz77.py:43-46): l symbols appended one at a
      time, each read from index i of the growing list, i moving up by one. */
  function Copy(r: seq<char>, i: int, l: int): Option<seq<char>>
    decreases l
  {
    if l <= 0 then Some(r)
    else
      match PyIndex(r, i)
      case None => None
      case Some(x) => Copy(r + [x], i + 1, l - 1)
  }

  /** One turn of `decode` (lz77.py:37-47): a literal appends its symbol (and
      the `assert l == 0` fails on any other length); a match copies l
      symbols from o positions back, then appends its symbol. */
  function DecodeTriple(out: seq<char>, tr: Triple): Option<seq<char>>
  {
    if tr.offset == 0 then
      if tr.length == 0 then Some(out + [tr.symbol]) else None
    else
      match Copy(out, |out| - tr.offset, tr.length)
      case None => None
      case Some(r) => Some(r + [tr.symbol])
  }

  /** `decode(opcodes)`: the decoded text, or None where `decode` raises. */
  function Decoded(ops: seq<Triple>): Option<seq<char>>
  {
    if ops == [] then Some([])
    else
      match Decoded(ops[..|ops| - 1])
      case None => None
      case Some(out) => DecodeTriple(out, ops[|ops| - 1])
  }

  lemma DecodedSnoc(ops: seq<Triple>, tr: Triple)
    ensures Decoded(ops + [tr]) == if Decoded(ops).None? then None else DecodeTriple(Decoded(ops).value, tr)
  {
    assert (ops + [tr])[..|ops|] == ops;
  }

  /** Once decoding fails, it fails for every continuation. */
  lemma {:induction false} DecodedPrefixFails(ops: seq<Triple>, t: nat)
    requires t <= |ops| && Decoded(ops[..t]).None?
    ensures Decoded(ops).None?
  {
    if t < |ops| {
      var front := ops[..|ops| - 1];
      assert front[..t] == ops[..t];
      DecodedPrefixFails(front, t);
    } else {
      assert ops[..t] == ops;
    }
  }

  /** `decode(opcodes)` (lz77.py:34-49). */
  method Decode(opcodes: seq<Triple>) returns (r: Option<seq<char>>)
    ensures r == Decoded(opcodes)
  {
    var result: seq<char> := [];
    for t := 0 to |opcodes|
      invariant Decoded(opcodes[..t]) == Some(result)
    {
      var tr := opcodes[t];
      assert opcodes[..t + 1] == opcodes[..t] + [tr];
      DecodedSnoc(opcodes[..t], tr);
      if tr.offset == 0 {
        if tr.length != 0 {
          DecodedPrefixFails(opcodes, t + 1);
          return None;
        }
        result := result + [tr.symbol];
      } else {
        var ok;
        ok, result := CopyMatch(result, tr.offset, tr.length);
        if !ok {
          DecodedPrefixFails(opcodes, t + 1);
          return None;
        }
        result := result + [tr.symbol];
      }
    }
    assert opcodes[..|opcodes|] == opcodes;
    return Some(result);
  }

  /** The copy loop of `decode` (lz77.py:43-46); ok is false where it raises
      an IndexError. */
  method CopyMatch(result: seq<char>, o: int, l: int) returns (ok: bool, r: seq<char>)
    ensures ok <==> Copy(result, |result| - o, l).Some?
    ensures ok ==> Some(r) == Copy(result, |result| - o, l)
  {
    r := result;
    var i := |result| - o;
    var k := 0;
    while k < l
      invariant 0 <= k && (k <= l || k == 0)
      invariant Copy(result, |result| - o, l) == Copy(r, i, l - k)
      decreases l - k
    {
      if 0 <= i < |r| {
        r := r + [r[i]];
      } else if -|r| <= i < 0 {
        r := r + [r[|r| + i]];
      } else {
        return false, r;
      }
      i := i + 1;
      k := k + 1;
    }
    return true, r;
  }

  /** The window's positions j satisfy `max(0, i - S) <= j < i`. */
  function Low(i: nat, S: int): nat
  {
    if i - S < 0 then 0 else i - S
  }

  /** The l symbols from j agree with the l symbols from i, and a symbol
      follows the latter: the condition of the match loop (lz77.py:18). */
  predicate Matches(s: seq<char>, j: int, i: nat, l: nat)
  {
    0 <= j < i && i + l < |s| && s[j..j + l] == s[i..i + l]
  }

  /** A match extends by one exactly when the next symbols agree. */
  lemma MatchesNext(s: seq<char>, j: int, i: nat, l: nat)
    requires Matches(s, j, i, l) && i + l + 1 < |s|
    ensures Matches(s, j, i, l + 1) <==> s[j + l] == s[i + l]
  {
    assert s[j..j + l + 1] == s[j..j + l] + [s[j + l]];
    assert s[i..i + l + 1] == s[i..i + l] + [s[i + l]];
    if Matches(s, j, i, l + 1) {
      assert s[j..j + l + 1][l] == s[i..i + l + 1][l];
    }
  }

  /** Matches are closed under shortening. */
  lemma MatchesShorter(s: seq<char>, j: int, i: nat, l: nat, l': nat)
    requires l' <= l
    ensures Matches(s, j, i, l) ==> Matches(s, j, i, l')
  {
    if Matches(s, j, i, l) {
      assert s[j..j + l'] == s[j..j + l][..l'];
      assert s[i..i + l'] == s[i..i + l][..l'];
    }
  }

  /** bestLen and bestStart are the longest match in the window of
      position i, the earliest on ties; length 0 when there is none. */
  /** No position j with lo <= j < hi matches l symbols at i. */
  predicate NoMatch(s: seq<char>, lo: int, hi: int, i: nat, l: nat)
  {
    forall j :: lo <= j < hi ==> !Matches(s, j, i, l)
  }

  ghost predicate Longest(s: seq<char>, S: int, i: nat, bestLen: nat, bestStart: nat)
  {
    (bestLen > 0 ==> Low(i, S) <= bestStart && Matches(s, bestStart, i, bestLen)) &&
    NoMatch(s, Low(i, S), i, i, bestLen + 1) &&
    (bestLen > 0 ==> NoMatch(s, Low(i, S), bestStart, i, bestLen))
  }

  /** The match loop (lz77.py:16-19): the length of the longest match of the
      text at j with the text at i. */
  method MatchLength(s: seq<char>, j: nat, i: nat) returns (l: nat)
    requires j < i < |s|
    ensures Matches(s, j, i, l) && !Matches(s, j, i, l + 1)
  {
    l := 0;
    while i + l + 1 < |s| && s[j + l] == s[i + l]
      invariant Matches(s, j, i, l)
      decreases |s| - l
    {
      MatchesNext(s, j, i, l);
      l := l + 1;
    }
    if i + l + 1 < |s| {
      MatchesNext(s, j, i, l);
    }
  }

  /** The window loop (lz77.py:12-23): the strict comparison keeps the
      earliest of the longest matches. */
  method BestMatch(s: seq<char>, S: int, i: nat) returns (bestLen: nat, bestStart: nat)
    requires i < |s|
    ensures Longest(s, S, i, bestLen, bestStart)
  {
    var j := Low(i, S);
    bestLen, bestStart := 0, 0;
    while j < i
      invariant Low(i, S) <= j && (j <= i || j == Low(i, S))
      invariant bestLen > 0 ==> Low(i, S) <= bestStart < j && Matches(s, bestStart, i, bestLen)
      invariant NoMatch(s, Low(i, S), j, i, bestLen + 1)
      invariant bestLen > 0 ==> NoMatch(s, Low(i, S), bestStart, i, bestLen)
      decreases i - j
    {
      var l := MatchLength(s, j, i);
      if l > bestLen {
        ghost var longer := l + 1;
        forall j' | Low(i, S) <= j' < j ensures !Matches(s, j', i, longer) && !Matches(s, j', i, l) {
          MatchesShorter(s, j', i, longer, bestLen + 1);
          MatchesShorter(s, j', i, l, bestLen + 1);
        }
        bestLen, bestStart := l, j;
      } else {
        MatchesShorter(s, j, i, bestLen + 1, l + 1);
      }
      j := j + 1;
    }
  }

  /** The triple the encoder emits at position p: a literal when no position
      of the window matches, otherwise the longest match in the window (the
      earliest on ties), at an offset between 1 and S, with the symbol that
      follows it. */
  ghost predicate Chosen(s: seq<char>, S: int, p: int, tr: Triple)
  {
    0 <= p < |s| &&
    if tr.length == 0 then
      tr == Triple(0, 0, s[p]) && NoMatch(s, Low(p, S), p, p, 1)
    else
      tr.length > 0 && 1 <= tr.offset <= S && tr.offset <= p &&
      Matches(s, p - tr.offset, p, tr.length) && tr.symbol == s[p + tr.length] &&
      NoMatch(s, Low(p, S), p, p, tr.length + 1) &&
      NoMatch(s, Low(p, S), p - tr.offset, p, tr.length)
  }

  /** The number of symbols the triples stand for: each (o, l, c) stands
      for l + 1. */
  function Covered(ops: seq<Triple>): int
  {
    if ops == [] then 0 else Covered(ops[..|ops| - 1]) + ops[|ops| - 1].length + 1
  }

  /** Every triple is the one the encoder chooses at its position. */
  ghost predicate AllChosen(s: seq<char>, S: int, ops: seq<Triple>)
  {
    ops == [] ||
    (AllChosen(s, S, ops[..|ops| - 1]) && Chosen(s, S, Covered(ops[..|ops| - 1]), ops[|ops| - 1]))
  }

  /** The triple at index t is the one chosen at its position. */
  lemma {:induction false} ChosenAt(s: seq<char>, S: int, ops: seq<Triple>, t: nat)
    requires AllChosen(s, S, ops) && t < |ops|
    ensures Chosen(s, S, Covered(ops[..t]), ops[t])
  {
    if t < |ops| - 1 {
      var front := ops[..|ops| - 1];
      ChosenAt(s, S, front, t);
      assert front[..t] == ops[..t];
    }
  }

  /** The encoder's state before position i. */
  ghost predicate Encoded(s: seq<char>, S: int, i: nat, result: seq<Triple>)
  {
    1 <= i <= |s| && Covered(result) == i && Decoded(result) == Some(s[..i]) &&
    |result| > 0 && result[0] == Triple(0, 0, s[0]) && AllChosen(s, S, result)
  }

  /** `encode(sequence, S)` (lz77.py:1-32), for every window size S. The
      triples decode back to the input, stand for exactly its symbols, start
      with a literal of the first symbol, and each is the longest match in
      its window, earliest on ties, or a literal where nothing matches. */
  method Encode(sequence: seq<char>, S: int) returns (result: seq<Triple>)
    ensures Decoded(result) == Some(sequence)
    ensures Covered(result) == |sequence|
    ensures sequence == [] ==> result == []
    ensures sequence != [] ==> |result| > 0 && result[0] == Triple(0, 0, sequence[0])
    ensures AllChosen(sequence, S, result)
  {
    result := [];
    var N := |sequence|;
    if N == 0 {
      return;
    }
    result := result + [Triple(0, 0, sequence[0])];
    FirstTurn(sequence, S);
    var i := 1;
    while i < N
      invariant Encoded(sequence, S, i, result)
      decreases N - i
    {
      i, result := EncodeTurn(sequence, S, i, result);
    }
    EncodedDone(sequence, S, result);
  }

  /** One turn of the loop of `encode` (lz77.py:11-30): the best match in
      the window, then a literal where there is none, or the match and the
      symbol after it. */
  method EncodeTurn(sequence: seq<char>, S: int, i: nat, result: seq<Triple>) returns (i': nat, result': seq<Triple>)
    requires Encoded(sequence, S, i, result) && i < |sequence|
    ensures Encoded(sequence, S, i', result') && i < i'
  {
    var bestLen, bestStart := BestMatch(sequence, S, i);
    ChosenOfBest(sequence, S, i, bestLen, bestStart);
    if bestLen == 0 {
      Turn(sequence, S, i, result, Triple(0, 0, sequence[i]));
      return i + 1, result + [Triple(0, 0, sequence[i])];
    }
    var tr := Triple(i - bestStart, bestLen, sequence[i + bestLen]);
    Turn(sequence, S, i, result, tr);
    return i + bestLen + 1, result + [tr];
  }

  /** Having encoded all of s, the encoder's promises hold. */
  lemma EncodedDone(s: seq<char>, S: int, result: seq<Triple>)
    requires Encoded(s, S, |s|, result)
    ensures Decoded(result) == Some(s) && Covered(result) == |s|
    ensures result[0] == Triple(0, 0, s[0]) && AllChosen(s, S, result)
  {
    assert s[..|s|] == s;
  }

  /** The first literal starts the encoding. */
  lemma FirstTurn(s: seq<char>, S: int)
    requires s != []
    ensures Encoded(s, S, 1, [Triple(0, 0, s[0])])
  {
    var r := [Triple(0, 0, s[0])];
    assert r[..0] == [] && [] + r == r && s[..1] == [s[0]];
    DecodedSnoc([], Triple(0, 0, s[0]));
    assert [] + [s[0]] == s[..1];
  }

  /** A matched copy reproduces the text it matches, even where the match
      overlaps the symbols it produces. */
  lemma {:induction false} CopyMatches(s: seq<char>, j: nat, q: nat, l: nat)
    requires j < q && q + l <= |s|
    decreases l
    requires s[j..j + l] == s[q..q + l]
    ensures Copy(s[..q], j, l) == Some(s[..q + l])
  {
    if l > 0 {
      assert s[..q] + [s[q]] == s[..q + 1];
      assert s[j] == s[j..j + l][0] && s[q] == s[q..q + l][0];
      assert s[j + 1..j + l] == s[j..j + l][1..] && s[q + 1..q + l] == s[q..q + l][1..];
      CopyMatches(s, j + 1, q + 1, l - 1);
    }
  }

  /** The decoder's output after a triple the encoder chose at position p. */
  lemma DecodeChosen(s: seq<char>, S: int, p: nat, tr: Triple)
    requires Chosen(s, S, p, tr)
    ensures DecodeTriple(s[..p], tr) == Some(s[..p + tr.length + 1])
  {
    if tr.length == 0 {
      assert s[..p] + [s[p]] == s[..p + 1];
    } else {
      CopyMatches(s, p - tr.offset, p, tr.length);
      assert s[..p + tr.length] + [s[p + tr.length]] == s[..p + tr.length + 1];
    }
  }

  /** A triple chosen at the current position keeps the encoder's state. */
  lemma Turn(s: seq<char>, S: int, i: nat, result: seq<Triple>, tr: Triple)
    requires Encoded(s, S, i, result) && i < |s|
    requires Chosen(s, S, i, tr)
    ensures Encoded(s, S, i + tr.length + 1, result + [tr])
  {
    var r := result + [tr];
    assert r[..|result|] == result;
    DecodedSnoc(result, tr);
    DecodeChosen(s, S, i, tr);
  }

  /** The best match of BestMatch makes the triple the encoder chooses. */
  lemma ChosenOfBest(s: seq<char>, S: int, i: nat, bestLen: nat, bestStart: nat)
    requires i < |s| && Longest(s, S, i, bestLen, bestStart)
    ensures bestLen == 0 ==> Chosen(s, S, i, Triple(0, 0, s[i]))
    ensures bestLen > 0 ==> i + bestLen < |s| && Chosen(s, S, i, Triple(i - bestStart, bestLen, s[i + bestLen]))
  {
  }

  /** `decode(encode(t, S)) == t` (lz77.py:55-92). */
  method RoundTrip(t: seq<char>, S: int) returns (r: Option<seq<char>>)
    ensures r == Some(t)
  {
    var e := Encode(t, S);
    r := Decode(e);
  }

  /** The encoder's triples each stand for at least one symbol. */
  lemma {:induction false} CoveredAtLeast(s: seq<char>, S: int, ops: seq<Triple>)
    requires AllChosen(s, S, ops)
    ensures Covered(ops) >= |ops|
  {
    if ops != [] {
      CoveredAtLeast(s, S, ops[..|ops| - 1]);
    }
  }

  /** When the triples stand for exactly as many symbols as there are
      triples, all are literals: triple t sits at position t. */
  lemma {:induction false} AllLiterals(s: seq<char>, S: int, ops: seq<Triple>, t: nat)
    requires AllChosen(s, S, ops) && Covered(ops) == |ops| && t <= |ops|
    ensures Covered(ops[..t]) == t
    ensures t < |ops| ==> ops[t].length == 0
  {
    if t < |ops| {
      var front := ops[..|ops| - 1];
      CoveredAtLeast(s, S, front);
      assert front[..t] == ops[..t];
      if t < |front| {
        AllLiterals(s, S, front, t);
      } else {
        assert front[..t] == front;
      }
    } else {
      assert ops[..t] == ops;
    }
  }

  /** Where no position of any window matches even one symbol, the encoder
      emits only literals. */
  lemma {:induction false} OnlyLiterals(s: seq<char>, S: int, ops: seq<Triple>)
    requires AllChosen(s, S, ops)
    requires forall p :: 0 <= p < |s| ==> NoMatch(s, Low(p, S), p, p, 1)
    ensures Covered(ops) == |ops|
  {
    if ops != [] {
      var front, tr := ops[..|ops| - 1], ops[|ops| - 1];
      OnlyLiterals(s, S, front);
      var p := Covered(front);
      if tr.length > 0 {
        MatchesShorter(s, p - tr.offset, p, tr.length, 1);
      }
    }
  }

  const Alphabet: seq<char> := "abcdefghi"

  /** `'abcdefghi' * 3` (lz77.py:59). */
  const Book: seq<char> := Alphabet + Alphabet + Alphabet

  /** The letters of the alphabet are consecutive characters. */
  lemma AlphabetCodes(k: nat)
    requires k < 9
    ensures |Alphabet| == 9 && Alphabet[k] as int == 'a' as int + k
  {
  }

  /** The book repeats the alphabet. */
  lemma BookAt(k: nat)
    requires k < 27
    ensures |Book| == 27 && Book[k] as int == 'a' as int + k % 9
  {
    if k < 9 {
      AlphabetCodes(k);
    } else if k < 18 {
      AlphabetCodes(k - 9);
    } else {
      AlphabetCodes(k - 18);
    }
  }

  /** Symbols of the book fewer than 9 positions apart differ. */
  lemma BookSymbols(j: nat, p: nat)
    requires j < p < |Book| && p - j < 9
    ensures |Book| == 27 && Book[j] != Book[p]
  {
    BookAt(j);
    BookAt(p);
  }

  /** A window of 8 never reaches the previous copy of a symbol. */
  lemma BookWindowEight()
    ensures forall p :: 0 <= p < |Book| ==> NoMatch(Book, Low(p, 8), p, p, 1)
  {
    forall p, j | 0 <= p < |Book| && Low(p, 8) <= j < p ensures !Matches(Book, j, p, 1) {
      BookSymbols(j, p);
      assert Book[j..j + 1] == [Book[j]] && Book[p..p + 1] == [Book[p]];
    }
  }

  /** A window of 9 reaches the first symbol from position 9. */
  lemma BookWindowNine()
    ensures |Book| == 27 && Matches(Book, 0, 9, 1) && Low(9, 9) == 0
  {
    BookAt(0);
    BookAt(9);
    assert Book[0..1] == [Book[0]] && Book[9..10] == [Book[9]];
  }

  /** On `'abcdefghi' * 3` a window of 8 gives one triple per symbol
      (lz77.py:59-61). */
  method BookWindowEightCount() returns (n: nat)
    ensures n == |Book|
  {
    var e := Encode(Book, 8);
    BookWindowEight();
    OnlyLiterals(Book, 8, e);
    n := |e|;
  }

  /** On `'abcdefghi' * 3` a window of 9 gives fewer triples than symbols
      (lz77.py:62-63). */
  method BookWindowNineCount() returns (n: nat)
    ensures n < |Book|
  {
    var e := Encode(Book, 9);
    CoveredAtLeast(Book, 9, e);
    if Covered(e) == |e| {
      AllLiterals(Book, 9, e, 9);
      ChosenAt(Book, 9, e, 9);
      BookWindowNine();
      assert false;
    }
    n := |e|;
  }
}
