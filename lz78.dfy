/** The LZ78 dictionary coder (lz78.py): the encoder emits pairs
    (index, symbol), where index 0 stands for the empty phrase and index k
    for the k-th phrase of a dictionary that encoder and decoder grow in the
    same order. */
module Lz78 {
  import opened Wrappers

  /** One output pair `(index, symbol)`. */
  datatype Pair = Pair(index: int, symbol: char)

  /** The decoder's state: the text so far and its dictionary, entry k + 1
      being entries[k]. */
  datatype Decoding = Decoding(output: seq<char>, entries: seq<seq<char>>)

  /** One turn of the decoder's loop (lz78.py:35-42): a literal pair stands
      for its symbol, any other pair for the entry it names followed by its
      symbol; either way the phrase becomes the next entry. An index that
      names no entry is the KeyError of `d[index]`. */
  function DecodeStep(st: Decoding, p: Pair): (r: Option<Decoding>)
    ensures r.Some? <==> 0 <= p.index <= |st.entries|
    ensures r.Some? ==> |r.value.entries| == |st.entries| + 1 && st.entries <= r.value.entries
    ensures r.Some? ==> r.value.output == st.output + r.value.entries[|st.entries|]
    ensures r.Some? && p.index == 0 ==> r.value.entries[|st.entries|] == [p.symbol]
  {
    if p.index == 0 then
      Some(Decoding(st.output + [p.symbol], st.entries + [[p.symbol]]))
    else if 1 <= p.index <= |st.entries| then
      var phrase := st.entries[p.index - 1] + [p.symbol];
      Some(Decoding(st.output + phrase, st.entries + [phrase]))
    else
      None
  }

  /** The decoder's state after the pairs e. */
  function DecodeAll(e: seq<Pair>): (r: Option<Decoding>)
    ensures r.Some? ==> |r.value.entries| == |e|
  {
    if e == [] then Some(Decoding([], []))
    else
      match DecodeAll(e[..|e| - 1])
      case None => None
      case Some(st) => DecodeStep(st, e[|e| - 1])
  }

  /** `decode(e)`: the decoded text, or None where `decode` raises. */
  function Decoded(e: seq<Pair>): Option<seq<char>>
  {
    match DecodeAll(e)
    case None => None
    case Some(st) => Some(st.output)
  }

  lemma DecodeAllSnoc(e: seq<Pair>, p: Pair)
    ensures DecodeAll(e + [p]) == if DecodeAll(e).None? then None else DecodeStep(DecodeAll(e).value, p)
  {
    assert (e + [p])[..|e|] == e;
  }

  /** The concatenation of the phrases ps. */
  function Concat(ps: seq<seq<char>>): seq<char>
  {
    if ps == [] then [] else Concat(ps[..|ps| - 1]) + ps[|ps| - 1]
  }

  /** The decoded text is the concatenation of the dictionary's entries, one
      per pair: the phrases follow one another without gap or overlap, and
      their lengths add up to the length of the text. */
  lemma {:induction false} DecodedIsConcat(e: seq<Pair>)
    requires DecodeAll(e).Some?
    ensures DecodeAll(e).value.output == Concat(DecodeAll(e).value.entries)
  {
    if e != [] {
      var front := e[..|e| - 1];
      DecodedIsConcat(front);
      var st, st' := DecodeAll(front).value, DecodeAll(e).value;
      assert st'.entries[..|st.entries|] == st.entries;
    }
  }

  /** Each pair names only entries created by earlier pairs: decoding
      succeeds exactly when every index lies between 0 and the pair's own
      position. */
  lemma {:induction false} DecodeAllDefined(e: seq<Pair>)
    ensures DecodeAll(e).Some? <==> forall t :: 0 <= t < |e| ==> 0 <= e[t].index <= t
  {
    if e != [] {
      var front := e[..|e| - 1];
      DecodeAllDefined(front);
    }
  }

  /** `decode(e)` (lz78.py:31-44). */
  method Decode(e: seq<Pair>) returns (r: Option<seq<char>>)
    ensures r == Decoded(e)
  {
    var d: map<int, seq<char>> := map[];
    var result: seq<char> := [];
    ghost var entries: seq<seq<char>> := [];
    for t := 0 to |e|
      invariant DecodeAll(e[..t]) == Some(Decoding(result, entries))
      invariant forall k :: k in d <==> 1 <= k <= |entries|
      invariant forall k :: 1 <= k <= |entries| ==> d[k] == entries[k - 1]
      invariant |d| == |entries|
    {
      var p := e[t];
      assert e[..t + 1] == e[..t] + [p];
      DecodeAllSnoc(e[..t], p);
      if p.index == 0 {
        result := result + [p.symbol];
        d := d[|d| + 1 := [p.symbol]];
        entries := entries + [[p.symbol]];
      } else if p.index in d {
        var phrase := d[p.index] + [p.symbol];
        result := result + phrase;
        d := d[|d| + 1 := phrase];
        entries := entries + [phrase];
      } else {
        DecodeAllDefined(e);
        return None;
      }
    }
    assert e[..|e|] == e;
    return Some(result);
  }

  /** The encoder's dictionary numbers the phrases entries consecutively from 1
      in the order of their creation. */
  ghost predicate Numbers(d: map<seq<char>, int>, entries: seq<seq<char>>)
  {
    (forall p :: p in d <==> p in entries) &&
    (forall k :: 0 <= k < |entries| ==> d[entries[k]] == k + 1)
  }

  /** Every pair names the empty phrase or an entry of an earlier pair. */
  predicate Earlier(e: seq<Pair>)
  {
    forall t :: 0 <= t < |e| ==> 0 <= e[t].index <= t
  }

  /** The encoder's state before position i: the pairs so far decode to
      s[..i], and its dictionary numbers exactly the decoder's entries. */
  ghost predicate Encoded(s: seq<char>, i: nat, result: seq<Pair>, d: map<seq<char>, int>, entries: seq<seq<char>>)
  {
    i <= |s| && DecodeAll(result) == Some(Decoding(s[..i], entries)) &&
    Numbers(d, entries) && |d| == |entries| && Earlier(result)
  }

  /** The encoder's final state: the pairs decode to s, and the encoder's
      entries are the decoder's, except possibly the one the decoder adds for
      the final pair. */
  ghost predicate Done(s: seq<char>, result: seq<Pair>, d: map<seq<char>, int>, entries: seq<seq<char>>)
  {
    DecodeAll(result).Some? && DecodeAll(result).value.output == s && Earlier(result) &&
    Numbers(d, entries) && entries <= DecodeAll(result).value.entries && |result| <= |entries| + 1
  }

  /** `encode(sequence)` (lz78.py:1-29). The text decodes back to the input;
      each pair names an entry of an earlier pair; and the encoder's
      dictionary, numbered consecutively from 1, holds the decoder's entries
      except possibly the one the decoder adds for the final pair. */
  method Encode(sequence: seq<char>) returns (result: seq<Pair>, ghost dict: map<seq<char>, int>, ghost entries: seq<seq<char>>)
    ensures Decoded(result) == Some(sequence)
    ensures forall t :: 0 <= t < |result| ==> 0 <= result[t].index <= t
    ensures Numbers(dict, entries)
    ensures DecodeAll(result).Some?
    ensures entries <= DecodeAll(result).value.entries && |result| <= |entries| + 1
  {
    var d: map<seq<char>, int> := map[];
    result := [];
    entries := [];
    var i := 0;
    if |sequence| == 0 {
      EncodedDone(sequence, result, d, entries);
    }
    while i < |sequence|
      invariant Reached(sequence, i, result, d, entries)
      decreases |sequence| - i
    {
      i, result, d, entries := EncodeTurn(sequence, i, result, d, entries);
    }
    dict := d;
  }

  /** The encoder's state after a turn that reached position i: still
      encoding, or done at the end of the text. */
  ghost predicate Reached(s: seq<char>, i: nat, result: seq<Pair>, d: map<seq<char>, int>, entries: seq<seq<char>>)
  {
    i <= |s| && (i < |s| ==> Encoded(s, i, result, d, entries)) && (i == |s| ==> Done(s, result, d, entries))
  }

  /** What one turn of the loop of `encode` (lz78.py:8-27) does from position
      i: the final symbol goes out as a literal and ends the loop; a symbol
      not yet in the dictionary goes out as a literal and becomes an entry;
      otherwise the longest known phrase s[i..i' - 1] that leaves a symbol to
      follow it goes out with that symbol, and the extended phrase becomes an
      entry unless it ends the text. */
  ghost predicate Turn(s: seq<char>, i: nat, result: seq<Pair>, d: map<seq<char>, int>, entries: seq<seq<char>>,
                       i': nat, result': seq<Pair>, d': map<seq<char>, int>, entries': seq<seq<char>>)
    requires i < |s|
  {
    if i + 1 == |s| then
      i' == |s| && result' == result + [Pair(0, s[i])] && d' == d && entries' == entries
    else if [s[i]] !in d then
      && i' == i + 1 && result' == result + [Pair(0, s[i])]
      && d' == d[[s[i]] := |d| + 1] && entries' == entries + [[s[i]]]
    else
      && i + 2 <= i' <= |s| && s[i..i' - 1] in d && (i' < |s| ==> s[i..i'] !in d)
      && result' == result + [Pair(d[s[i..i' - 1]], s[i' - 1])]
      && (if i' < |s| then d' == d[s[i..i'] := |d| + 1] && entries' == entries + [s[i..i']]
          else d' == d && entries' == entries)
  }

  /** One turn of the loop of `encode` (lz78.py:8-27) from position i; the
      final symbol ends the loop (the `break` at lz78.py:10). */
  method EncodeTurn(sequence: seq<char>, i: nat, result: seq<Pair>, d: map<seq<char>, int>, ghost entries: seq<seq<char>>)
    returns (i': nat, result': seq<Pair>, d': map<seq<char>, int>, ghost entries': seq<seq<char>>)
    requires i < |sequence| && Encoded(sequence, i, result, d, entries)
    ensures Turn(sequence, i, result, d, entries, i', result', d', entries')
    ensures i < i' && Reached(sequence, i', result', d', entries')
  {
    var n := |sequence|;
    if i + 1 == n {
      // the final symbol goes out as a literal
      i', result', d', entries' := n, result + [Pair(0, sequence[i])], d, entries;
    } else if [sequence[i]] !in d {
      i', result' := i + 1, result + [Pair(0, sequence[i])];
      d', entries' := d[[sequence[i]] := |d| + 1], entries + [[sequence[i]]];
    } else {
      assert sequence[i..i + 1] == [sequence[i]];
      var j := LongestPhrase(sequence, i, d);
      result' := result + [Pair(d[sequence[i..j]], sequence[j])];
      d', entries' := d, entries;
      if j + 1 < n && sequence[i..j + 1] !in d {
        d' := d[sequence[i..j + 1] := |d| + 1];
        entries' := entries + [sequence[i..j + 1]];
      }
      i' := j + 1;
    }
    TurnReaches(sequence, i, result, d, entries, i', result', d', entries');
  }

  /** Every turn keeps the encoder's invariant, or completes the encoding. */
  lemma TurnReaches(s: seq<char>, i: nat, result: seq<Pair>, d: map<seq<char>, int>, entries: seq<seq<char>>,
                    i': nat, result': seq<Pair>, d': map<seq<char>, int>, entries': seq<seq<char>>)
    requires i < |s| && Encoded(s, i, result, d, entries)
    requires Turn(s, i, result, d, entries, i', result', d', entries')
    ensures i < i' && Reached(s, i', result', d', entries')
  {
    if i + 1 == |s| {
      FinalLiteralTurn(s, i, result, d, entries, result');
    } else if [s[i]] !in d {
      LiteralTurn(s, i, result, d, entries, result', d', entries');
    } else {
      PhraseTurn(s, i, i' - 1, result, d, entries, result', d', entries');
    }
  }

  /** Having encoded all of s, the encoder is done. */
  lemma EncodedDone(s: seq<char>, result: seq<Pair>, d: map<seq<char>, int>, entries: seq<seq<char>>)
    requires Encoded(s, |s|, result, d, entries)
    ensures Done(s, result, d, entries)
  {
    assert s[..|s|] == s;
  }

  /** The final symbol as a literal pair completes the encoding. */
  lemma FinalLiteralTurn(s: seq<char>, i: nat, result: seq<Pair>, d: map<seq<char>, int>, entries: seq<seq<char>>, result': seq<Pair>)
    requires Encoded(s, i, result, d, entries) && i + 1 == |s|
    requires result' == result + [Pair(0, s[i])]
    ensures Reached(s, i + 1, result', d, entries)
  {
    EmitLiteral(result, s[i]);
    PrefixSnoc(s, i);
    assert s[..i + 1] == s;
  }

  /** A symbol not yet in the dictionary goes out as a literal pair and
      becomes the next entry. */
  lemma LiteralTurn(s: seq<char>, i: nat, result: seq<Pair>, d: map<seq<char>, int>, entries: seq<seq<char>>,
                    result': seq<Pair>, d': map<seq<char>, int>, entries': seq<seq<char>>)
    requires Encoded(s, i, result, d, entries) && i + 1 < |s| && [s[i]] !in d
    requires result' == result + [Pair(0, s[i])]
    requires d' == d[[s[i]] := |d| + 1] && entries' == entries + [[s[i]]]
    ensures Reached(s, i + 1, result', d', entries')
  {
    EmitLiteral(result, s[i]);
    NumbersGrow(d, entries, [s[i]]);
    PrefixSnoc(s, i);
  }

  /** The longest known phrase s[i..j] goes out with its next symbol s[j];
      the extended phrase becomes the next entry unless it ends the text. */
  lemma PhraseTurn(s: seq<char>, i: nat, j: nat, result: seq<Pair>, d: map<seq<char>, int>, entries: seq<seq<char>>,
                   result': seq<Pair>, d': map<seq<char>, int>, entries': seq<seq<char>>)
    requires Encoded(s, i, result, d, entries)
    requires i + 1 <= j < |s| && s[i..j] in d && (j + 1 < |s| ==> s[i..j + 1] !in d)
    requires result' == result + [Pair(d[s[i..j]], s[j])]
    requires j + 1 < |s| ==> d' == d[s[i..j + 1] := |d| + 1] && entries' == entries + [s[i..j + 1]]
    requires j + 1 == |s| ==> d' == d && entries' == entries
    ensures Reached(s, j + 1, result', d', entries')
  {
    EmitPhrase(result, d, entries, s[i..j], s[j]);
    SliceSnoc(s, i, j);
    if j + 1 < |s| {
      NumbersGrow(d, entries, s[i..j + 1]);
    } else {
      assert s[..j + 1] == s;
    }
  }

  /** The inner loop of `encode` (lz78.py:18-20): from a known one-symbol
      phrase at i, extend the phrase while its extension is known and leaves
      a symbol to follow it. */
  method LongestPhrase(sequence: seq<char>, i: nat, d: map<seq<char>, int>) returns (j: nat)
    requires i + 1 < |sequence| && sequence[i..i + 1] in d
    ensures i + 1 <= j < |sequence| && sequence[i..j] in d
    ensures j + 1 < |sequence| ==> sequence[i..j + 1] !in d
  {
    j := i + 1;
    while j + 1 < |sequence| && sequence[i..j + 1] in d
      invariant i + 1 <= j < |sequence| && sequence[i..j] in d
      decreases |sequence| - j
    {
      j := j + 1;
    }
  }

  lemma PrefixSnoc(s: seq<char>, i: nat)
    requires i < |s|
    ensures s[..i] + [s[i]] == s[..i + 1]
  {
  }

  lemma SliceSnoc(s: seq<char>, i: nat, j: nat)
    requires i <= j < |s|
    ensures s[..i] + (s[i..j] + [s[j]]) == s[..j + 1]
    ensures s[i..j + 1] == s[i..j] + [s[j]]
  {
  }

  /** A literal pair decodes to its symbol and adds it as the next entry. */
  lemma EmitLiteral(e: seq<Pair>, c: char)
    requires DecodeAll(e).Some?
    ensures DecodeAll(e + [Pair(0, c)]) == Some(Decoding(DecodeAll(e).value.output + [c], DecodeAll(e).value.entries + [[c]]))
  {
    DecodeAllSnoc(e, Pair(0, c));
  }

  /** A pair naming the encoder's entry for phrase decodes to phrase followed
      by its symbol, and that is the decoder's next entry. */
  lemma EmitPhrase(e: seq<Pair>, d: map<seq<char>, int>, entries: seq<seq<char>>, phrase: seq<char>, c: char)
    requires DecodeAll(e).Some? && entries == DecodeAll(e).value.entries
    requires Numbers(d, entries) && phrase in d
    ensures 1 <= d[phrase] <= |e|
    ensures DecodeAll(e + [Pair(d[phrase], c)]) == Some(Decoding(DecodeAll(e).value.output + (phrase + [c]), entries + [phrase + [c]]))
  {
    var k :| 0 <= k < |entries| && entries[k] == phrase;
    DecodeAllSnoc(e, Pair(d[phrase], c));
  }

  /** A new phrase extends the dictionary's numbering by one. */
  lemma NumbersGrow(d: map<seq<char>, int>, entries: seq<seq<char>>, phrase: seq<char>)
    requires Numbers(d, entries) && phrase !in d
    ensures Numbers(d[phrase := |entries| + 1], entries + [phrase])
  {
  }

  /** `decode(encode(s)) == s` (lz78.py:49-59). */
  method RoundTrip(s: seq<char>) returns (r: Option<seq<char>>)
    ensures r == Some(s)
  {
    var e, d, entries := Encode(s);
    r := Decode(e);
  }
}
