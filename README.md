# Reference compressors, modelled in Dafny

This project models the five reference compressors of the repository:

- **Static arithmetic coder** (`artihmetic.py`).
  - It has the m-bit integer coder with E1/E2/E3 renormalisation.
  - The decoder mirrors it with a tag `t`.
- **PPM compressor** (`ppm.py`).
  - Each context of up to K symbols has a sparse cumulative count table, `CountArraySparse`.
  - A symbol is coded in the longest context that knows it, after escapes.
  - The fallback is a uniform order -1 table.
  - The coding is done by the classes `ArithmeticEncoder` and `ArithmeticDecoder`.
- **Huffman coder** (`huffman.py`).
- **LZ77 sliding-window coder** (`lz77.py`).
- **LZ78 dictionary coder** (`lz78.py`).
- **Symbol counter** `build_frequency` (`utils.py`).

The project is organised in modules:

- **`ArithCoder`**: the shared coder as pure functions.
  - Narrowing, renormalisation, flush.
  - Everything the encoder writes from a state (`EncodeFrom`).
  - The decoder's narrowing and its renormalisation loop (`DecRenorm`).
- **`CoderLoops`**: the loops of the coder as methods, each proved equal to those functions.
- **`CoderTheory`**: the argument that the decoder tracks the encoder.
  - It reads the encoder's remaining output as a binary fraction.
  - The decoder's tag plus its unread bits equals that value (`Sync`).
- **`StaticArithmetic`**: `artihmetic.py`.
- **`CountTable`**: the class `CountArraySparse`.
  - It keeps arrays `cumCounts` and `prev` and the field `last`.
  - It is proved against plain count lists.
- **`PpmCoder`**: the two coder classes of `ppm.py`.
- **`PpmModel`**: PPM `encode` and `decode` as functions over a map from contexts to count lists, together with the round trip.
- **`Ppm`**: the loops of PPM `encode` and `decode`, proved against `PpmModel`.
- **`Huffman`**, **`Lz77`**, **`Lz78`**, **`Frequency`**.
- Test vectors of the source live in `CountTableExamples`, `StaticArithmeticExamples` and `HuffmanExamples`, and at the end of `Lz77` and `Frequency`.

The main results are decoding after encoding, for every input each coder accepts:

- `StaticArithmetic.SeriesRoundTrip`
- `PpmModel.PpmRoundTrip`, with `Ppm.Encode` and `Ppm.Decode`
- `Huffman.RoundTrip`
- `Lz77.RoundTrip` and `Lz78.RoundTrip`, for every window size in LZ77's case.

A note on empty input. Both arithmetic decoders decode one symbol before they test the requested length (`artihmetic.py:95-98`, `ppm.py:313-320`). So a request for 0 symbols returns one symbol, not an empty list. The model follows the code:

- `StaticArithmetic.DecodedLength` states length 1 for `dec_len == 0`.
- `PpmModel.PpmDecodedLength` does the same through `AtLeastOne`.
- The round-trip lemmas are stated for non-empty messages.

## Model

| member | source | states |
|---|---|---|
| Bits.MsbIsUpperHalf | ppm.py:62-66 | `msb(v, m)` is 1 exactly when v lies in the upper half of the m-bit range |
| Bits.GetBitByQuarter | artihmetic.py:33 | bit m-2 of an m-bit value is 0 in the first and third quarters and 1 in the second and fourth |
| Bits.BitsToIntRange | artihmetic.py:85 | folding k bits MSB-first gives a value in [0, 2^k) |
| Bits.FloatExactBound | artihmetic.py:27-28 | when 2^m * range_max stays below 2^53, the range is below 2^k for any k with m + k >= 53 |
| ArithCoder.Classify | artihmetic.py:33-35 | E1/E2 holds iff l and u lie in one half; E3 holds iff l is in the second quarter and u in the third; the two never hold together |
| ArithCoder.InitIsSettled | artihmetic.py:14-17 | the initial interval [0, 2^m - 1] needs no renormalisation |
| ArithCoder.SettledIsWide | artihmetic.py:35-53 | when the renormalisation loop stops, l is below the half and u above it, and the interval is wider than a quarter |
| ArithCoder.NarrowInside | artihmetic.py:27-28 | the narrowed interval lies inside [l, u] and is non-empty whenever the interval is at least range_max wide |
| ArithCoder.Narrow | artihmetic.py:27-31 | narrowing a settled interval for a valid range gives a sub-interval of it and keeps scale3 |
| ArithCoder.ShiftOut | artihmetic.py:36-44 | the E1/E2 step maps l to 2l - top and u to 2u + 1 - top, where top is the dropped common top bit, and resets scale3 |
| ArithCoder.ShiftOutBits | artihmetic.py:37-44 | the E1/E2 step writes 1 + scale3 bits: the common top bit, then its complement scale3 times |
| ArithCoder.Straddle | artihmetic.py:45-51 | the E3 step maps l to 2l - half and u to 2u + 1 - half, and adds one deferred bit |
| ArithCoder.Renorm | artihmetic.py:33-53 | the renormalisation loop ends in a settled state and writes only bits |
| ArithCoder.ShiftBits | artihmetic.py:63-66 | the tag loop writes exactly n bits |
| ArithCoder.Flush | artihmetic.py:55-66 | the flush writes m + scale3 bits |
| ArithCoder.EncodeFrom | artihmetic.py:26-66 | everything the encoder writes from a state is a bit list |
| ArithCoder.FromLength | artihmetic.py:26-66 | the remaining output holds at least the m + scale3 flushed bits, and one more when a renormalisation step is pending |
| ArithCoder.Encode | artihmetic.py:11-68 | the output for any valid interval list is a bit list of at least m bits |
| ArithCoder.RenormFrom | artihmetic.py:35-53 | the bits of the renormalisation loop are the front of the remaining output |
| ArithCoder.CodeInterval | artihmetic.py:27-53 | coding one interval from a settled state ends settled |
| ArithCoder.NarrowFrom | artihmetic.py:26-53 | from a settled state the output is the first interval's bits followed by the output for the others |
| ArithCoder.CodeStep | artihmetic.py:26-53 | coding the next interval after the bits already written preserves "written + what remains = whole output" |
| ArithCoder.FlushInit | artihmetic.py:55-66 | flushing the initial state writes m zeros |
| ArithCoder.EncodeEmpty | artihmetic.py:11-68 | encoding an empty sequence writes m zeros |
| ArithCoder.Start | artihmetic.py:85-86 | the decoder starts with the full interval and its tag inside it, with the cursor at m |
| ArithCoder.Target | artihmetic.py:90 | the decoder's C lies in [0, range_max) |
| ArithCoder.TargetSelects | artihmetic.py:88-93 | the tag lies in the sub-interval the encoder picks for [lo, hi) iff lo <= C < hi, in both directions |
| ArithCoder.NarrowDec | artihmetic.py:100-104 | narrowing to the range that holds C keeps the tag inside the interval |
| ArithCoder.DecStep | artihmetic.py:109-131 | one decoder step moves l and u as the encoder does, shifts the same way into t with the next input bit appended, and keeps t inside |
| ArithCoder.DecRenorm | artihmetic.py:106-133 | the decoder loop reads past the input only as a failure (None); otherwise it ends settled or stops right after the last bit |
| CoderLoops.NarrowAndRenormalise | artihmetic.py:27-53 | the narrowing and renormalisation code computes CodeInterval's state and bits |
| CoderLoops.Renormalise | artihmetic.py:33-53 | the loop computes Renorm |
| CoderLoops.ShiftOutStep | artihmetic.py:36-44 | one E1/E2 turn writes ShiftOutBits and leaves the rest of Renorm unchanged |
| CoderLoops.AppendDeferred | artihmetic.py:42-44 | the deferred-bit loop appends scale3 copies of the complemented bit |
| CoderLoops.FlushTag | artihmetic.py:55-66 | the flush loops compute Flush |
| CoderLoops.DecRenormalise | artihmetic.py:106-133 | the decoder loop computes DecRenorm, failing exactly when it reads past the input |
| CoderLoops.ShiftOutDec | artihmetic.py:110-118 | the decoder's E1/E2 turn shifts l, u and t and appends the input bit |
| CoderLoops.StraddleDec | artihmetic.py:120-131 | the decoder's E3 turn shifts l, u and t about the middle half and appends the input bit |
| CoderTheory.DeferredBits | artihmetic.py:37-44 | a bit b followed by k complements of b has the value of b alone at the half scale, with the rest halved |
| CoderTheory.ShiftBitsValue | artihmetic.py:63-66 | the tag bits, read as a fraction, give back the value they were shifted out of |
| CoderTheory.FlushValue | artihmetic.py:55-66 | the flushed bits, read with the deferred ones, have exactly the value l |
| CoderTheory.Bracket | artihmetic.py:11-68 | the value of everything the encoder still writes from state [l, u] lies in [l, u + 1) |
| CoderTheory.PrefixValue | artihmetic.py:85 | a bit list read as a number splits into its first n bits as an integer plus the rest as a fraction |
| CoderTheory.TagInside | artihmetic.py:85-93 | a tag that is the integer part of the remaining output's value lies in [l, u] |
| CoderTheory.SyncStart | artihmetic.py:85-86 | after `start`, the decoder is in step with the encoder's initial state |
| CoderTheory.SyncNarrow | artihmetic.py:88-104 | in step, C falls in the next coded interval, and both sides narrow to it and stay in step |
| CoderTheory.StepSyncShiftOut | artihmetic.py:109-118 | an E1/E2 step on both sides keeps them in step |
| CoderTheory.StepSyncStraddle | artihmetic.py:120-131 | an E3 step on both sides keeps them in step |
| CoderTheory.StepSync | artihmetic.py:106-133 | any pending renormalisation step has an input bit to read and keeps both sides in step |
| CoderTheory.SyncRenorm | artihmetic.py:106-133 | the decoder loop never fails when in step, and it ends in step with the encoder's renormalised state |
| StaticArithmetic.CumCounts | artihmetic.py:5-6 | the cumulative list starts at 0, and each entry adds the next count |
| StaticArithmetic.CumCountsValid | artihmetic.py:5-6 | the cumulative list of counts starts at 0 and never decreases |
| StaticArithmetic.CumCountsMonotone | artihmetic.py:5-6 | entries of the cumulative list grow with the index |
| StaticArithmetic.BitLengthBounds | artihmetic.py:9 | `bit_length(n)` is the number of binary digits: 2^(len-1) <= n < 2^len |
| StaticArithmetic.MinWordLenFits | artihmetic.py:8-9 | the word length is at least 3, and the total fits below a quarter of the range, tightly |
| StaticArithmetic.MinWordLenExample | artihmetic.py:145 | `get_min_word_len([40, 1, 9]) == 8` |
| StaticArithmetic.BookCounts | artihmetic.py:148-149 | `get_cum_count([40, 1, 9]) == [0, 40, 41, 50]` |
| StaticArithmetic.Ivs | artihmetic.py:27-28 | each symbol x is coded as [cum[x], cum[x+1]) out of the total |
| StaticArithmetic.IvsValid | artihmetic.py:27-28 | the intervals of coded symbols are valid for the coder when the total is at most 2^(m-2) |
| StaticArithmetic.Encode | artihmetic.py:11-68 | `encode` writes exactly ArithCoder.Encode of the symbols' intervals, for a total whose float narrowing is exact (2^m * total < 2^53) |
| StaticArithmetic.FindSymbol | artihmetic.py:88-93 | the search stops at the first symbol whose upper cumulative bound exceeds C |
| StaticArithmetic.FindSymbolIs | artihmetic.py:88-93 | a C inside [cum[x], cum[x+1]) finds exactly x |
| StaticArithmetic.DecodeSymbol | artihmetic.py:88-93 | `decode_symbol` returns FindSymbol of C |
| StaticArithmetic.DecodeNext | artihmetic.py:98-136 | one turn of the decode loop narrows, renormalises (failing only past the input) and decodes the next symbol |
| StaticArithmetic.Decode | artihmetic.py:70-138 | `decode` computes Decoded, or None where the source raises IndexError, for a total whose float narrowing is exact (2^m * total < 2^53) |
| StaticArithmetic.DecodeFrom | artihmetic.py:95-138 | decoding extends the symbols already decoded |
| StaticArithmetic.DecodeFromLength | artihmetic.py:98-136 | decoding stops at dec_len symbols, or after one more symbol when at least that many are out already |
| StaticArithmetic.DecodedLength | artihmetic.py:95-98 | a successful decode has dec_len symbols, and 1 symbol when dec_len is 0 |
| StaticArithmetic.DecodeFromTracks | artihmetic.py:98-136 | a decoder in step with the encoder decodes the remaining symbols exactly |
| StaticArithmetic.RoundTrip | artihmetic.py:156-164 | decoding the encoding of a non-empty list of codable symbols gives the list back, for any m with total <= 2^(m-2) |
| StaticArithmetic.SeriesRoundTrip | artihmetic.py:156-164 | with `get_cum_count` and `get_min_word_len`, every non-empty list of positive-count symbols round-trips |
| StaticArithmetic.BookExample | artihmetic.py:147-153 | counts [40, 1, 9] give m = 8, and [0, 2, 1, 0] round-trips |
| StaticArithmeticExamples.FlushFromZero | artihmetic.py:55-66 | flushing l = 0 writes 0, scale3 ones, then m - 1 zeros |
| StaticArithmeticExamples.BookIntervals | artihmetic.py:148-149 | the book symbols [0, 2, 1, 0] are coded as the intervals [0,40), [41,50), [40,41), [0,40) out of 50 |
| StaticArithmeticExamples.BookBits | artihmetic.py:147-150 | those intervals encode to `[1,1,0,0,0,1,0,0,1,0,0,0,0,0,0,0]` with m = 8 |
| StaticArithmeticExamples.Book | artihmetic.py:147-153 | `encode` gives the book's 16 bits, and `decode` of them with length 4 gives [0, 2, 1, 0] |
| CountTable.PrevActive | ppm.py:43-44 | the predecessor link of x is the nearest active symbol below it, or -1 |
| CountTable.LastActive | ppm.py:7 | `last` is the largest active symbol, or -1 |
| CountTable.CumCountMono | ppm.py:52-53 | cumulative counts never decrease along the symbols |
| CountTable.CumCountPrev | ppm.py:47-50 | the cumulative count of x minus that of its predecessor is the count of x |
| CountTable.TotalIsCumCountOfLast | ppm.py:55-58 | the total count is the cumulative count of the largest active symbol |
| CountTable.CumCountInc | ppm.py:15-44 | an increment of x adds 1 to the cumulative count of x and of every symbol above it, and to no other |
| CountTable.PrevActiveInc | ppm.py:40-44 | an increment of a new x splices it into the predecessor chain and changes nothing else |
| CountTable.SumInc | ppm.py:15-44 | each increment adds exactly 1 to the total |
| CountTable.IncAllCount | ppm.py:15-44 | after a run of increments each count has grown by its number of occurrences |
| CountTable.IncAllCumCount | ppm.py:15-44 | after a run of increments each cumulative count has grown by the number of increments at or below it |
| CountTable.IncAllMultiplicity | ppm.py:15-44 | the counts after a run depend on the multiset of the run |
| CountTable.IncAllOrder | ppm.py:15-44 | runs of increments with the same multiset give the same table, whatever their order |
| CountTable.ZerosCumCount | ppm.py:4-7 | a fresh table has cumulative count 0 everywhere |
| CountTable.IncAtLast | ppm.py:18-20 | incrementing `last`, or the first symbol of an empty table, keeps the arrays exact |
| CountTable.IncAboveLast | ppm.py:22-26 | incrementing a new symbol above `last` links it to `last`, accumulates its count and keeps the arrays exact |
| CountTable.BumpStep | ppm.py:32-35 | one step down the chain adds 1 to the next active symbol above x |
| CountTable.IncFoundInChain | ppm.py:37-38 | when the walk reaches x, x was active and the arrays are exact |
| CountTable.SpliceCum | ppm.py:40-41 | after a new x is spliced in, every stored cumulative value is right |
| CountTable.SplicePrev | ppm.py:43-44 | after a new x is spliced in, every predecessor link is right |
| CountTable.IncSplice | ppm.py:40-44 | when the walk stops below x, x is new, and the splice keeps the arrays exact |
| CountTable.CountArraySparse.constructor | ppm.py:4-7 | a new table has every count 0 |
| CountTable.CountArraySparse.Contains | ppm.py:9-13 | `contains(x)` iff x has been counted |
| CountTable.CountArraySparse.GetCount | ppm.py:47-50 | `get_count(x)` is the number of increments of x |
| CountTable.CountArraySparse.GetCumCount | ppm.py:52-53 | `get_cum_count(x)` of an active x is the sum of the counts of all symbols <= x (and 0 for an inactive x) |
| CountTable.CountArraySparse.GetTotalCount | ppm.py:55-58 | `get_total_count()` is the sum of all counts |
| CountTable.CountArraySparse.IncrementCount | ppm.py:15-44 | `increment_count(x)` adds one occurrence of x, keeping both arrays and `last` exact |
| CountTable.CountArraySparse.BumpChainAbove | ppm.py:28-35 | the walk adds 1 to every active symbol above x and stops at x's predecessor position |
| CountTableExamples.ThreeSymbols | ppm.py:384-400 | after one increment of x in a table of 3, only x is contained, with count 1 and cumulative count 1 |
| CountTableExamples.TenSymbolCounts | ppm.py:424-433 | counts [0,3,1,0,2,0,0,0,0,5] have cumulative counts 3, 4, 6, 11 at 1, 2, 4, 9 and total 11 |
| CountTableExamples.AscendingRun | ppm.py:402-416 | the test's increments in ascending order give counts 3, 1, 2, 5 at 1, 2, 4, 9 |
| CountTableExamples.DescendingRun | ppm.py:435-449 | the same increments in descending order give the same counts |
| CountTableExamples.TenSymbolsAscending | ppm.py:402-433 | the class gives the test's answers for `contains`, `get_count`, `get_cum_count`, `get_total_count` |
| CountTableExamples.TenSymbolsDescending | ppm.py:435-466 | the class gives the same answers for the descending run |
| CountTableExamples.FirstRunCounts | ppm.py:468-475 | after 19, 7, 8 the cumulative counts of 7, 8, 19 are 1, 2, 3 |
| CountTableExamples.SecondRunCounts | ppm.py:477-485 | after 18, 26, 19 more they are 1, 2, 3, 5, 6 at 7, 8, 18, 19, 26 |
| CountTableExamples.TwentyEightSymbols | ppm.py:468-485 | the class gives the test's cumulative counts before and after the second run |
| PpmCoder.FindActive | ppm.py:225-228 | the scan stops at the first active symbol whose cumulative count exceeds C, or past the end when C >= the total |
| PpmCoder.FindActiveHit | ppm.py:225-228 | a C inside an active symbol's range finds exactly that symbol |
| PpmCoder.FindActiveEscape | ppm.py:225-239 | a C at or above the total finds the escape index |
| PpmCoder.SymbolIv | ppm.py:233-239 | a symbol is narrowed to [cum - count, cum); the escape is narrowed to [total, total + 1); both are out of range_max |
| PpmCoder.DecodeSymbolSpec | ppm.py:217-247 | `decode_symbol` returns a symbol index, or the escape index only when escapes are allowed, and keeps the tag inside |
| PpmCoder.Scan | ppm.py:225-228 | the scan loop computes FindActive |
| PpmCoder.ArithmeticEncoder.constructor | ppm.py:69-75 | a new encoder is in the initial state with empty output |
| PpmCoder.ArithmeticEncoder.Encode | ppm.py:77-114 | `encode(range_l, range_u, range_max)` moves to CodeInterval's state and appends its bits |
| PpmCoder.ArithmeticEncoder.Flush | ppm.py:116-136 | `flush()` appends Flush of the state and returns the whole output |
| PpmCoder.ArithmeticDecoder.constructor | ppm.py:206-211 | a new decoder has the full interval |
| PpmCoder.ArithmeticDecoder.Start | ppm.py:213-215 | `start` loads the first m bits as the tag, with the cursor at m |
| PpmCoder.ArithmeticDecoder.DecodeSymbol | ppm.py:217-247 | `decode_symbol` returns DecodeSymbolSpec's symbol and narrows the interval accordingly |
| PpmCoder.ArithmeticDecoder.DecodeStream | ppm.py:249-290 | `decode_stream` computes DecRenorm, failing (state unchanged) exactly when it reads past the input |
| PpmModel.Ones | ppm.py:144-151 | the order -1 table counts each alphabet symbol once |
| PpmModel.SumOnes | ppm.py:144-151 | the order -1 total is the alphabet size |
| PpmModel.UniformInterval | ppm.py:191-196 | in the order -1 table, symbol x is coded as [x, x + 1) out of n |
| PpmModel.Contexts | ppm.py:159-162 | the keys visited are `sequence[j:i]` for j from the first order to i |
| PpmModel.Keys | ppm.py:156-162 | the context keys for position i run from the longest (at most K symbols) down to the empty context |
| PpmModel.KeysOfPrefix | ppm.py:324-326 | the decoder's keys from the decoded prefix equal the encoder's keys from the whole message |
| PpmModel.KeysChain | ppm.py:156-162 | the keys are distinct, and each drops the first symbol of the previous one |
| PpmModel.Update | ppm.py:182-187 | counting a symbol in every context keeps every table over the alphabet |
| PpmModel.UpdateFacts | ppm.py:159-189 | after counting, the contexts seen are the old ones plus the keys; each key's table has x counted once more; others are unchanged |
| PpmModel.UpdateTotals | ppm.py:159-189 | counting one symbol raises each table's total by at most one |
| PpmModel.UpdateSuffixClosed | ppm.py:159-189 | every context's one-shorter suffix is a context too, before and after counting |
| PpmModel.ChainPresent | ppm.py:183-184 | once a context is present, all shorter contexts for the same position are present |
| PpmModel.MissingOnlyUncodedFrom | ppm.py:183-184 | the assertion holds for the keys of every position of a message |
| PpmModel.EncodePass | ppm.py:159-189 | the context loop's coded intervals and updated tables keep every table over the alphabet |
| PpmModel.PassStep | ppm.py:161-189 | one context turn codes its intervals first, passes the updated tables on, and preserves the assertion |
| PpmModel.EncodePassCoded | ppm.py:166-182 | once the symbol is coded, the loop only counts |
| PpmModel.EncodePassIsSpec | ppm.py:159-196 | the context loop codes exactly SymbolIvs (escapes, then the hit or the order -1 fallback) and counts as Update |
| PpmModel.SymbolIvsValid | ppm.py:171-196 | every interval coded for a symbol is valid for the 30-bit coder when totals stay below 2^28 |
| PpmModel.IvsFromValid | ppm.py:155-199 | from any position, with table totals bounded by the symbols counted so far, every remaining interval is valid for the 30-bit coder |
| PpmModel.FloatExactSizes | ppm.py:138-201 | sizes that keep the 30-bit float narrowing exact (2^30 * size < 2^53) are within the quarter-range bound 2^28 |
| PpmModel.IntervalsValid | ppm.py:155-199 | all intervals of a message are valid when its length and the alphabet are at most 2^28 |
| PpmModel.PpmEncoded | ppm.py:138-201 | the PPM output is a bit list of at least 30 bits |
| PpmModel.TryDecode | ppm.py:331-335 | `decode_stream` then `decode_symbol` yields a symbol, or the escape only where escapes are allowed |
| PpmModel.DecodeIn | ppm.py:324-352 | the search decodes a symbol of the alphabet |
| PpmModel.DecodeInFirst | ppm.py:324-344 | a missing or empty context is skipped; otherwise a symbol ends the search and an escape moves to the next context |
| PpmModel.DecodeInLast | ppm.py:346-352 | after every context escapes, the symbol is decoded from the order -1 table without escape |
| PpmModel.PpmDecodedFirst | ppm.py:310-315 | the first symbol comes from the order -1 table and is counted in the empty context |
| PpmModel.DecodeLoopStep | ppm.py:320-367 | one turn of the main loop decodes a symbol, counts it in every context and continues; a failed search fails the decode |
| PpmModel.DecodeFromLength | ppm.py:320-367 | the decode loop ends with exactly max(1, message_len) symbols, extending what was decoded |
| PpmModel.PpmDecodedLength | ppm.py:313-320 | a successful decode has message_len symbols, and 1 when message_len is 0 |
| PpmModel.StepTracks | ppm.py:331-333 | in step with the encoder, `decode_stream` succeeds and `decode_symbol` returns what the encoder coded, staying in step |
| PpmModel.NarrowTracks | ppm.py:217-247 | from a settled in-step state, `decode_symbol` returns the coded symbol or escape and stays in step |
| PpmModel.FoundTracks | ppm.py:331-339 | a context that knows the symbol makes the search return it |
| PpmModel.DecodeInTracks | ppm.py:324-352 | the search decodes exactly the encoder's symbol, through the same escapes |
| PpmModel.DecodeFromStep | ppm.py:354-365 | after the right symbol, the decoder's tables are counted exactly as the encoder's |
| PpmModel.SymbolTracks | ppm.py:155-199 | decoding one message symbol keeps decoder and encoder in step, with equal tables |
| PpmModel.DecodeFromTracks | ppm.py:320-367 | in step, the decode loop produces the rest of the message |
| PpmModel.PpmRoundTrip | ppm.py:371-375 | `decode(encode(s, K, alphabet), K, alphabet, len(s)) == s` for every non-empty message over the alphabet and every K |
| Ppm.OrderMinusOne | ppm.py:144-151 | the alphabet loop builds the uniform order -1 table |
| Ppm.Code | ppm.py:77-114 | an `encode` call extends the output consistently with what remains to be coded |
| Ppm.CodeIn | ppm.py:166-180 | in a context with counts, codes the symbol when it is known and the escape otherwise, and reports which |
| Ppm.CodeUniform | ppm.py:191-196 | the fallback codes x as [x, x + 1) out of the alphabet size |
| Ppm.CountIn | ppm.py:182-187 | counts x in the context's table, creating it when missing |
| Ppm.Visit | ppm.py:162-187 | one context turn codes as Coded, counts x, and records whether x has been coded |
| Ppm.EncodeContexts | ppm.py:159-189 | the context loop codes EncodePass's intervals and leaves EncodePass's tables |
| Ppm.EncodeSymbol | ppm.py:155-199 | one turn of the outer loop codes the symbol's intervals and updates the contexts as Update |
| Ppm.EncodeMessage | ppm.py:155-199 | the outer loop codes exactly the message's intervals, in order, starting from the fresh tables |
| Ppm.Encode | ppm.py:138-201 | `encode` returns exactly PpmEncoded, for a message length and alphabet size with 2^30 * size < 2^53 |
| Ppm.CountSymbol | ppm.py:354-365 | the decoder's last loop counts the symbol in every context, as Update |
| Ppm.DecodeNext | ppm.py:331-333 | `decode_stream` then `decode_symbol` computes TryDecode |
| Ppm.Search | ppm.py:324-352 | the search loop and its fallback compute DecodeIn |
| Ppm.DecodeFirst | ppm.py:310-315 | the start of `decode` leaves the decoder where PpmDecoded continues |
| Ppm.DecodeTurn | ppm.py:320-367 | one loop turn advances the decode exactly as DecodeFrom, or fails where it fails |
| Ppm.Decode | ppm.py:293-369 | `decode` returns exactly PpmDecoded, or None where the source raises IndexError, for message_len and alphabet size with 2^30 * size < 2^53 |
| Frequency.Distinct | utils.py:13-16 | the keys of the dictionary are exactly the elements of the sequence |
| Frequency.DistinctNoDuplicates | utils.py:13-16 | each key appears once |
| Frequency.DistinctOrder | utils.py:14-16 | keys come in order of first occurrence (dictionary insertion order) |
| Frequency.Histogram | utils.py:12-16 | one pair per distinct element |
| Frequency.HistogramKeys | utils.py:12-16 | each pair's first component occurs in the sequence, every element has a pair, keys are distinct, and each count is the element's number of occurrences |
| Frequency.HistogramTotal | utils.py:14-15 | the counts add up to the length of the sequence |
| Frequency.BuildFrequency | utils.py:12-16 | `build_frequency` returns Histogram |
| Frequency.HistogramPair | utils.py:29 | `build_frequency([0, 1]) == [(0, 1), (1, 1)]` |
| Frequency.HistogramReturn | utils.py:30 | `build_frequency([0, 1, 1, 1, 0]) == [(0, 2), (1, 3)]` |
| Frequency.HistogramRun | utils.py:31 | `build_frequency([0, 1, 2, 2, 2, 2]) == [(0, 1), (1, 1), (2, 4)]` |
| Frequency.Examples | utils.py:28-31 | the method gives the three test answers |
| Huffman.BisectRight | huffman.py:13 | the insertion point follows every weight <= x and precedes the first larger one |
| Huffman.Insert | huffman.py:15-16 | `list.insert(i, x)` puts x at i and shifts the tail by one |
| Huffman.InsertSorted | huffman.py:13-16 | inserting at `bisect_right` keeps a sorted list sorted |
| Huffman.MultisetInsert | huffman.py:15-16 | inserting adds exactly the one element |
| Huffman.InsertByWeightFacts | huffman.py:4 | inserting a pair by weight keeps the list sorted and adds its symbol |
| Huffman.InsertByWeightStable | huffman.py:13-16 | inserting at `bisect_right` puts the pair after every pair of its own weight and keeps the others' order |
| Huffman.SortByWeightFacts | huffman.py:4 | the sorted list is ordered by frequency, is a permutation of the pairs, and keeps pairs of equal frequency in their input order (a stable sort), so it holds the same symbols |
| Huffman.Step | huffman.py:9-16 | one merge turn leaves one fewer tree |
| Huffman.StepSorted | huffman.py:9-16 | a merge turn keeps the weights sorted |
| Huffman.StepSum | huffman.py:12-16 | a merge turn replaces the two smallest weights by their sum |
| Huffman.StepForest | huffman.py:9-16 | a merge turn keeps the leaves of all trees |
| Huffman.MergedFacts | huffman.py:8-16 | the merge loop ends with one tree (none for an empty list) holding every leaf, and a node once there were two |
| Huffman.ForestLeaves | huffman.py:5-6 | the initial leaves hold exactly the listed symbols |
| Huffman.BuildTreeFacts | huffman.py:3-28 | a tree exists iff the list is non-empty, its leaves are the listed symbols, and it is a node for two or more pairs |
| Huffman.BuildTreeInRange | huffman.py:18-22 | the tree's symbols fit the 256-slot lookup list |
| Huffman.WalkCodes | huffman.py:19-26 | after `walk_tree`, a symbol of the tree has the path to its last leaf as code, and other slots are unchanged |
| Huffman.LastPathLeads | huffman.py:19-26 | each code is a '0'/'1' path that leads from the root to the symbol's leaf |
| Huffman.Walk | huffman.py:19-26 | the lookup list keeps its 256 slots |
| Huffman.WalkTree | huffman.py:19-26 | the recursive `walk_tree` on the array computes Walk |
| Huffman.Empty | huffman.py:18 | `[None] * 256` |
| Huffman.HuffmanCode | huffman.py:3-31 | the code has a 256-slot lookup list |
| Huffman.MergeTurn | huffman.py:9-16 | the two pops, the node and the two inserts compute Step |
| Huffman.BuildHuffmanCode | huffman.py:3-31 | `build_huffman_code` returns HuffmanCode, after one merge per pair but one |
| Huffman.FollowPrefixFree | huffman.py:49-60 | no path to a leaf extends into a longer path |
| Huffman.CodePaths | huffman.py:18-31 | a symbol has a code iff it is listed, and its code is a '0'/'1' path to its leaf |
| Huffman.CodesPrefixFree | huffman.py:19-31 | no symbol's code is a prefix of another's |
| Huffman.Encode | huffman.py:33-40 | `encode` concatenates the symbols' codes, or fails where a symbol has none |
| Huffman.DecodeSymbol | huffman.py:49-60 | decoding from a node reads at least one bit and never more than are there |
| Huffman.DecodeNext | huffman.py:47-60 | the inner loop computes DecodeSymbol from the current position |
| Huffman.Decode | huffman.py:42-62 | `decode` computes DecodeAll, or fails where the bits run out mid-symbol |
| Huffman.FollowDecodes | huffman.py:49-60 | bits that start with a path to a leaf decode to that leaf, consuming the path |
| Huffman.DecodeEncoded | huffman.py:33-62 | decoding the concatenated codes of symbols in the tree gives the symbols back |
| Huffman.RoundTrip | huffman.py:86-90 | `decode(code, encode(code, s)) == s` for a code from two or more pairs and any s over the listed symbols |
| Huffman.SingleLeafLosesMessage | huffman.py:18-62 | with a single pair, its symbol's code is empty, so any non-empty message of it encodes to no bits, which decode to no symbols |
| HuffmanExamples.FiveSorted | huffman.py:4 | the test's five pairs sort to [(3,1), (4,1), (1,2), (2,2), (0,4)], keeping ties in order |
| HuffmanExamples.FiveTreeBuilt | huffman.py:70-71 | the five-pair tree is ((1,2),((3,4),0)) |
| HuffmanExamples.FiveLength | huffman.py:70-72 | its code lengths weighted by frequency add up to 22, an average of 2.2 over 10 |
| HuffmanExamples.PairsTreeBuilt | huffman.py:74-75 | two pairs give a node of the two leaves |
| HuffmanExamples.PairsLength | huffman.py:74-76 | the two codes are "0" and "1", with weighted length 2, an average of 1 |
| HuffmanExamples.ThreeTreeBuilt | huffman.py:78-83 | (0,a), (1,b), (2,c) with b <= c and b + c < a give the tree ((1,2),0) |
| HuffmanExamples.ThreeLength | huffman.py:78-84 | that tree's weighted length is a + 2b + 2c |
| HuffmanExamples.LengthSnoc | utils.py:5-6 | the weighted length adds one term per pair |
| HuffmanExamples.FiveCodeLength | huffman.py:70-72 | `build_huffman_code` on the five pairs has weighted length 22 |
| HuffmanExamples.PairsCodeLength | huffman.py:74-76 | on the two pairs it gives codes "0" and "1" and weighted length 2 |
| HuffmanExamples.ThreeCodeLength | huffman.py:78-84 | on three such pairs the weighted length is a + 2b + 2c |
| HuffmanExamples.ThreeCodeLengths | huffman.py:78-84 | the last two tests give 120 (1.2 per symbol over 100) and 105 (1.05) |
| HuffmanExamples.EncodeDecodeExample | huffman.py:86-90 | the test's sequence [0, 0, 0, 0, 1, 2] round-trips |
| Lz77.PyIndex | lz77.py:45 | `result[i]` is defined for -len <= i < len, and a non-negative index reads that element |
| Lz77.DecodedSnoc | lz77.py:37-47 | decoding one more triple continues from the text decoded so far |
| Lz77.DecodedPrefixFails | lz77.py:37-47 | once a prefix of the triples fails, the whole decode fails |
| Lz77.Decode | lz77.py:34-49 | `decode` computes Decoded, or None where it raises |
| Lz77.CopyMatch | lz77.py:43-46 | the copy loop succeeds exactly when Copy does and returns its text |
| Lz77.MatchesNext | lz77.py:18-19 | a match extends by one exactly when the next symbols agree and a symbol still follows |
| Lz77.MatchesShorter | lz77.py:18-19 | every shorter prefix of a match is a match |
| Lz77.MatchLength | lz77.py:16-19 | the match loop returns a match length that cannot be extended |
| Lz77.BestMatch | lz77.py:12-23 | the window loop returns the longest match in the window, the earliest on ties, or length 0 |
| Lz77.ChosenOfBest | lz77.py:24-30 | the triple built from the best match is a literal when it is empty, and a back reference with its following symbol otherwise |
| Lz77.ChosenAt | lz77.py:11-30 | each emitted triple is the encoder's choice at the position it starts |
| Lz77.FirstTurn | lz77.py:5-10 | the first triple is a literal of the first symbol |
| Lz77.Turn | lz77.py:24-30 | emitting the chosen triple advances the position by its length plus one and keeps the decode equal to the prefix |
| Lz77.CopyMatches | lz77.py:43-46 | copying a match, even one overlapping its own output, reproduces the text |
| Lz77.DecodeChosen | lz77.py:37-47 | decoding a chosen triple extends the prefix by length + 1 symbols of the input |
| Lz77.EncodeTurn | lz77.py:11-30 | one turn of the outer loop keeps the encoder invariant and advances |
| Lz77.EncodedDone | lz77.py:32 | at the end, the triples decode to the input and cover it exactly |
| Lz77.Encode | lz77.py:1-32 | for every window size, the triples decode to the input, cover it, start with a literal, and are each the longest earliest match in the window or a literal |
| Lz77.RoundTrip | lz77.py:55-92 | `decode(encode(t, S)) == t` for every text t and window size S |
| Lz77.CoveredAtLeast | lz77.py:24-30 | each triple stands for at least one symbol |
| Lz77.AllLiterals | lz77.py:24-27 | when there are as many triples as symbols, every triple is a literal |
| Lz77.OnlyLiterals | lz77.py:24-27 | when no window ever matches a symbol, the encoder emits one literal per symbol |
| Lz77.BookWindowEight | lz77.py:59-61 | in `'abcdefghi' * 3` a window of 8 never holds the current symbol |
| Lz77.BookWindowNine | lz77.py:62-63 | a window of 9 matches at position 9 |
| Lz77.BookWindowEightCount | lz77.py:59-61 | window 8 gives as many triples as symbols |
| Lz77.BookWindowNineCount | lz77.py:62-63 | window 9 gives fewer triples than symbols |
| Lz78.DecodeStep | lz78.py:35-42 | a pair is decodable iff its index is 0 or an existing entry; it appends entry + symbol to the output and as a new entry |
| Lz78.DecodeAll | lz78.py:31-44 | one entry per decoded pair |
| Lz78.DecodeAllSnoc | lz78.py:35-42 | decoding one more pair continues from the state so far |
| Lz78.DecodedIsConcat | lz78.py:41-44 | the output is the concatenation of the entries |
| Lz78.DecodeAllDefined | lz78.py:35-42 | decoding succeeds iff each pair's index is at most its position |
| Lz78.Decode | lz78.py:31-44 | `decode` computes Decoded, or None on a KeyError |
| Lz78.LongestPhrase | lz78.py:18-20 | the phrase loop stops at the longest known phrase, with a symbol left after it |
| Lz78.FinalLiteralTurn | lz78.py:8-10 | the final single symbol is emitted as a literal and ends the encoding |
| Lz78.LiteralTurn | lz78.py:12-16 | a new symbol is emitted as a literal and numbered as the next entry |
| Lz78.PhraseTurn | lz78.py:18-27 | a known phrase is emitted as its number and the next symbol, and the extended phrase is numbered next |
| Lz78.TurnReaches | lz78.py:7-27 | each turn keeps the encoder invariant, or finishes |
| Lz78.EncodeTurn | lz78.py:7-27 | one turn of the encoder loop is one of the three cases and advances |
| Lz78.EncodedDone | lz78.py:29 | at the end, the pairs decode to the input |
| Lz78.EmitLiteral | lz78.py:36-39 | decoding a literal appends its symbol and a one-symbol entry |
| Lz78.EmitPhrase | lz78.py:41-42 | the decoder's entry for a phrase's number is that phrase, so the pair decodes to phrase + symbol |
| Lz78.NumbersGrow | lz78.py:24-25 | numbering a new phrase `len(d) + 1` keeps the encoder's numbers equal to the decoder's entries |
| Lz78.Encode | lz78.py:1-29 | the pairs decode to the input, each index refers to an earlier entry, and the dictionary numbers agree with the decoder's |
| Lz78.RoundTrip | lz78.py:49-59 | `decode(encode(s)) == s` for every string s |

## Left out

- Floating point: `math.floor((u - l + 1) * r / range_max)` and C are computed on Python floats; the model uses exact integer floor division. The two agree when 2^m * range_max < 2^53 (`Bits.FloatExact`): then every dividend is exact in a double, and no quotient lies close enough below an integer to round onto it. The top-level `encode` and `decode` methods require it, as listed below.
- `get_entropy` (utils.py:8-10) is floating-point logarithms and is not modelled; `get_average_codelength` (utils.py:4-6) is modelled only as its integer numerator, the frequency-weighted sum of code lengths (`HuffmanExamples.WeightedLength`).
- Randomised and long tests (`test_random`, `test_distributions`, `test_big`, `test_encode_decode_randomized`, `test_text`, `test_artificial`, lz78 `test_book` and `test_simple`) are not instantiated; the all-input round-trip lemmas cover them.
- The PPM demo and its `print` calls (ppm.py:371-375) are not modelled. The stub `decode(sequence, max_context_len, alphabet)` at ppm.py:377-378 redefines `decode` when the module is loaded; the model describes the four-argument `decode` at ppm.py:293-369.
- PPM messages and alphabets are modelled as symbol indices 0..n-1 (the source's `symbol_index`); the character mapping and alphabets with repeated characters are not modelled.
- PPM contexts are modelled as a map from context to count list inside `encode` and `decode`; the heap objects of `CountArraySparse` are modelled separately by the class `CountTable.CountArraySparse`, proved to compute the same counts, but the two are not linked by aliasing.
- The unused `ArithmeticEncoder` in PPM `decode` (ppm.py:297), the unused `prev_symbol` and `ctx` arguments of `decode_stream`, and the unused `scale3`/`mask` fields of `ArithmeticDecoder` are not modelled.
- Ppm.Encode: requires 2^30 * |s| < 2^53 and 2^30 * n < 2^53, that is message length and alphabet size below 2^23, which the source does not check. Every range_max it narrows with is at most one of them, so the float narrowing is exact. Beyond that bound the model's output is not the source's.
- Ppm.Decode: requires 2^30 * message_len < 2^53 and 2^30 * n < 2^53, for the same reason. It also requires a non-empty alphabet; with n = 0 the source fails its assertion `has_escape` at ppm.py:237 on the first `decode_symbol`.
- PpmCoder.ArithmeticEncoder.Encode: computes the exact integer floor, which equals the source's float floor only when 2^m * range_max < 2^53. Under the bounds of `Ppm.Encode` every range_max is at most |s| (a table total after at most |s| - 1 symbols, plus one for the escape) or n. The model does not carry that argument into the class methods as a proved precondition.
- PpmCoder.ArithmeticDecoder.DecodeSymbol: the same, with the bounds of `Ppm.Decode`.
- PpmModel.PpmRoundTrip: stated for non-empty messages, since `decode` always returns at least one symbol.
- StaticArithmetic.Encode: requires every coded symbol to have a positive count and the total to be at most 2^(m-2); outside that the source narrows to an empty interval and its output is not modelled. It also requires 2^m * total < 2^53, so that the float narrowing is exact; for larger words the model's output is not the source's.
- StaticArithmetic.Decode: requires a positive total; the source raises ZeroDivisionError otherwise. It also requires 2^m * total < 2^53, for the float narrowing.
- StaticArithmetic.RoundTrip: stated for non-empty symbol lists, since `decode` always returns at least one symbol.
- Huffman.BuildHuffmanCode: requires every symbol in 0..255; the source raises IndexError for larger symbols and writes a negative symbol to slot 256 + s, neither of which is modelled.
- Huffman.Decode: requires the root to be a node or the bits to be empty; for a single-leaf code the source's outer loop never consumes a bit and does not terminate.
- Huffman.RoundTrip: requires at least two pairs. With one pair the source's round trip does not hold: `walk_tree` gives the only symbol the empty code (huffman.py:22), so `encode` returns no bits and `decode` returns `[]` for every message (`Huffman.SingleLeafLosesMessage`).
- Huffman.BisectRight: a linear search, which agrees with the binary search of `bisect_right` on the sorted lists the merge loop keeps.
- Huffman.BuildHuffmanCode: the merge count is a ghost output.
- Lz78.Encode: the dictionary and the entry list are ghost outputs; the one-character keys `sequence[i]` are modelled as one-symbol phrases, which is how the source's string keys compare.
- Lz77.Decode: a negative read index from an offset larger than the output reads from the end of the list, as Python does (`PyIndex`); such triples are never produced by `encode`.
