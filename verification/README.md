# libdedsec: the bitstream analysis engine

A Dafny model of the part of libdedsec that decides what an extracted bitstream
is, with the codecs and symbol lanes around it. `dafny verify dfyconfig.toml`
checks everything.

The program collects bits that a text may hide, packs them most significant bit
first, and asks two questions. The scorers (`src/bitstream_score.c`) describe
the bits by four models, run lengths and context counts under an adaptive code,
periods, and an LZ78 dictionary, plus a shortest linear recurrence on request.
The filter (`src/bitstream_filter.c`) tries eight bit phases, reversal,
inversion and up to two layers of Base16, Base32 or Base64, scores every
reading as text, and routes what may be opaque data. Around them are the strict
UTF-8 scanner, two independent radix decoders, the lanes that report symbols and
the decoders of the same lanes, the gluing of reported symbols in source order,
and the search through chains of text transforms that remember byte origins.

How the model is laid out:

- `Bits`, `Bitstream`: bit lists, and the growable buffer and packed stream as
  classes over an array, with the abstract bit list as their meaning.
- `Scorer`, `Log2`, `Kt`, `MarkovScorers`, `Linear`, `LinearScorer`, `Lz78`,
  `Lz78Scorer`, `Score`: each scorer as a method over the stream and its own
  arrays, proved against a definition, and theorems about the definitions.
- `Reports` says what the four reports and the class of a stream are in terms of
  the bits, and `Repetition` works out the repetitions of a word.
- `Utf8`, `Radix`, `Surface`, `TokenMap`, `PlainText`: parsers and encoders;
  `Utf8Octets`, `Alphabets` and `TextMeaning` say what they mean against written
  out octets, alphabets and sets of positions.
- `Lz78Reach`: exactly how long a stream a dictionary limit is enough for.
- `Fractions`: comparing quotients of counts in floating point.
- `FilterSpec` lists every reading and layer the search visits, in order, and
  its score; `FilterTheorems`, `FilterVerdict`, `FilterNodes` and `FilterGate`
  state what holds of them; `Prose`, `FilterShort` and `FilterEight` settle when
  the verdict is INSUFFICIENT, `FilterLadder` when it is each of the others, and
  `FilterMeaning` what scores, flags and the order of results mean; `Wave`,
  `RepeatedDigit` and `FilterWitness` work out concrete streams; `FilterSearch`
  is the search itself, a class updated in place, equal to the specification.
- `Composite`, `UnicodeProperties`, `UnicodeCensus`, `Bidi`, `Identity`,
  `ImplicitBidi`, `UnicodeLanes`, `Strip`, `Search`: symbols, counts, lanes and
  transforms; `LaneSpelling`, `PairSpelling` and `SearchMeaning` write payloads
  in the lanes and read them back, and say what each transform leaves.

`size_t` and `uint64_t` are 64 bits wide. Costs are unbounded integers with the
saturation and wrap-around of the 64-bit code written out. Flag words are sets
of named flags. The emit callbacks become returned lists. The original's `int`
result with a status becomes a status value, or an `Option` where the only
failure is EINVAL.

Where the code and its documentation differ:

- `docs/PLAINTEXT_FILTER.md:56` says INSUFFICIENT means that fewer than six
  complete bytes can be interpreted. The code tests the length of the winning
  candidate (`src/bitstream_filter.c:571`), which may be a decoded layer: the
  eight bytes "33333333" are periodic, decode as Base32 to five bytes, and are
  called INSUFFICIENT (`FilterWitness.WaveIsInsufficient`).
  `FilterShort.InsufficientExactly` gives the exact condition on the input, and
  `FilterShort.InsufficientLengths` the five lengths above 47 bits where it occurs.
- The comment at `src/bitstream_filter.c:425` says that the decoded content of
  a wrapper must pass. `FilterGate.WrapperPassesExactly` says exactly when a
  wrapper passes all the same: at the deepest layer, where decoding is no longer
  tried, when it is not routed as opaque data and scores above 60 as text or
  belongs to a structured stream. The digit 3 thirty-two times is such a stream,
  and the wrapper wins it (`FilterWitness.ThirdWrapperWins`).

## Model

| member | source | states |
|---|---|---|
| `Bitstream.Buffer.Append` | src/core.c:48-69 | The bytes go at the end and nothing else changes; refused, with the contents intact, exactly when the length would pass SIZE_MAX. The doubling loop ends and never overflows. |
| `Bitstream.Bitstream.AppendBits` | src/core.c:26-46 | Appends the low `count` bits of the value, most significant first or last as asked, and keeps the storage packed; refused unchanged exactly for a width outside 1 to 8 or an overflowing length. |
| `Bitstream.Bitstream.AppendBit` | src/core.c:33-43 | One bit: a byte is pushed when the last one is full, the bit is set in place, and the storage stays packed. |
| `Bitstream.SetBitEffect` | src/core.c:40-41 | Setting the first clear bit of the last byte appends that bit and keeps the padding clear. |
| `Bitstream.Bitstream.CheckValid` | src/bitstream_score.c:19-32 | The entry points accept a caller-supplied struct, whatever its fields hold, exactly when its length fits, it has ceil(n/8) bytes within its capacity, and its unused bits are clear. |
| `Bitstream.MaskTestIsPacked` | src/bitstream_score.c:26-30 | The mask test on the last byte is zero exactly when every bit past the length is clear. |
| `Bitstream.PackedUnique` | include/dedsec.h:38-43 | Two packed byte strings of one bit length that hold the same bits are the same bytes. |
| `Bitstream.Bitstream.Truncate` | src/module_surface.c:57-60 | Dropping to a whole number of bytes keeps the prefix of the bits and the packed form. |
| `Scorer.ComputeCeilLog2` | src/bitstream_score.c:34-43 | The doubling loop finds the least exponent whose power reaches the value, for every size_t, without overflow. |
| `Scorer.AddSaturated` | src/bitstream_score.c:73-79 | A running total kept by the clamped addition is always the saturation of the exact sum, and the clamp flag tells whether it overflowed. |
| `Log2.ComputeLog2Q16` | src/bitstream_score.c:47-71 | The shifting loop computes the mathematical definition used in the theorems below, for every 64-bit value. |
| `Log2.Log2Monotone` | src/bitstream_score.c:47-71 | The piecewise-linear fixed-point logarithm never decreases, across all table and octave boundaries. |
| `Log2.Log2Exact` | src/bitstream_score.c:47-71 | It is exact at every power of two. |
| `Log2.Log2Doubling` | src/bitstream_score.c:47-71 | Doubling the argument adds exactly one (65536). |
| `Log2.Log2Bound` | src/bitstream_score.c:47-71 | It stays below 64 * 65536 on every 64-bit value. |
| `Kt.TermExact` | src/bitstream_score.c:89-91 | While 2 * (total + 1) fits 64 bits no term of the adaptive code underflows: the unsigned difference is the true difference and lies below 64 bits. |
| `Kt.TermWraps` | src/bitstream_score.c:89-91 | The bound is sharp: at total 2^63 - 1 the numerator wraps to 0 and the term of every positive count is a huge number instead. |
| `Kt.MinorityTerm` | src/bitstream_score.c:89-91 | Below that bound, a symbol seen at most half the time costs at least one bit. |
| `Kt.BinaryCost` | src/bitstream_score.c:81-96 | The loop computes the prequential cost of that many zeros followed by that many ones. |
| `Kt.PrequentialClosed` | src/bitstream_score.c:81-96 | The prequential cost of any sequence of fewer than 2^63 bits is a closed form in its two counts, saturated to 64 bits. |
| `Kt.OrderIndependent` | src/bitstream_score.c:81-96 | Permuting a sequence of fewer than 2^63 bits does not change its cost, rounding and saturation included. |
| `Kt.ClosedSymmetric` | src/bitstream_score.c:81-96 | The closed form is symmetric in zeros and ones. |
| `Kt.SlotInjective` | src/bitstream_score.c:141-146 | Two histories share a context slot only if they are equal, lengths included. |
| `Kt.SlotBelow` | src/bitstream_score.c:136-147 | For orders 0 to 4 every context index lies inside the 31-row table. |
| `Kt.OrderCostIsSlotSum` | src/bitstream_score.c:134-158 | Below 2^63 bits the interleaved order-k cost is the saturated sum, over contexts, of the closed form of the counts each context ends with. |
| `Kt.OrderCostUnclamped` | src/bitstream_score.c:134-158 | Up to 2^40 bits the order-k cost never clamps. |
| `MarkovScorers.ComputeOrderCost` | src/bitstream_score.c:134-158 | The loop over the in-place counter table yields the order-k cost and the number of contexts that occur. |
| `MarkovScorers.ContextSlot` | src/bitstream_score.c:140-146 | The shift loop yields the slot of the preceding bits, shorter at the start of the stream. |
| `MarkovScorers.ArgMin` | src/bitstream_score.c:174-183 | The selected model is the first of least cost, and there is none only if every cost saturates. |
| `MarkovScorers.MaskCostClosed` | src/bitstream_score.c:216-220 | The residual cost is the price plus the closed form of the two mismatch counts. |
| `MarkovScorers.ScorerRuns` | src/bitstream_score.c:110-132 | Accepts exactly the valid streams; the report is the KT cost of the transition counts plus one bit. |
| `MarkovScorers.ScorerKt` | src/bitstream_score.c:160-189 | Accepts exactly valid streams and orders up to 4; reports the cheapest order, the smallest on ties, and its context count. |
| `MarkovScorers.ScorerPeriodic` | src/bitstream_score.c:191-232 | Accepts exactly valid streams and periods up to 64; reports the cheapest period, the smallest on ties, and its mismatches. |
| `MarkovScorers.NeverClamped` | src/bitstream_score.c:110-232 | Up to 2^40 bits none of the three ever raises ARITHMETIC_CLAMPED; the periodic one reports an infinite cost exactly for one-bit streams. |
| `LinearRecurrence.MasseyBound` | src/bitstream_score.c:319-336 | Massey's bound: a register of length L that generates n bits and fails on the next forces any register that gets n + 1 bits right to length at least n + 1 - L. |
| `LinearRecurrence.OuterExchange` | src/bitstream_score.c:323-324 | The double convolution of two registers with the stream can be summed in either order, the step the bound rests on. |
| `LinearRecurrence.DotCombine` | src/bitstream_score.c:327-328 | Adding the shifted previous polynomial adds its prediction error, and cutting at n coefficients affects no bit below n. |
| `LinearRecurrence.InvariantNoDiscrepancy` | src/bitstream_score.c:325 | Without a discrepancy the register stays a shortest one for one more bit. |
| `LinearRecurrence.InvariantDiscrepancy` | src/bitstream_score.c:326-333 | With a discrepancy both length updates lead to a shortest register for one more bit, and the saved register is the one that last failed. |
| `LinearRecurrence.LinearComplexityUnique` | src/bitstream_score.c:336 | At most one number is the linear complexity of a prefix. |
| `LinearScorer.Advance` | src/bitstream_score.c:320-334 | One iteration over the three arrays keeps the whole Berlekamp-Massey invariant. |
| `LinearScorer.ShortestRegister` | src/bitstream_score.c:312-335 | The length reached is the linear complexity of the assessed bits: some register of that length generates them and no shorter one does. |
| `LinearScorer.ScorerLinear` | src/bitstream_score.c:292-349 | Accepts exactly the valid streams; the statistic is the linear complexity of the first 1024 bits, with the description length, ratio and flags derived from it. |
| `LinearScorer.RecurrenceBoundsComplexity` | src/bitstream_score.c:336 | A stream that obeys some recurrence of order k is never reported above k. |
| `Lz78.ParseSound` | src/bitstream_score.c:249-280 | Entries stay pairwise distinct, each an earlier entry or nothing plus one bit; their concatenation with at most one repeated phrase is exactly the assessed prefix; only a full dictionary stops early, at a phrase boundary. |
| `Lz78.LongestIsLongest` | src/bitstream_score.c:252-273 | Walking until an unknown bit finds the longest known prefix, because every prefix of a known phrase is known. |
| `Lz78.ParseGreedy` | src/bitstream_score.c:252-273 | Entry i is the longest phrase known before it plus the next bit. |
| `Lz78.CodeIsDecodable` | src/bitstream_score.c:266-279 | The bits charged are the length of an actual code, parent index then bit, from which a decoder recovers the assessed bits. |
| `Lz78.CountingBound` | src/bitstream_score.c:249-280 | Distinct phrases take at least as many bits as that many shortest binary strings. |
| `Lz78.MinTotalClosed` | src/bitstream_score.c:249-280 | That least total in closed form. |
| `Lz78Reach.LimitNotReached` | src/bitstream_score.c:249-280 | A dictionary of a given limit never fills up on a stream shorter than the least total of one phrase more, and then the whole stream is assessed. |
| `Lz78Reach.LimitReached` | src/bitstream_score.c:249-280 | The bound is exact for every limit: the shortest binary strings laid end to end have exactly that length and fill the dictionary. |
| `Lz78Reach.DefaultLimitSuffices` | src/bitstream_score.c:369-374 | The default dictionary never fills up on streams of at most 917553 bits, so the whole stream is assessed. |
| `Lz78Reach.DefaultLimitReached` | src/bitstream_score.c:369-374 | That is the largest such length: a stream of 917554 bits fills it. |
| `Lz78.FlipParse` | src/bitstream_score.c:249-280 | The parse of the complement is the complement of the parse, entry by entry. |
| `Lz78Scorer.Walk` | src/bitstream_score.c:252-273 | Following children in the flat array ends at the node of the longest known phrase, and the next bit is unknown there. |
| `Lz78Scorer.AddChild` | src/bitstream_score.c:261-262 | Writing one child index adds exactly that phrase and leaves every other node right. |
| `Lz78Scorer.RunParse` | src/bitstream_score.c:248-281 | The trie loop computes the greedy dictionary parse: position, entries, phrases, cost and saturation. |
| `Lz78Scorer.ScorerLz78` | src/bitstream_score.c:234-290 | Accepts exactly valid streams and representable dictionary limits, and reports that parse. |
| `Score.ComputeScore` | src/bitstream_score.c:351-403 | Accepts exactly the valid streams; runs the four scorers with the default parameters and applies the threshold ladder. |
| `Score.KtReportsMinimum` | src/bitstream_score.c:174-185 | The reported order attains the least sum of context costs plus model price, no smaller order does, and the statistic counts the contexts that occur. |
| `Score.DefaultAssessesAll` | src/bitstream_score.c:369-374 | Up to 917553 bits the dictionary evidence covers the whole stream and never reports its limit. |
| `Score.ComplementInvariant` | src/bitstream_score.c:351-403 | Inverting every bit of the stream changes no field of any scorer, nor the score, nor the flags. |
| `Score.FlipInSlot` | src/bitstream_score.c:140-153 | Under inversion each context sees the inverted subsequence of the renamed context. |
| `Radix.DecodeHex` | src/bitstream_filter.c:173-182 | Accepts exactly the Base16 encodings, in any case, of six bytes or more, and returns the bytes. |
| `Radix.DecodeDense` | src/bitstream_filter.c:196-275 | One decoder for the four alphabets: succeeds with the bytes when the token is acceptable and fails when no bytes are. |
| `Radix.AccumulateStep` | src/bitstream_filter.c:212-219 | Shifting a symbol into the accumulator and draining a byte moves bits from token to output and loses none. |
| `Radix.RemainderTable` | src/bitstream_filter.c:221-228 | The admitted symbol remainders are exactly those whose unused tail is shorter than a symbol, and the expected pads complete the group. |
| `Radix.TailIsAccumulator` | src/bitstream_filter.c:229 | The accumulator left at the end is the unused tail, so the zero test is the canonical-tail rule. |
| `Radix.DecoderInvertsEncoder` | src/bitstream_filter.c:196-275 | From eight symbols on, a token is accepted with output b exactly when it is the canonical RFC 4648 encoding of b, padded or unpadded, case-folded for Base32. |
| `Radix.EncodeInjective` | src/bitstream_filter.c:196-275 | Different byte strings, of any lengths, have different encodings in every alphabet. |
| `Surface.CountSymbols` | src/module_surface.c:33-39 | The first pass accepts exactly symbols followed by pads, and returns their count and the last symbol. |
| `Surface.DecodeRadix` | src/module_surface.c:26-62 | Exact status for every input and spelling, including Crockford; the output is the symbol bits, cut to whole bytes for the padded spellings. |
| `Surface.DecodersAgree` | src/module_surface.c:26-62 | From eight symbols on, the bit-append decoder yields given bytes if and only if the accumulator decoder does and the token is whole groups and, for Base32, upper case. |
| `TokenMap.FindBest` | src/module_surface.c:97-105 | Finds the longest matching spelling, the earliest of equals, or that none matches; rejects exactly the alphabets with an empty spelling or an oversized value. |
| `TokenMap.TokenMapDecode` | src/module_surface.c:92-115 | Exact status for every input, and the bits of the longest-match parse; a bad symbol is only noticed when there is a byte to match, and an output longer than SIZE_MAX bits is cut short with EINVAL. |
| `TokenMap.RoundTripsExactly` | src/module_surface.c:96-114 | Parsing undoes every spelling if and only if no spelling is empty and nothing that can follow a symbol completes the spelling of a symbol the longest match takes before it. |
| `TokenMap.SpellingParses` | src/module_surface.c:96-114 | Prefix-free alphabets are among those, so parsing a spelled symbol list gives the list back. |
| `TokenMap.PrefixAllowed` | src/module_surface.c:97-105 | Prefix-freeness is not needed: an alphabet in which one spelling begins another always parses back. |
| `TokenMap.LongestMatchSwallows` | src/module_surface.c:97-105 | It can fail: a concrete alphabet where two symbols are read as one. |
| `Utf8.ScanOne` | src/utf8.c:9-28 | At an offset, the scanner reads a scalar whose encoding is there, or no scalar's encoding is. |
| `Utf8.AcceptsExactlyEncodings` | src/utf8.c:14-28 | The lead and continuation tests admit exactly the RFC 3629 encodings of Unicode scalar values, and no two scalars compete for a prefix. |
| `Utf8.Foreach` | src/utf8.c:3-38 | Succeeds exactly on valid UTF-8, emitting the scalars with contiguous spans; otherwise emits those before the error offset, and no longer prefix of the input is valid. |
| `Utf8.DecodingUnique` | src/utf8.c:3-38 | A byte string has one decoding: any two agree as far as the shorter goes. |
| `Utf8.MaximalPrefix` | src/utf8.c:33-35 | If no encoding starts at an offset, the scalars before it are all there are. |
| `PlainText.ComputePlaintextScore` | src/bitstream_filter.c:106-164 | The pass over the bytes yields the specified score and text flags; under six bytes, malformed UTF-8 or a forbidden control score 0. |
| `PlainText.RoundingIsHarmless` | src/bitstream_filter.c:136-162 | Below 2^45 bytes, dividing in binary64 and comparing with the rounded literals gives the same score as the exact ratios, for every rounding to a nearest binary64 value. |
| `Fractions.NearestError` | src/bitstream_filter.c:136-162 | Rounding to a nearest value of the binary64 format, as IEEE 754 defines it, is off by at most 2^-53 of the argument between 2^-45 and 2^45. |
| `Fractions.NearestRounds` | src/bitstream_filter.c:136-162 | Such a rounding exists: a nearest binary64 value is exhibited for every argument from 0 to 2^45, subnormal results included. |
| `Fractions.RoundedAtLeast` | src/bitstream_filter.c:136-162 | A rounded quotient of counts reaches a rounded percentage exactly when the exact one does. |
| `Fractions.RoundedAtMost` | src/bitstream_filter.c:136-162 | The same for staying at or below a percentage. |
| `PlainText.ComputeLooksOpaque` | src/bitstream_filter.c:57-74 | The bucket and popcount loops decide length, byte diversity and bit balance of the bytes with the tail. |
| `PlainText.HighScoresLow` | src/bitstream_filter.c:106-164 | Bytes with no ASCII among them are worth at most 50 as text. |
| `PlainText.PrintableScore` | src/bitstream_filter.c:106-164 | A printable token of eight bytes or more is worth at least 45. |
| `FilterSpec.DecodesUnique` | src/bitstream_filter.c:173-275 | A radix operation has at most one output. |
| `FilterTheorems.EveryCandidateAccounted` | src/bitstream_filter.c:329-433 | Every candidate of the whole search: offset, consumed and ignored bits add up to the source length, assessed and ignored to the tail; its recorded operations, at most eight, replay from the raw bytes to the bytes assessed; depth counts the radix operations and the flags name exactly those used. |
| `FilterTheorems.BetterIsStrictWeakOrder` | src/bitstream_filter.c:292-309 | The ranking is irreflexive, transitive and negatively transitive. |
| `FilterTheorems.SelectionIsMaximal` | src/bitstream_filter.c:311-323 | The winner has the greatest score, no candidate is better, and the tie count is exactly the number that reach its score. |
| `FilterVerdict.GateInversionInvariant` | src/bitstream_filter.c:57-74 | The opaque gate gives inverted bytes, with inverted tail, the same verdict. |
| `FilterVerdict.AnyDecodesPrintable` | src/bitstream_filter.c:173-275 | Whatever a radix decoder accepts is at least eight printable bytes. |
| `FilterGate.QualifyingCannotBeDemoted` | src/bitstream_filter.c:357-374 | If the stream is unexplained and any considered candidate, an untransformed phase or a decoded layer, passes the gate on its bytes with its own tail, the final verdict is POSSIBLE or LIKELY: neither penalties, the wrapper clamp, nor a rival demotes it. |
| `FilterGate.OpaqueCannotBeDemoted` | src/bitstream_filter.c:361-374 | In particular when the untransformed bytes of any of the eight phases pass the gate, a test on the input alone. |
| `FilterGate.WrapperPassesExactly` | src/bitstream_filter.c:361-431 | For every considered candidate whose bytes some radix decoder accepts: it is worth more than 60 without being routed as opaque data if and only if it lies at the deepest layer, does not qualify as opaque, and either scores above 60 as text after the penalties or is carried by a structured signal. |
| `FilterGate.WrapperNeedsContent` | src/bitstream_filter.c:425-431 | So above the deepest layer such a candidate is worth at most 60 unless it is routed as opaque data. |
| `FilterWitness.ThirdWrapperWins` | src/bitstream_filter.c:376-431 | The promise fails: on the digit 3 thirty-two times the selected result itself is a deepest layer, the digit 3 eight times, which still decodes, is not opaque, and makes the verdict POSSIBLE. |
| `FilterWitness.ThirdWrapperPasses` | src/bitstream_filter.c:361-431 | A deepest wrapper can also pass as prose: a concrete thrice wrapped text, still decodable and not opaque, reaches 70 at the deepest layer. That it wins its stream is not claimed; the verdict there is POSSIBLE or LIKELY. |
| `RepeatedDigit.DigitsQuiet` | src/bitstream_filter.c:329-433 | No reading or layer beneath a token of repeated digits 3, through any chain of decoders and bit operations, is worth more than 70 as text. |
| `FilterNodes.ConsideredNode` | src/bitstream_filter.c:329-433 | Every candidate is the scoring of one reading or layer at one phase; with FilterNodes.NodeConsidered, the candidates are exactly those. |
| `FilterTheorems.ReadingReached` | src/bitstream_filter.c:329-433 | Every such node is reached from the raw bytes by operations that replay to its bytes, at most two of them decoders and never more than eight. |
| `FilterNodes.NodeConsidered` | src/bitstream_filter.c:329-433 | Every reading and layer of every phase that is long enough is considered. |
| `FilterNodes.VaryCompose` | src/bitstream_filter.c:458-473 | Reversing and inverting compose: two variants in a row are one variant. |
| `FilterVerdict.WinnerAccounted` | src/bitstream_filter.c:532-581 | From 48 bits on the reported result is a considered candidate with that exact accounting and replay, beaten by none, with the exact tie count. |
| `FilterShort.InsufficientExactly` | src/bitstream_filter.c:571-572 | With the program's own signal the verdict is INSUFFICIENT exactly when the stream has fewer than 48 bits, or its signal is structured, it is whole bytes, nothing in it reads as text, and the preferred aligned reading or layer is a decoded layer of fewer than six bytes: a condition on the input alone. |
| `FilterShort.InsufficientLengths` | src/bitstream_filter.c:571-572 | Above 47 bits that can only happen at 64, 88, 96, 104 or 128 bits. |
| `FilterShort.InsufficientNotLong` | src/bitstream_filter.c:571-572 | For any signal whatever, no stream of more than 142 bits is INSUFFICIENT. |
| `FilterEight.InsufficientAt64` | src/bitstream_filter.c:571-572 | At 64 bits the condition in closed form: structured, nothing reads as text, and either Base32 alphabet, or a padded Base64, accepts the raw bytes. Left aside is only a first layer, or raw bytes, of text score exactly 70. |
| `FilterEight.PlainPreferred` | src/bitstream_filter.c:394-423 | At 64 bits the node that decides is the layer of the first decoder, in the order tried, that accepts the raw bytes, or the raw bytes where none does, as long as it scores below 70 as text. |
| `FilterShort.StructuredInsufficient` | src/bitstream_filter.c:511-581 | The same condition for any purely structured signal, from 48 bits on. |
| `FilterShort.PreferredWins` | src/bitstream_filter.c:292-323 | On whole bytes under a structured signal where nothing reads as text, the selected result is that of the preferred aligned node; if no aligned node qualifies, no aligned candidate reaches 72. |
| `FilterShort.LayerLength` | src/bitstream_filter.c:173-275 | A decoded layer of fewer than six bytes comes only from eight bytes, and one of exactly eight only from 11, 12, 13 or 16. |
| `FilterShort.ShortMustAlign` | src/bitstream_filter.c:292-309 | A short layer at a shifted phase, or in a stream that is not whole bytes, is always outranked by another candidate. |
| `FilterShort.FirstPhaseSpeaks` | src/bitstream_filter.c:329-433 | If a shifted phase of such a stream holds a token, some reading of the first phase scores 72 or more. |
| `Prose.ProseNeedsReturn` | src/bitstream_filter.c:106-164 | Bytes that score 75 and whose inversion and reversal both score as text hold a carriage return. |
| `Prose.ValidShape` | src/bitstream_filter.c:106-164 | Valid UTF-8 starts with no continuation byte, never passes 0xF4, and two continuation bytes in a row follow a lead of 0xE0 or more. |
| `Prose.ProseNeeds` | src/bitstream_filter.c:145-163 | A text score above 70 takes whitespace or a common letter pair. |
| `Wave.WaveIsPeriodic` | src/bitstream_score.c:351-403 | The digit 3 repeated, from 8 to 32 bytes, by the exact costs of the four scorers: the only flag is PERIODIC_STRUCTURE and the score is 72. |
| `FilterEight.TokenIsInsufficient` | src/bitstream_filter.c:571-572 | A 64-bit structured stream that Base32 decodes and in which nothing reads as text is INSUFFICIENT. |
| `FilterWitness.WaveIsInsufficient` | src/bitstream_filter.c:571-572 | The digit 3 eight times, eight whole bytes, is INSUFFICIENT. |
| `FilterVerdict.InsufficientCases` | src/bitstream_filter.c:571-572 | In terms of the result, for any signal: the verdict is INSUFFICIENT exactly below 48 bits, or when the winner is a decoded layer of fewer than six bytes that a structured signal carries. |
| `FilterVerdict.InsufficientIffShort` | src/bitstream_filter.c:571-572 | Without a structured signal it means exactly fewer than 48 bits. |
| `FilterSearch.FilterBest.ConsiderResult` | src/bitstream_filter.c:311-323 | The in-place update keeps the selection over everything considered so far. |
| `FilterSearch.PathAppend` | src/bitstream_filter.c:277-281 | Refuses exactly a full path and otherwise records the operation last. |
| `FilterSearch.MakeByteVariant` | src/bitstream_filter.c:458-473 | Bit by bit, reverses or inverts every byte. |
| `FilterSearch.MakeInterpretation` | src/bitstream_filter.c:439-456 | Reads the whole bytes from a bit offset, reversed or inverted, straight from the packed stream. |
| `FilterSearch.AssessBytesInto` | src/bitstream_filter.c:329-433 | Considers exactly the specified candidates in order, returns Ok always (the path never fills) and ends. |
| `FilterSearch.AssessVariantsInto` | src/bitstream_filter.c:475-508 | The same for the four bit variants of a decoded layer. |
| `FilterSearch.Filter` | src/bitstream_filter.c:510-583 | Accepts exactly the valid streams; its report is the selection over all phases, readings and decoded layers. |
| `Composite.GlueSourceOrder` | src/composite.c:15-59 | Exact status: succeeds exactly on a nonempty list of well-formed, pairwise disjoint events, and gives their bits in offset order; on failure the output is empty. |
| `Composite.ChainedIffDisjoint` | src/composite.c:41-47 | In sorted order comparing neighbours decides disjointness of all pairs. |
| `Composite.OrderUnique` | src/composite.c:40 | Disjoint events have one order by offset, so an unstable sort cannot show. |
| `Composite.GlueIgnoresOrder` | src/composite.c:15-59 | Any permutation of the events glues to the same bits. |
| `Composite.GlueChained` | src/composite.c:40-51 | Events already in source order glue to their plain concatenation and nothing else. |
| `UnicodeProperties.InRanges` | src/unicode_properties.c:49-64 | On a sorted table the halving search answers exactly whether some range holds the code point. |
| `UnicodeProperties.TableSorted` | src/unicode_properties.c:12-19 | The pinned default-ignorable table is sorted and disjoint. |
| `Bidi.TopCloses` | src/module_unicode.c:66-67 | At a PDI the frame on the stack top is the one opener it matches in the text, and records whether anything visible lies between. |
| `Bidi.TrackCloser` | src/module_unicode.c:66-77 | Popping, with the hand-over of visibility, leaves a stack that again lists the open isolates and what they contain. |
| `Bidi.ClosedIsMatched` | src/module_unicode.c:64-78 | An opener's nesting has returned to zero exactly when some PDI matches it. |
| `Bidi.BalancedMatchesAll` | src/module_unicode.c:54-81 | Empty isolates are among the matched, the matched among the openers; text that ends at depth 0 has every opener matched. |
| `Bidi.IsolateScan.ScanScalar` | src/module_unicode.c:54-81 | One scalar keeps counters and stack equal to the bracket-matching definition. |
| `Bidi.ScanIsolates` | src/module_unicode.c:54-81 | Matched, empty, after-Arabic and stray counts are those of bracket matching; the overflow counter is zero exactly when nesting never passes 128. |
| `Bidi.IsolateScan.RoundingIsHarmless` | src/module_unicode.c:373-400 | Below 2^45 scalars, comparing the quotients in binary64 decides the isolate finding as the exact ratios do. |
| `Bidi.IsolateScan.ReportMeans` | src/module_unicode.c:373-400 | When the isolate finding is reported, in terms of the scalars of the text alone, their number and its bidi controls included: recurrent and mixed openers, mostly empty and dense, never too deep, balanced. The nine-tenths test on matched openers decides nothing. |
| `Identity.ScanPair` | src/module_identity.c:51-81 | For each registered pair the scan appends one bit per occurrence of either spelling anywhere in the input, in order, and counts and spans them. |
| `Identity.EmitPairSymbols` | src/module_identity.c:83-107 | The reporting scan emits exactly those occurrences. |
| `Identity.EveryOccurrence` | src/module_identity.c:51-107 | An event is in the list exactly when a spelling is found at its offset. |
| `Identity.TokensApart` | src/module_identity.c:54-79 | No spelling can start inside another, so jumping over one misses none. |
| `Identity.OccurrencesChained` | src/module_identity.c:83-107 | The reported spans increase and never overlap. |
| `Identity.ReportsGlueToDecoded` | src/module_identity.c:51-107 | Gluing the reports gives exactly the decoded bits, and there are none on one side exactly when there are none on the other. |
| `Identity.IdentityDecode` | src/module_identity.c:142-161 | EUTF8 exactly on malformed input, ENOTFOUND exactly when no spelling occurs, otherwise the occurrence bits. |
| `ImplicitBidi.LineStep` | src/module_unicode.c:271-302 | One line contributes a symbol exactly when the whole line is one of the two spellings. |
| `ImplicitBidi.ScanImplicitBidi` | src/module_unicode.c:265-304 | The line scan reports and tallies every such line; an unterminated last line never counts. |
| `ImplicitBidi.DecodeImplicitBidi` | src/module_unicode.c:497-516 | The decoder's own line loop writes the bits of the same records. |
| `ImplicitBidi.RecordsAgree` | src/module_unicode.c:265-304 | Gluing the reported records gives exactly the decoded bits. |
| `UnicodeLanes.SymbolScan.ScanScalar` | src/module_unicode.c:82-230 | One scalar adds exactly the counts, observations and, in each of the five reporting lanes, the symbol it stands for. |
| `UnicodeLanes.SymbolScan.EmitSymbol` | src/module_unicode.c:140-225 | Its symbols alone: in each lane exactly the one the scalar and the state before it determine. |
| `UnicodeCensus.Census.ScanScalar` | src/module_unicode.c:82-230 | Every counter, with the offset of its first, and the list of observations are those of the text read so far. |
| `UnicodeCensus.CounterMeans` | src/module_unicode.c:82-220 | A counter is the number of scalars of its kind, and its first is the byte offset of the earliest of them, 0 where there is none. |
| `UnicodeCensus.ObservationSpans` | src/module_unicode.c:82-137 | An observation covers one scalar, or that scalar and all of the one before it, and ends exactly where the scalar ends. |
| `UnicodeProperties.OtherTablesSorted` | src/unicode_properties.c:21-48 | The White_Space, Cc and Cf tables are sorted and disjoint as well, so the halving search decides them too. |
| `UnicodeLanes.DetectSymbols` | src/module_unicode.c:324-336 | On valid UTF-8 each lane's reports are the lane's symbols with their spans; on malformed input nothing is reported. |
| `UnicodeLanes.PayloadStep` | src/module_unicode.c:186-190 | The in-payload flag is exactly: a tag payload was begun and not cancelled since. |
| `UnicodeLanes.LaneChained` | src/module_unicode.c:140-225 | Within a lane the reported spans increase and never overlap. |
| `UnicodeLanes.LanesAgree` | src/module_unicode.c:446-495 | For the tag, zero-width, variation, Mongolian and isolate lanes, gluing the reports gives exactly the decoded bits; nothing is reported exactly when nothing is decoded. |
| `UnicodeLanes.DecodeState.DecodeScalar` | src/module_unicode.c:446-495 | In each of the seven lanes, alphabets and iteration marks included, one scalar appends exactly the bits it stands for, or a part of them with EINVAL exactly when the length would pass SIZE_MAX. |
| `UnicodeLanes.UnicodeDecode` | src/module_unicode.c:547-594 | Exact status for every lane and alphabet, an unusable alphabet and an overlong output included; on malformed input the symbols before the error have been written. |
| `Strip.ReparseAgrees` | src/search.c:96-102 | On an encoding, the length and value read without checks are those of the strict scanner. |
| `Strip.StripIsFilter` | src/module_unicode.c:518-545 | Stripping gives the encoding of the scalars that are not ignorable, hence valid UTF-8, and a second pass changes nothing. |
| `Strip.StripKnownIgnorables` | src/module_unicode.c:518-545 | The decoder variant writes exactly those bytes, or reports EUTF8 exactly on malformed input and EINVAL, with a prefix written, exactly when they pass SIZE_MAX bits. |
| `Search.AsciiCasefold` | src/search.c:51-62 | Lower-cases ASCII letters and keeps every origin. |
| `Search.CollapseHorizontal` | src/search.c:64-81 | Each run of blanks becomes one space with the run's first origin. |
| `Search.DeleteHorizontal` | src/search.c:83-94 | Keeps exactly the bytes that are not blanks, with their origins. |
| `Search.StripIgnorable` | src/search.c:105-124 | Keeps exactly the cells of the scalars that are not ignorable. |
| `Search.CollapseSettles` | src/search.c:64-81 | A collapsed text has no tab and no two blanks in a row, and is its own collapse. |
| `Search.DeleteAfterCollapse` | src/search.c:64-94 | Collapsing before deleting changes nothing. |
| `Search.RunChain` | src/search.c:126-141 | Runs the steps left to right and fails with the status of the first that fails. |
| `Search.ChainTraces` | src/search.c:41-141 | Through any chain origins stay in bounds and strictly increasing, and each output byte is made from the source byte its origin names. |
| `Search.Search` | src/search.c:143-169 | Reports exactly the occurrences of each transformed needle, in chain, needle and position order, up to the first chain that fails, and all of them if none does. |
| `Search.SourceOffsetTrue` | src/search.c:160-164 | A reported source offset lies in the haystack and names the byte the match's first byte was made from. |
| `Bidi.OneCloser` | src/module_unicode.c:64-78 | An opener is matched by at most one PDI. |
| `Bidi.IsolateScan.PushOpener` | src/module_unicode.c:54-63 | An opener is pushed with what precedes it, or counted as overflow exactly when nesting passes 128. |
| `Bidi.IsolateScan.PopIsolate` | src/module_unicode.c:64-78 | A PDI closes the innermost open isolate, tallies it, and passes its visible content outwards; at depth 0 it is counted as unmatched. |
| `Bidi.IsolateScan.PopFrame` | src/module_unicode.c:66-77 | The top frame is tallied, removed, and hands its visibility to the frame below. |
| `Bidi.IsolateScan.TallyFrame` | src/module_unicode.c:68-75 | A closed frame of the two bit openers counts as matched, and as empty or empty after Arabic by what it contains. |
| `Bidi.IsolateScan.MarkContent` | src/module_unicode.c:79-81 | Any other scalar marks the innermost open isolate unless it is default-ignorable. |
| `ImplicitBidi.ImplicitBidiDecode` | src/module_unicode.c:567-572 | Malformed UTF-8 is refused before any record is read. |
| `ImplicitBidi.LineEnd` | src/module_unicode.c:274 | Finds the first line feed at or after an offset, or the end. |
| `UnicodeLanes.DecodeState.DecodeValue` | src/module_unicode.c:436-444 | Appends a value of up to eight bits one bit at a time, in the declared order. |
| `UnicodeLanes.DecodeState.AppendSymbol` | src/module_unicode.c:446-491 | The branch of each lane appends the bits of the symbol at that scalar, and nothing where there is none. |
| `UnicodeLanes.DecodeState.Remember` | src/module_unicode.c:449-494 | The remembered previous scalar, payload flag and first iteration mark are again those of the text read so far. |
| `UnicodeLanes.CheckAlphabet` | src/module_unicode.c:579-586 | Accepts exactly alphabets with symbols, a width of 1 to 8 and values that fit it. |
| `UnicodeLanes.FindEntry` | src/module_unicode.c:473-479 | Finds the value of the first entry for a code point, or that there is none. |
| `Strip.AppendBytes` | src/module_unicode.c:536-539 | Appends whole bytes, eight bits each, up to the first that does not fit. |
| `Search.Text.Push` | src/search.c:27-40 | One byte and its origin go at the end, together. |
| `Search.Text.CopyRange` | src/search.c:41-49 | Copies a range of bytes with their origins. |
| `Composite.AppendInOrder` | src/composite.c:41-51 | Appends the events until two neighbours overlap; succeeds exactly when none do. |
| `Surface.AppendSymbols` | src/module_surface.c:52-56 | The second pass appends every symbol, most significant bit first. |
| `PlainText.CheckClean` | src/bitstream_filter.c:35-42 | Decides whether any scalar is a forbidden control. |
| `PlainText.Popcount` | src/bitstream_filter.c:44-51 | Counts the one bits of a byte. |
| `MarkovScorers.CountMismatches` | src/bitstream_score.c:118-119 | Counts the positions that differ from the bit a fixed lag before. |
| `MarkovScorers.ComputePeriodCost` | src/bitstream_score.c:212-220 | Price and mismatches of one period. |
| `MarkovScorers.BestPeriod` | src/bitstream_score.c:211-226 | The earliest cheapest period up to the bound, if any has a finite cost. |
| `Kt.ComputeTerm` | src/bitstream_score.c:89-91 | The price of one symbol as the wrapping 64-bit difference. |
| `LinearScorer.Discrepancy` | src/bitstream_score.c:321-324 | The parity loop decides whether the register predicts the bit wrongly. |
| `LinearScorer.Update` | src/bitstream_score.c:326-333 | The three array loops add the shifted previous register and save the old one exactly when the length grows. |
| `FilterSearch.TryDecode` | src/bitstream_filter.c:394-423 | One radix decoder by operation; no output exactly when the token decodes to nothing. |
| `FilterSearch.TryRadixInto` | src/bitstream_filter.c:394-412 | If the bytes decode, considers exactly the candidates beneath the decoded layer, with the operation recorded. |
| `FilterSearch.MakeByteAt` | src/bitstream_filter.c:444-452 | Eight stream bits from an offset, reversed or inverted, as a byte. |
| `FilterSearch.CountTail` | src/bitstream_filter.c:548-551 | Counts the one bits after the last whole byte of a phase. |
| `FilterSearch.AssessPhaseInto` | src/bitstream_filter.c:541-569 | Considers the four bit variants of one phase, in order. |
| `Reports.RunsReport` | src/bitstream_score.c:110-132 | Up to 2^40 bits the runs description is 65536 plus the closed form of the two counts of neighbours that agree and differ, the statistic is the number of positions that differ from the one before, and ratio, length and flags follow. |
| `Reports.KtReport` | src/bitstream_score.c:160-189 | Up to 2^40 bits the order-k report assesses every bit, its ratio is the description over the length rounded down, and its only flag is the short-sample one. |
| `Reports.PeriodicReportsMinimum` | src/bitstream_score.c:191-232 | Up to 2^40 bits the description is (p + ceil(log2(m + 1))) * 65536 plus the closed form of the agreeing and differing positions at lag p, m being the number of periods tried and the statistic the number that differ; no period tried has a smaller one, and no shorter period as small a one. |
| `Reports.Lz78Report` | src/bitstream_score.c:248-289 | The statistic is the number of phrases, a repeated last one included, the parameter the number of entries, and the description the length of the decodable code times 65536, clamped; the limit flag is raised exactly when not every bit was assessed. |
| `Reports.DefaultReport` | src/bitstream_score.c:360-373 | The four scorers are run at order 1, period 8 and a dictionary of as many entries as there are bits, at least 1 and at most 65536. |
| `Reports.ClassExactly` | src/bitstream_score.c:379-401 | From 24 bits on, each of the four flags, with its score, is equivalent to a condition on descriptions: being shorter than three quarters of a bit, and a share that shrinks with the length, per assessed bit, in the order simple, periodic, dictionary. |
| `Reports.TooShortToClass` | src/bitstream_score.c:375-378 | Below 24 bits the report is the short-sample flag and a score of 0. |
| `Repetition.RepetitionIsDictionary` | src/bitstream_score.c:394-397 | 1000 to 500000 copies of any irregular word of 9 to 64 bits, one whose ones, changes at lags 1 to 8 and successors are mixed going round, are reported as dictionary structure with score 72. |
| `Repetition.ResiduesIrregular` | src/bitstream_score.c:394-397 | The quadratic residues modulo 11 are such a word. |
| `Repetition.FewEntries` | src/bitstream_score.c:249-280 | k copies of a word that are shorter than all its windows up to length q together make fewer than q dictionary entries for each place in the word. |
| `Repetition.WindowsLong` | src/bitstream_score.c:249-280 | Distinct windows of a repeated word cannot all be short: a bound on their total length by their number. |
| `Repetition.ChangesCounted` | src/bitstream_score.c:191-232 | The mismatches of a repetition at a lag are those of its word going round, times the copies, up to the first positions. |
| `Repetition.ClosedMixed` | src/bitstream_score.c:81-96 | In the adaptive code each symbol of the rarer kind is worth at least two bits. |
| `FilterLadder.VerdictMeans` | src/bitstream_filter.c:571-579 | A verdict that is not INSUFFICIENT is LIKELY exactly when some candidate scores 90, POSSIBLE exactly when some scores 70 and none 90, and REJECT exactly when none scores 70. |
| `FilterLadder.LadderExactly` | src/bitstream_filter.c:571-579 | On the bits alone, under the reported signal: LIKELY exactly when a reading or layer that no decoder accepts further is worth 90 as text; REJECT exactly from 48 bits on when none is worth 70, the stream is not structured, and in an unexplained stream nothing below 70 passes the opaque gate. |
| `FilterLadder.AlignedProse` | src/bitstream_filter.c:571-579 | Aligned bytes that no decoder accepts and whose text score is at least 90 are LIKELY. |
| `FilterMeaning.PriceOfAlterations` | src/bitstream_filter.c:340-345 | Text is worth nothing or at least 40, and a reading loses exactly five points for each of a shifted phase, a reversal and an inversion. |
| `FilterMeaning.FlagsMean` | src/bitstream_filter.c:340-431 | Of any node, when each of the text, opaque and structured flags is raised, what score it gets, and when the partial last byte counts as assessed. |
| `FilterMeaning.BetterIsLexicographic` | src/bitstream_filter.c:283-309 | One result is better exactly when its list of merits is lexicographically greater: score, early phase, bits consumed, few bit operations, depth, opaque routing. |
| `FilterMeaning.EarliestWins` | src/bitstream_filter.c:311-323 | The result kept is better than every one considered before it, and none considered after it is better. |
| `FilterMeaning.OpaqueMeans` | src/bitstream_filter.c:57-74 | The gate passes exactly at sixteen bytes or more with eight values among them and neither ones nor zeros, tail included, more than three short of a quarter of the bits. |
| `FilterMeaning.RawIsStream` | src/bitstream_filter.c:433-456 | The raw bytes of a phase followed by its tail are the stream from the offset on. |
| `FilterMeaning.PathsAreBare` | src/bitstream_filter.c:393-405 | The flags a path brings to a candidate name operations and nothing else. |
| `FilterMeaning.VariantBit` | src/bitstream_filter.c:458-473 | Each bit of a variant is the bit of the same byte in the same or mirrored place, inverted if asked. |
| `TextMeaning.TallyMeans` | src/bitstream_filter.c:121-144 | Each count of the pass is the number of positions of its kind, pairs of letters and listed pairs in reading order included; there is a tally exactly when no byte is a control. |
| `TextMeaning.ListedMeans` | src/bitstream_filter.c:94-104 | The pair loop finds exactly the entries of the list, both letters in order. |
| `TextMeaning.ScoreMeans` | src/bitstream_filter.c:106-164 | The score and the two text flags in terms of the numbers of positions of each kind, with the percentages as inequalities; 0 exactly below six bytes or when the bytes are not the encoding of scalars free of controls. |
| `Alphabets.AlphabetMeans` | src/module_surface.c:5-24 | A byte has value v exactly when it is symbol v of the alphabet written out, for the two RFC 4648 alphabets and Crockford's. |
| `Alphabets.ValueMeans` | src/bitstream_filter.c:184-241 | In the filter's decoders a byte has value v exactly when, folded to the radix's case, it is symbol v of the table of RFC 4648. |
| `Alphabets.HexListed` | src/bitstream_filter.c:166-171 | Likewise for the sixteen digits, in either case. |
| `Alphabets.CrockfordRoundTrip` | src/module_surface.c:26-62 | A spelling of any list of five-bit values is accepted and decodes to the five bits of each value in turn. |
| `Alphabets.CrockfordSpelled` | src/module_surface.c:26-62 | Whatever is accepted spells such a list. |
| `Alphabets.CrockfordInjective` | src/module_surface.c:26-62 | Different accepted tokens decode to different bits. |
| `Alphabets.OneReading` | src/module_surface.c:5-24 | In each of the three alphabets different lists have different spellings. |
| `Utf8Octets.EncodeMeans` | src/utf8.c:14-28 | The octets of a scalar are the marker bits of section 3 of RFC 3629 followed by the bits of the scalar in order, in the shortest form with room for them. |
| `LaneSpelling.ZeroWidthReads` | src/module_unicode.c:455-457 | A bit list written with U+200B and U+200C is read back. |
| `LaneSpelling.IsolateReads` | src/module_unicode.c:468-470 | A bit list written with U+2066 and U+2067 is read back. |
| `LaneSpelling.MongolianReads` | src/module_unicode.c:463-467 | A bit list written with the base letter and one of two selectors for each bit is read back. |
| `LaneSpelling.IterationReads` | src/module_unicode.c:480-490 | A bit list written in pairs, any scalar but the comma repeated for 0, or followed by the iteration mark it is not itself for 1, is read back. |
| `LaneSpelling.TagsRead` | src/module_unicode.c:449-454 | Printable bytes written in tags between the begin and the cancel tag are read back. |
| `LaneSpelling.VariationReads` | src/module_unicode.c:458-462 | Bytes written as two selectors each, high nibble first, are read back. |
| `LaneSpelling.MapReads` | src/module_unicode.c:471-479 | With distinct code points, a text made of entries of the map gives the bits of their values, in the order asked for. |
| `LaneSpelling.MapInjective` | src/module_unicode.c:471-479 | With distinct values too, different lists of entries give different bits. |
| `LaneSpelling.EveryReport` | src/module_unicode.c:140-225 | In each reporting lane an event is reported exactly when some scalar stands for a symbol, with that scalar's offset and length and the symbol's value and width. |
| `PairSpelling.WrittenReads` | src/module_identity.c:51-81 | Any bit list written as a choice between the two spellings of a readable pair is read back. |
| `PairSpelling.RegisteredReadable` | src/module_identity.c:7-49 | All registered pairs are readable, and so are the records of the implicit-bidi lane. |
| `SearchMeaning.FoldMeans` | src/search.c:51-62 | Casefolding keeps every cell and lowers exactly the ASCII capitals. |
| `SearchMeaning.DeleteMeans` | src/search.c:83-94 | A cell is left exactly when it was there and holds neither a space nor a tab. |
| `SearchMeaning.CollapseMeans` | src/search.c:64-81 | A cell is left exactly when it is a byte that is not blank, or the space standing for a run, at the run's first origin. |
| `SearchMeaning.OrderSettles` | src/search.c:51-94 | Two texts in source order that hold the same cells are the same text. |

## Left out

- Allocation failure: allocation always succeeds, so ENOMEM appears only where the code returns it for a size overflow.
- NULL arguments, the module registry, dispatch on module and variant names, callbacks that stop early, and the identifiers and scores of findings; a codepoint alphabet passed with the wrong size.
- `realloc` in place: a buffer that grows has a fresh array.
- Composite.SortEvents: stands for `qsort` as some permutation sorted by the comparator; it is an insertion, and nothing is claimed of the algorithm.
- PlainText.ComputePlaintextScore: the fractions are compared as exact ratios of integers, which is what the doubles decide below 2^45 bytes (PlainText.RoundingIsHarmless); beyond that nothing is claimed of the doubles. Likewise Bidi.IsolateScan.ReportMeans. Nothing is claimed of the quality of the thresholds or the letter-pair table.
- FilterShort.InsufficientExactly: is stated for the signal the program computes, which is never structured and unexplained at once; for an arbitrary signal FilterVerdict.InsufficientCases and FilterShort.InsufficientNotLong hold.
- FilterEight.InsufficientAt64: leaves aside a first layer, or raw bytes, of text score exactly 70, where altered readings come into play; FilterShort.InsufficientExactly decides those too.
- FilterWitness.ThirdWrapperPasses: does not say which candidate wins its stream.
- Kt.TermExact: from 2^63 - 1 earlier bits on the term may wrap (Kt.TermWraps), so the closed forms are stated below 2^63 bits.
- PlainText.ComputeLooksOpaque: the bitmap of seen byte values is an array of 256 flags.
- LinearScorer.ScorerLinear: the polynomial arrays hold truth values instead of 0 and 1 bytes; the clamp on lengths that cannot occur is proved not to fire.
- FilterSearch.Filter: the buffers of intermediate bytes are sequences; `FilterBest` carries the list of everything considered as a ghost field.
- Identity.ScanPair: the detection pass, which counts without an output, is the same loop with the output ignored. The promotion thresholds of the identity and implicit-bidi findings are not modelled.
- UnicodeLanes.SymbolScan.ScanScalar: how observations and symbols interleave in one stream of callbacks; the findings made of the counters, other than the isolate finding, are not modelled.
- Search.Text: the origins and bytes are sequences; the doubling of their capacity is that of the buffer. Chains hold the built-in transforms or an empty step; transforms supplied by a caller are not modelled.
- The CESU lane, whose decoder writes symbols its detector does not report without a CESU pair, and the layout, markdown, Gemtext, line-ending, case and feature extractors, which repeat the scan shapes proved here.
- The contents of the Unicode tables: the four tables of ranges are copied and proved sorted; that they match the Unicode database is not claimed.
- The whole-byte `dedsec_decode`, which copies the first length / 8 bytes of a decoded stream.
- Repetition.RepetitionIsDictionary: bounds the word by 64 bits and the copies by 500000, far enough from the 65536 entries at which the dictionary fills up; which other streams have the flag is told by Reports.ClassExactly in terms of descriptions.
- The letter-pair list and the table of logarithms are constants copied from the code.
- True logarithms: the fixed-point table is taken as given, with no bound on its distance from the logarithm.
- The programs under `tools/` and the experiments.
