# NEXCOMP in Dafny

NEXCOMP compresses a file in blocks of 4 MiB. Each block goes to the codec that makes it
smallest, and every codec is a stack of hand-written integer coders, sorters, match indexes
and combinatorial codes. Each of them is only useful if its decoder undoes it, for every input
and whatever the heuristics chose on the way. This project models those layers and proves it.

How the files fit together:

- **Coders.** `RangeCoding` is the carry-propagating range coder over exact integers, and
  `RangeCoder` its 32-bit machine with cache byte and pending 0xFF bytes; `AdaptiveModel`
  puts adaptive bits, trees and reverse trees on top. `CarrylessCoder` is the carry-less
  32-bit coder for any deterministic predictor. `Rans` and `RansCoder` are the byte-wise
  asymmetric numeral system, `FrequencyTables` its normalised tables, `ContextModel` its
  order-1 use.
- **LZMA.** `Lzma` states the token format as a state machine against an abstract symbol
  decoder, `LzmaCodec` runs it; `MatchTree` and `MatchFinder` are the binary-tree match
  finder as a search tree and as the slot array that is rewired in place; `ParseEdges` and
  `OptimalParse` are the price-driven parse, and `LzmaStates` says what states and queue record.
- **Sorting.** `Suffixes`, `InducedSort`, `LmsNames` and `Sais` are suffix sorting by
  induction; `Bwt`, `ContextMixing` and `BwtCodec` the transform, its model and its container.
- **PPM.** `PpmTables` and `PpmCodec`: escapes with exclusion over the range coder.
- **LZ77 and Huffman.** `CodeLengths`, `HuffmanTree`, `HuffmanCodes`, `CanonicalCode`,
  `DecodeTable`, `BitStream`, `LzTokens`, `HuffmanBlock`, `HuffmanCodec` and
  `HuffmanContainer` lead from frequencies to decoded token blocks, and `HuffmanOptimality`
  and `BlockOptimality` show lengths and blocks best; `HashChains` is the match finder, `Lz77` the encoder and decoder,
  `ShortestParse` its shortest-path parser.
- **MinMask.** `BerlekampMassey`, `BigNat`, `Binomials`, `Enumerative`, `MsbStream`, `Masks`,
  `MaskCodes`, `Residual`, `ResidualCodec` and `MinMask`. The residual that stores a light
  pattern as a remainder rests on its own theory: `GaloisField`, `PrimitiveElements`,
  `FieldProducts`, `FieldPolynomials`, `FieldSums` and `FieldRegisters` are the fields of 2^8
  to 2^13 elements, `BchSyndrome`, `BinaryPolynomials`, `MinimalPolynomials` and
  `BchGenerator` the codes, `BchLocator`, `BchDecoder` and `BchResidual` the decoder.
- **Grammars.** `Grammar` and `RePair`.
- **Delta, runs and strides.** `OrderZero` codes bytes under their own counts; `DeltaAns`,
  `RunLengths` with `RleHuffman`, and `StrideCm` are three small codecs of the container.
- **The container.** `BlockCodecs`, `BcjFilter` and `Container`: the whole file with all
  eight codecs, out and back.

Each layer has a pure specification, methods or classes that run the way the program runs
(fields, arrays and loops) and are proved to compute it, and lemmas about the specification.
Choices that floating point, clocks or threads make in the program are parameters here, and
the results hold for all of them.

Check everything with `dafny verify dfyconfig.toml`.

## Model

| member | source | states |
|---|---|---|
| `RangeCoding.RangeCoderRoundTrip` | src/range_coder.rs:42-233 | for every list of codable decisions (adaptive bits, direct bits and frequency symbols mixed in any order) the finished stream has at least five bytes, starts with 0, and a fresh decoder reads every decision back |
| `RangeCoding.CodeInRange` | src/range_coder.rs:140-233 | a decoder in step with the encoder has 0 <= code < range, code being the value read so far minus the interval's exact lower end |
| `RangeCoding.SyncStep` | src/range_coder.rs:164-233 | in step, the code falls in the slice of the decision that was coded, and taking that slice keeps decoder and encoder in step |
| `RangeCoding.SliceFits` | src/range_coder.rs:42-104 | a decision's slice is never empty and never leaves the interval; after an adaptive bit the range still needs at most one renormalisation |
| `RangeCoding.SlicesTile` | src/range_coder.rs:42-104 | the slices of a decision's outcomes tile the interval in order: a clear bit below a set one, symbols by where their frequencies start, the last symbol up to the end |
| `RangeCoding.AdaptWidens` | src/range_coder.rs:42-51 | a bit coded makes its own slice wider the next time and the other bit's narrower, for every range, strictly unless the probability stands at its end, 31 for a set bit and 2017 for a clear one; the decoder adapts alike (lines 197-209) |
| `RangeCoding.ReadsFreq` | src/range_coder.rs:175-194 | the target read for a frequency symbol lies in that symbol's own interval, and consuming the interval keeps the decoder in step |
| `RangeCoding.ReadsDirect` | src/range_coder.rs:218-233 | subtracting with wrap-around and testing the sign bit returns the direct bit that was coded |
| `RangeCoder.CarryRipples` | src/range_coder.rs:115-133 | adding the carry to the cached byte and flushing turns every pending 0xFF into 0 and leaves the exact sum |
| `RangeCoder.RangeEncoder.ShiftLow` | src/range_coder.rs:115-133 | one byte leaves the 64-bit window; output, cache and pending 0xFF bytes with `low` still stand for the exact lower end, and a carry never falls off a full cache byte |
| `RangeCoder.RangeEncoder.EncodeBit` | src/range_coder.rs:42-56 | the machine words stand for the exact interval after the adaptive bit, and the probability returned is the one adapted towards the bit coded |
| `RangeCoder.RangeEncoder.EncodeDirectBits` | src/range_coder.rs:59-70 | the same after `count` direct bits, high bit first |
| `RangeCoder.RangeEncoder.EncodeFreq` | src/range_coder.rs:89-104 | the same after a frequency symbol, whose interval may need several shifts |
| `RangeCoder.RangeEncoder.Finish` | src/range_coder.rs:107-112 | the bytes written are the exact lower end of the final interval, so they are a stream for the decisions coded |
| `RangeCoder.RangeDecoder.DecodeBit` | src/range_coder.rs:197-215 | the bit and the new state are those of the exact reader, for any input, and the probability returned is the one adapted towards the bit read |
| `RangeCoder.RangeDecoder.DecodeDirectBits` | src/range_coder.rs:218-233 | the value and the new state are those of the exact reader, wrap-around included |
| `RangeCoder.RangeDecoder.DecodeFreq` | src/range_coder.rs:182-194 | the interval consumed moves the exact reader on |
| `AdaptiveModel.AdaptiveRoundTrip` | src/range_coder.rs:42-83 | coder and adaptive probabilities together: a decoder of a finished stream reads back the symbols, with probabilities equal on both sides at every step |
| `AdaptiveModel.GetsTree` | src/codecs/lzma_style.rs:77-93 | a bit tree read in step returns the value written |
| `AdaptiveModel.GetsReverse` | src/codecs/lzma_style.rs:110-139 | a reverse bit tree read in step returns the value written |
| `AdaptiveModel.AdaptiveEncoder.PutTree` | src/codecs/lzma_style.rs:233-258 | the tree loop codes exactly the symbols of the value's path |
| `AdaptiveModel.AdaptiveDecoder.TakeTree` | src/codecs/lzma_style.rs:242-267 | the tree loop reads the node the specification reaches, on any stream |
| `Lzma.SlotSpans` | src/codecs/lzma_style.rs:33-49 | every 32-bit distance lies in the span base .. base + 2^bits of its own slot, and slots stay below 64 |
| `Lzma.GetsDist` | src/codecs/lzma_style.rs:142-201 | every distance read in step comes back, through direct slots, modelled low bits or direct bits with aligned low bits |
| `Lzma.GetsLen` | src/codecs/lzma_style.rs:269-296 | every length 2 .. 273 read in step comes back |
| `Lzma.GetsMatched` | src/literal_coder.rs:62-117 | a literal coded against the byte a match predicts comes back, before and after the first differing bit |
| `Lzma.GetsToken` | src/codecs/lzma_style.rs:747-825 | one token of lockstep: decoder and encoder move to the same bytes, state and distance queue |
| `Lzma.TokenGrows` | src/codecs/lzma_style.rs:747-825 | on any stream a decoded token adds at least one byte, so the decoder ends |
| `Lzma.EncodingUnique` | src/codecs/lzma_style.rs:649-741 | a parse has one encoding, byte for byte |
| `LzmaStates.StateTells` | src/lzma_state.rs:9-51 | after any tokens the state is the one their last kinds of packet name: the transition tables record what the last literals and matches were |
| `LzmaStates.LiteralStates` | src/lzma_state.rs:9-51 | the states below 7 are exactly those whose last token was a literal, so only they code a literal plainly |
| `LzmaStates.QueueMoves` | src/codecs/lzma_style.rs:303-309 | a match puts its distance in front of the other distances of the queue in their order, each once |
| `LzmaStates.CellsApart` | src/codecs/lzma_style.rs:95-108 | no two slots share a probability of the modelled low bits |
| `Lzma.LzmaRoundTrip` | src/codecs/lzma_style.rs:649-825 | decoding what was encoded for `data` under any parse the format can express returns `data` |
| `LzmaCodec.EncodeTokens` | src/codecs/lzma_style.rs:649-741 | the payload is a header word and a stream of the parse's symbols |
| `LzmaCodec.EncodeToken` | src/codecs/lzma_style.rs:665-735 | state machine, distance queue and bits written move as one token says |
| `LzmaCodec.DecodeBlock` | src/codecs/lzma_style.rs:747-825 | bytes or error exactly as the decoding specification gives, on any payload |
| `LzmaCodec.RoundTrip` | src/codecs/lzma_style.rs:649-825 | encode and decode run one after the other return the data |
| `MatchTree.SplitOrdered` | src/codecs/lzma_style.rs:456-507 | splitting a search tree at a position keeps the search order; the halves lie on their sides of the position |
| `MatchTree.SharedPrefix` | src/codecs/lzma_style.rs:456-507 | every node of the subtree reached shares the shorter of the two known prefixes with the position, so the comparison may start there |
| `MatchFinder.Finder.Insert` | src/codecs/lzma_style.rs:456-507 | rewiring the slots in place makes the position the root over the split old tree, leaves every other bucket's tree alone, keeps children older than parents and the search order, and reports exactly the matches the walk down the old tree meets |
| `MatchFinder.MetMatches` | src/codecs/lzma_style.rs:456-507 | those are true matches inside the window, each longer than the one before |
| `MatchTree.NearMatchMet` | src/codecs/lzma_style.rs:456-507 | a walk that neither the depth limit nor the window cuts misses no node of the tree: a reported match is at least as near as the node and as long as the stretch it shares with the position |
| `MatchTree.FarSide` | src/codecs/lzma_style.rs:494-502 | what the walk leaves aside shares no more with the position than the node it turned at |
| `MatchTree.StaysRepresented` | src/codecs/lzma_style.rs:488-493 | while nothing is cut, every position inserted stays in its tree or has given way to a later one that equals it as far as that one is compared |
| `MatchFinder.NearMatchReported` | src/codecs/lzma_style.rs:445-508 | so, while nothing is cut, no earlier position of the block is missed: whichever agrees on three bytes or more, a reported match is as near and as long |
| `MatchFinder.Inserted` | src/codecs/lzma_style.rs:445-508 | all buckets stay ordered search trees after an insertion |
| `ParseEdges.StayDifferent` | src/codecs/lzma_style.rs:303-309 | the four queue entries stay distinct |
| `ParseEdges.OffersSound` | src/codecs/lzma_style.rs:532-601 | every edge out of a position is a true match the format can express there, and the next position is inside the data |
| `ParseEdges.RepeatsOffered` | src/codecs/lzma_style.rs:541-563 | a recent distance that repeats fewer than 64 bytes is offered at every length it repeats for, the most recent one for a single byte too |
| `ParseEdges.LongestIsLongest` | src/codecs/lzma_style.rs:539-583 | nothing that repeats at the position is longer than the edge a long match is committed to |
| `ParseEdges.TreeRepresents` | src/codecs/lzma_style.rs:445-508 | while nothing cuts the walks, every position inserted is represented in the tree of its hash |
| `ParseEdges.EveryLengthOffered` | src/codecs/lzma_style.rs:541-589 | while no walk is cut and no long match committed to, a position that agrees with an earlier one on some length has an edge of exactly that length, at a distance no greater |
| `OptimalParse.EdgeLeads` | src/codecs/lzma_style.rs:512-627 | taking an edge extends a parse of the first bytes to a parse of more bytes, with the queue the replay would have |
| `OptimalParse.TryEdge` | src/codecs/lzma_style.rs:522-529 | trying an edge keeps: no edge tried still improves its end, a way found later is strictly cheaper, and every entry was reached along an offered edge at exactly its cost |
| `OptimalParse.ExpandStays` | src/codecs/lzma_style.rs:531-611 | so does expanding a position and skipping those a long match covers; the position the loop comes to is reached |
| `OptimalParse.NoCheaperPath` | src/codecs/lzma_style.rs:531-611 | where sums are monotone the table bounds every path over the offered edges from below |
| `OptimalParse.TraceIsPath` | src/codecs/lzma_style.rs:613-626 | following the entries back gives a path of exactly the cost of the table, along which the replayed queue is at every stop the one the table holds |
| `OptimalParse.TrueCost` | src/codecs/lzma_style.rs:512-627 | along such a path the table charges what coding the tokens one after the other under the encoder's own queue costs |
| `OptimalParse.ParseCost` | src/codecs/lzma_style.rs:512-627 | the parse spells the data and coding it costs what the table says, for any prices and any addition |
| `OptimalParse.ParseIsCheapest` | src/codecs/lzma_style.rs:512-627 | where sums are monotone no parse along offered edges that passes the same queues costs less to code |
| `OptimalParse.Expand` | src/codecs/lzma_style.rs:531-611 | the arrays and the match trees after one position are the specified ones, the edges tried in order |
| `OptimalParse.Parse` | src/codecs/lzma_style.rs:512-627 | the tokens are that parse, a function of data and prices, and the format can express them |
| `BlockCodecs.CompressLzma` | src/codecs/lzma_style.rs:633-647 | the block kept is the last that shrank, over the parse of lazy matching and then up to five re-parses, each under the prices learned from the parse before it, which stop at the first that does not shrink |
| `BlockCodecs.LzmaKept` | src/codecs/lzma_style.rs:633-647 | that block encodes the data, in no more bytes than lazy matching's parse takes |
| `BlockCodecs.LzmaUnique` | src/codecs/lzma_style.rs:633-741 | the data and what a parse teaches about prices settle every byte of the block |
| `BlockCodecs.LzmaBlockRoundTrip` | src/codecs/lzma_style.rs:633-825 | that block decodes to the data whatever the prices were |
| `Suffixes.TypedOrder` | src/codecs/bwt_codec.rs:66-71 | order by symbol, then L before S, then by the rest is the order of suffixes |
| `Suffixes.HomesOrdered` | src/codecs/bwt_codec.rs:82-96 | slots in order belong to typed symbols in order |
| `InducedSort.LPlace` | src/codecs/bwt_codec.rs:109-121 | the left-to-right pass puts the L-type predecessor into a free slot of its bucket, ahead of the scan, and the array stays sorted |
| `InducedSort.LAll` | src/codecs/bwt_codec.rs:109-121 | after that pass every L position is in the array |
| `InducedSort.SPlace` | src/codecs/bwt_codec.rs:122-133 | the right-to-left pass does the same for S-type predecessors, over stale seeds |
| `InducedSort.SDone` | src/codecs/bwt_codec.rs:122-133 | after it every position is in the array once, in order |
| `LmsNames.HalfAsLong` | src/codecs/bwt_codec.rs:177-192 | the reduced string is at most half as long, so the recursion ends |
| `LmsNames.SubDecides` | src/codecs/bwt_codec.rs:141-174 | two LMS substrings in order and different decide the order of their suffixes |
| `LmsNames.ReducedOrder` | src/codecs/bwt_codec.rs:177-195 | the order of the reduced text's suffixes is the order of the LMS suffixes |
| `Sais.Induce` | src/codecs/bwt_codec.rs:108-134 | both passes take seeds sorted under one choice of windows to all positions sorted under another |
| `Sais.NameLms` | src/codecs/bwt_codec.rs:141-174 | names follow the order of LMS substrings, equal exactly for equal substrings |
| `Sais.ReducedTerminated` | src/codecs/bwt_codec.rs:177-192 | the reduced text again ends in a unique smallest symbol |
| `Sais.SaisCore` | src/codecs/bwt_codec.rs:48-203 | for every text ending in a unique smallest symbol the result is the permutation of positions sorted by suffix |
| `Bwt.SuffixArrayUnique` | src/codecs/bwt_codec.rs:28-43 | a text has one suffix array only |
| `Bwt.BwtForward` | src/codecs/bwt_codec.rs:212-231 | bytes and row index are the transform of the data, the sentinel row left out |
| `Bwt.LfTable` | src/codecs/bwt_codec.rs:234-255 | each stored byte leads to the row its rank among the stored bytes gives |
| `Bwt.SameOrder` | src/codecs/bwt_codec.rs:234-255 | equal bytes keep their relative order |
| `Bwt.LfIsLonger` | src/codecs/bwt_codec.rs:234-270 | following the table goes from the row of a suffix to the row of the suffix one byte longer |
| `Bwt.WalkVisits` | src/codecs/bwt_codec.rs:256-270 | the walk visits the suffixes from the sentinel up and meets the dropped row only at the end |
| `Bwt.BwtInverse` | src/codecs/bwt_codec.rs:234-270 | the bytes returned are those of the walk, for any input with an index in range |
| `Bwt.BwtRoundTrip` | src/codecs/bwt_codec.rs:212-270 | the inverse returns the data, for every data |
| `BwtCodec.Compress` | src/codecs/bwt_codec.rs:288-305 | the payload is the header and, per block, index, lengths and coded transform |
| `BwtCodec.NeverExceedsDeclared` | src/codecs/bwt_codec.rs:309-346 | no payload decodes past the length it declares |
| `BwtCodec.ContainerRoundTrip` | src/codecs/bwt_codec.rs:288-346 | decompression returns the data exactly when its length fits the 32-bit header |
| `BwtCodec.Decompress` | src/codecs/bwt_codec.rs:309-346 | output as specified on any payload, stopping at the first block that is not acceptable |
| `BwtCodec.RoundTripBlocks` | src/codecs/bwt_codec.rs:288-346 | compress then decompress returns the data exactly when its length fits 32 bits |
| `CarrylessCoder.MidInside` | src/codecs/bwt_cm.rs:106-118 | the split point satisfies x1 <= xmid < x2 |
| `CarrylessCoder.LikelierWider` | src/codecs/bwt_cm.rs:106-118 | a bit predicted likelier narrows the bounds less |
| `CarrylessCoder.AtMostFourShifts` | src/codecs/bwt_cm.rs:112-118 | renormalisation ends within four shifts |
| `CarrylessCoder.HoldsBeforeShift` | src/codecs/bwt_cm.rs:101-118 | the bytes finally written, read as zero past their end, stay inside every earlier interval |
| `CarrylessCoder.ReadsNext` | src/codecs/bwt_cm.rs:144-158 | a decoder in step returns the bit that was coded and stays in step |
| `CarrylessCoder.CarrylessRoundTrip` | src/codecs/bwt_cm.rs:90-190 | for every deterministic predictor with probabilities in 1 .. 65535 decoding returns the bytes |
| `CarrylessCoder.EncodedSize` | src/codecs/bwt_cm.rs:90-119 | coding takes at most 32 bytes a byte and four more |
| `CarrylessCoder.Encoder.Encode` | src/codecs/bwt_cm.rs:106-118 | bounds and output after one bit are the specified ones |
| `CarrylessCoder.Decoder.Decode` | src/codecs/bwt_cm.rs:144-158 | bit, bounds, window and position after one bit are the specified ones |
| `ContextMixing.Model.Update` | src/codecs/bwt_cm.rs:71-85 | the mutable counters and tables follow the pure mixer, so both sides predict alike |
| `ContextMixing.LearnMoves` | src/codecs/bwt_cm.rs:71-85 | a bit seen moves both counters of its context towards it, strictly unless they are within the step of their end, and no other counter |
| `ContextMixing.LearnRefines` | src/codecs/bwt_cm.rs:71-85 | it moves the two neighbouring refinement cells towards it likewise, and no other |
| `ContextMixing.BlendToward` | src/codecs/bwt_cm.rs:55-69 | met again in the same context, the bit's blended prediction is no lower |
| `ContextMixing.PredictToward` | src/codecs/bwt_cm.rs:55-69 | nor is the refined one, while the blend stays between the same two cells and these stand in order |
| `ContextMixing.RoundTrip` | src/codecs/bwt_cm.rs:162-190 | context-mixing encode then decode returns the bytes |
| `PpmTables.UpdatedValid` | src/codecs/ppm.rs:31-53 | in every context total stays the sum of distinct positive counts and at most 8192, through every rescaling |
| `PpmTables.RescaledInOrder` | src/codecs/ppm.rs:31-53 | rescaling brings the total down to about half and leaves the counts in their order |
| `PpmTables.CountSymbol` | src/codecs/ppm.rs:31-53 | one update of the table, rescaling included, is the specified one |
| `PpmTables.KeysAreContexts` | src/codecs/ppm.rs:62-77 | two positions share a table exactly when order and last bytes agree |
| `PpmTables.KeysApart` | src/codecs/ppm.rs:74-77 | contexts of different orders never share a table |
| `PpmCodec.IntervalsFit` | src/codecs/ppm.rs:132-205 | symbol and escape intervals under exclusion tile a denominator the range coder accepts |
| `PpmCodec.LocateFinds` | src/codecs/ppm.rs:209-275 | intervals do not overlap, so the target finds the symbol that was coded |
| `PpmCodec.StepsCodable` | src/codecs/ppm.rs:132-205 | the byte being coded is never excluded, so every decision on the way down can be coded |
| `PpmCodec.GetsByte` | src/codecs/ppm.rs:209-275 | the decoder follows the same escapes to the same byte and order |
| `PpmCodec.NotExcluded` | src/codecs/ppm.rs:209-275 | on any stream the byte decoded was not excluded by a longer context |
| `PpmCodec.NotInLonger` | src/codecs/ppm.rs:132-205 | and stands in no longer context's table down to the order that coded it |
| `PpmCodec.LowerOrdersKept` | src/codecs/ppm.rs:114-123 | update exclusion: the tables of orders below the one that coded the byte are left as they are |
| `PpmCodec.CodedAtOnce` | src/codecs/ppm.rs:114-123 | a byte just coded is coded at once by the longest context when that context comes back |
| `PpmCodec.RepeatAtOnce` | src/codecs/ppm.rs:284-304 | over a whole message: a byte that followed the same longest context anywhere before is one decision of that context |
| `PpmCodec.CountedWider` | src/codecs/ppm.rs:31-53 | counting a byte widens its share of the interval, under any exclusion |
| `PpmCodec.PpmRoundTrip` | src/codecs/ppm.rs:284-331 | decompression returns the data exactly when its length fits the header |
| `PpmCodec.EncodeByte` | src/codecs/ppm.rs:132-205 | the range coder is fed exactly the decisions of the byte; the order returned is the one that coded it |
| `PpmCodec.DecodeByte` | src/codecs/ppm.rs:209-275 | byte, order and decoder state are the specified ones, on any stream |
| `PpmCodec.Decompress` | src/codecs/ppm.rs:308-331 | result as specified on any payload, the tables those the counting laws above are about |
| `PpmCodec.RoundTrip` | src/codecs/ppm.rs:284-331 | compress then decompress returns the data exactly when its length fits 32 bits |
| `HuffmanTree.TreeSpace` | src/lz77/huffman.rs:228-283 | with depths capped at 15 the leaves of a subtree take at most the share of a code of its depth, plus one unit of 2^-15 for each leaf that was deeper |
| `HuffmanTree.HeightBound` | src/lz77/huffman.rs:228-283 | frequencies below 2^32 over at most 2^15 symbols make no leaf deeper than 95, so depths fit a byte |
| `HuffmanTree.BuildTree` | src/lz77/huffman.rs:228-268 | the parent array is that of merging the two lightest, ties to the smaller number, until one is left: a proper tree over exactly the used symbols, and a function of the frequencies |
| `HuffmanTree.MergesTwoLightest` | src/lz77/huffman.rs:236-268 | each merge takes the lightest tree and the lightest of the rest, the smaller number on a tie |
| `HuffmanOptimality.PairDeepest` | src/lz77/huffman.rs:228-268 | two of the longest lengths can be given to any two lightest symbols, the code space kept and the cost no greater |
| `HuffmanOptimality.NothingCheaper` | src/lz77/huffman.rs:228-268 | no lengths with Kraft sum at most 1 cost less than the weights of the pairs merged add up to, for any forest |
| `HuffmanOptimality.DepthsCost` | src/lz77/huffman.rs:228-268 | the depths in the tree built cost exactly that sum, however deep the tree is |
| `HuffmanOptimality.HuffmanIsBest` | src/lz77/huffman.rs:228-283 | while no leaf is deeper than 15 the lengths are optimal: the sum of frequency times length is at most that of any lengths over the same symbols with Kraft sum at most 1 |
| `HuffmanOptimality.FrequentShallow` | src/lz77/huffman.rs:228-268 | a symbol that occurs more often is no deeper in the tree, however deep the tree is |
| `HuffmanOptimality.FrequentShorter` | src/lz77/huffman.rs:228-373 | and has no longer code, whenever the two depths differ once cut to 15 or the tree is no deeper than 15 |
| `CodeLengths.SplitCode` | src/lz77/huffman.rs:288-339 | splitting a shorter code to pay for an overlong one keeps the number of codes and frees one unit of 2^-15 |
| `CodeLengths.Redistribute` | src/lz77/huffman.rs:305-325 | the loop ends with the counts of the specified redistribution |
| `CodeLengths.RedistributedFits` | src/lz77/huffman.rs:305-325 | which pays for every overlong code: the Kraft sum is back to at most 1 and no code is lost |
| `CodeLengths.ShortCodesStay` | src/lz77/huffman.rs:305-322 | the longest codes pay first: lengths up to any k keep their counts exactly when the codes between k and 15 can pay for every overlong one, or no code is so short |
| `CodeLengths.LimitCodeLengths` | src/lz77/huffman.rs:288-373 | cap, redistribute, and hand the counts out to the symbols by length and number: a function of the lengths, and in the order LimitKeepsOrder states |
| `CodeLengths.LimitedFits` | src/lz77/huffman.rs:288-373 | every length then is in 1 .. 15 and the Kraft sum at most 1 |
| `CodeLengths.LimitKeepsOrder` | src/lz77/huffman.rs:324-335 | limiting keeps the order of the lengths cut to 15: the symbol with the shorter one ends with no longer code, and of two with equal ones the smaller number with no shorter code |
| `HuffmanCodes.BuildHuffmanCodes` | src/lz77/huffman.rs:228-283 | the lengths the frequencies give and their canonical codes; every code has its symbol's length, and used symbols stand in the order of their tree depths |
| `HuffmanCodes.DeeperIsLonger` | src/lz77/huffman.rs:228-373 | of two used symbols the one whose depth, cut to 15, is smaller has no longer code, ties going by symbol number |
| `HuffmanCodes.LengthsForGood` | src/lz77/huffman.rs:228-373 | the lengths the frequencies give: 1 .. 15 for exactly the used symbols, Kraft sum at most 1 |
| `CanonicalCode.CodesFit` | src/lz77/huffman.rs:398-435 | every canonical code fits its length |
| `CanonicalCode.PrefixFree` | src/lz77/huffman.rs:398-435 | no canonical code is a prefix of another |
| `CanonicalCode.SlotsDisjoint` | src/lz77/huffman.rs:398-435 | codes fill the code space one after the other, shorter ones first and equally long ones by symbol number |
| `CanonicalCode.KraftTestExact` | src/lz77/huffman.rs:379-395 | the Kraft test accepts lengths of at most 15 bits exactly when all their canonical codes fit |
| `CanonicalCode.LengthsArePrefixFree` | src/lz77/huffman.rs:379-395 | the loop computes that test |
| `CanonicalCode.CanonicalCodes` | src/lz77/huffman.rs:398-435 | the counting loops compute the canonical code of RFC 1951, section 3.2.2 |
| `BitWords.ReverseForStream` | src/lz77/huffman.rs:557-565 | the reversed code written low bit first is the code high bit first |
| `DecodeTable.BuildDecodeTable` | src/lz77/huffman.rs:578-598 | every index that starts with a code holds that code's symbol and length, every other index none |
| `BitStream.BitWriter.WriteBits` | src/lz77/huffman.rs:464-472 | the value's bits follow those already written, across byte boundaries |
| `BitStream.BitReader.ReadBits` | src/lz77/huffman.rs:524-530 | the number read is the next bits of the stream, zeros past its end |
| `BitStream.BitReader.ReadHuffman` | src/lz77/huffman.rs:541-553 | the symbol whose code comes next, or none |
| `LzTokens.LengthRoundTrip` | src/lz77/huffman.rs:113-148 | every length 3 .. 258 is given back by its code and extra bits |
| `LzTokens.DistRoundTrip` | src/lz77/huffman.rs:157-208 | every offset 1 .. 4194304 is given back by its code and extra bits |
| `LzTokens.MruCache.Promote` | src/lz77/huffman.rs:73-94 | the entry moves to the front and the others keep their order |
| `LzTokens.MruCache.Insert` | src/lz77/huffman.rs:98-103 | the offset goes in front and the oldest falls out |
| `HuffmanBlock.GetsDist` | src/lz77/huffman.rs:930-951 | reader and writer take the same offset and leave equal caches |
| `HuffmanBlock.BlockRoundTrip` | src/lz77/huffman.rs:771-959 | a written block, whatever bits follow, reads back as its tokens |
| `HuffmanBlock.BlockSize` | src/lz77/huffman.rs:771-839 | a block of n tokens takes at most 1336 + 55 n bits |
| `HuffmanBlock.AfterMoves` | src/lz77/huffman.rs:73-103 | a match puts its offset in front of the recent offsets and drops its first earlier place, or the oldest |
| `BlockOptimality.BlockAddsUp` | src/lz77/huffman.rs:771-839 | a block takes exactly the header, the extra bits and frequency times length over both alphabets |
| `BlockOptimality.BlockIsBest` | src/lz77/huffman.rs:771-839 | while neither tree is deeper than 15 no choice of code lengths makes the block shorter |
| `HuffmanCodec.EncodeBlock` | src/lz77/huffman.rs:771-839 | both passes write the block's bits under the codes that the block's own symbol counts give, which every token has |
| `HuffmanCodec.DecodeBlock` | src/lz77/huffman.rs:884-959 | tokens or refusal exactly as specified, on any bytes |
| `HuffmanContainer.BlockedRoundTrip` | src/lz77/huffman.rs:850-959 | decoding the blocked encoding returns the tokens whenever every block's byte count fits its 32-bit word |
| `HuffmanContainer.SmallBlocksFit` | src/lz77/huffman.rs:850-874 | blocks of at most 2^29 tokens always fit, whatever the tokens are |
| `HuffmanContainer.EncodeBlocked` | src/lz77/huffman.rs:850-874 | the payload is the header and the blocks in order, a function of tokens and block size |
| `HuffmanContainer.PayloadUnique` | src/lz77/huffman.rs:771-874 | tokens and block size settle every byte of the payload |
| `HuffmanContainer.DecodeBlocked` | src/lz77/huffman.rs:884-959 | result as specified on any payload |
| `HashChains.HashChain.FindBestMatch` | src/lz77/hash.rs:111-169 | for any contents of the chain, self-referential ones included, the search with its one-byte pre-check returns the last and longest of the matches the plain walk along the chain reports |
| `HashChains.HitsAreRecords` | src/lz77/optimal.rs:99-145 | for any contents of the chain every match reported is a true match within the limits, exactly as long as the bytes agree, and longer than the one before |
| `HashChains.ListsNext` | src/lz77/hash.rs:37-42 | after every insertion the two arrays list all positions of each hash, newest first, as far as the circular window holds them |
| `HashChains.NearMatchOffered` | src/lz77/optimal.rs:99-145 | such a chain misses no near match: every earlier position in the window that agrees on three bytes, among the last 256 with its hash, is met by a match as near and as long |
| `HashChains.NearMatchLinked` | src/lz77/optimal.rs:99-145 | the same from what lazy matching keeps true of the chain, positions inserted twice included |
| `Lz77.TryRepMatch` | src/lz77/encoder.rs:39-73 | the loop over the recent offsets gives the match specified |
| `Lz77.RepBestLongest` | src/lz77/encoder.rs:39-73 | it is a true match and no recent offset matches longer |
| `Lz77.BestNearLongest` | src/lz77/encoder.rs:39-124 | the match chosen is within one byte of the longest the chain offers, and two longer than any recent offset's when it is not one of these; short ones only from near by |
| `Lz77.UsedMoves` | src/lz77/encoder.rs:75-84 | a match used puts its offset in front of the recent ones and drops its first earlier place, or the oldest |
| `Lz77.LookAhead` | src/lz77/encoder.rs:166-205 | how many bytes to pass as literals because a match one or two positions ahead is longer; the next position is inserted only on the way to the second |
| `Lz77.LazyMeans` | src/lz77/encoder.rs:141-243 | a match is taken exactly unless the next position has a longer one, and two literals are passed exactly when the position after next has a longer one still |
| `Lz77.LazyCovers` | src/lz77/encoder.rs:141-243 | the tokens of lazy matching, over any chain, are valid and stand for the data |
| `Lz77.LazyWatchful` | src/lz77/encoder.rs:141-243 | every position passed is linked before any later search, those inside matches and those inserted twice included |
| `Lz77.AllSeen` | src/lz77/encoder.rs:141-243 | so from an empty chain every search, ahead or not, is made over a chain of all earlier positions |
| `Lz77.NewestSeen` | src/lz77/encoder.rs:141-243 | such a search has a match at least as long and as near as the newest earlier position in the window with the same three-byte hash |
| `Lz77.Encode` | src/lz77/encoder.rs:141-243 | over any chain left by earlier calls the tokens are exactly those of lazy matching, and stand for the data; AllSeen says what that matching has seen |
| `Lz77.DecodeIsMeaning` | src/lz77/decoder.rs:27-65 | tokens that stand for the data decode to it exactly when the limit allows it |
| `Lz77.Decode` | src/lz77/decoder.rs:27-65 | output or error as specified, overlapping copies included, never past the limit |
| `Lz77.RoundTrip` | src/lz77/encoder.rs:141-243 | encode then decode returns the data, or the limit error when the data is longer |
| `BlockCodecs.CompressBaseline` | src/adaptive.rs:92-103 | the first of the shortest of the encodings in blocks of 8192, 16384 and 4096 tokens, all three of the very tokens lazy matching from an empty chain gives, under the codes their frequencies give |
| `BlockCodecs.BaselineUnique` | src/adaptive.rs:92-103 | the baseline is a function of the data: one payload meets that specification |
| `BlockCodecs.BaselineWithin` | src/adaptive.rs:92-108 | no payload decodes past the length expected |
| `BlockCodecs.BaselineRoundTrip` | src/adaptive.rs:92-108 | LZ77 and Huffman together return the data when the expected length allows it, and fail otherwise |
| `ShortestParse.FindAllMatches` | src/lz77/optimal.rs:99-145 | the matches are exactly those the walk along the chain reports |
| `ShortestParse.RelaxPosition` | src/lz77/optimal.rs:199-250 | leaving a position tries the literal and then every match found there at every length of the list, in place, and no more |
| `ShortestParse.RelaxAll` | src/lz77/optimal.rs:181-250 | the table is that of the pass, and no edge the pass offered still improves it |
| `ShortestParse.NoCheaperPath` | src/lz77/optimal.rs:199-250 | the relaxed table bounds every path over the offered edges from below, infinite prices included |
| `ShortestParse.TraceIsPath` | src/lz77/optimal.rs:252-272 | tracing back gives a path even through positions no edge reached; where the end was reached it costs what the table says |
| `ShortestParse.FirstPassOffers` | src/lz77/optimal.rs:181-250 | in the first pass every position is reached and inserted, so the edges offered are a function of the data alone |
| `ShortestParse.FirstOffersComplete` | src/lz77/optimal.rs:99-145 | those edges include, for every earlier position near enough that agrees on three bytes, one as near and as long |
| `ShortestParse.FirstPassOptimal` | src/lz77/optimal.rs:152-275 | in the first pass the tokens are the cheapest of all paths over those edges |
| `ShortestParse.Parse` | src/lz77/optimal.rs:152-275 | for every sequence of later price tables the tokens stand for the data and are a path over the edges the last pass offers, no path of finite cost cheaper; after the first pass alone none at all is cheaper, over all the chain of all positions reports |
| `ShortestParse.RoundTrip` | src/lz77/optimal.rs:152-275 | the decoder returns the data from any such parse |
| `BerlekampMassey.Fit` | src/codecs/minmask/masks.rs:334-367 | the register fitted runs through the bits, and no shorter register does |
| `BerlekampMassey.LengthsAddUp` | src/codecs/minmask/masks.rs:334-367 | a register that first fails at position k and one that does not fail there have lengths adding up to at least k + 1 |
| `BerlekampMassey.Generate` | src/codecs/minmask/masks.rs:318-331 | seed bits, then the feedback of the bits generated |
| `BerlekampMassey.RoundTrip` | src/codecs/minmask/masks.rs:318-367 | fit then generate returns the bits, for every bit vector |
| `BigNat.Big.MulSmall` | src/codecs/minmask/enumerative.rs:31-42 | the limbs stand for the product |
| `BigNat.Big.DivSmall` | src/codecs/minmask/enumerative.rs:46-59 | quotient and remainder of the number, by two native divisions a limb |
| `BigNat.Big.Add` | src/codecs/minmask/enumerative.rs:61-75 | the limbs stand for the sum, carry included |
| `BigNat.Big.Sub` | src/codecs/minmask/enumerative.rs:78-88 | the limbs stand for the difference |
| `BigNat.Big.Bit` | src/codecs/minmask/enumerative.rs:104-106 | the bit of the number at any index |
| `BigNat.TrimmedUnique` | src/codecs/minmask/enumerative.rs:25-29 | a number has one trimmed limb representation, so comparison may go by limbs |
| `Binomials.RankBelow` | src/codecs/minmask/enumerative.rs:189-201 | the rank of t positions below n is below C(n, t) |
| `Binomials.RankInjective` | src/codecs/minmask/enumerative.rs:189-201 | the rank determines the set |
| `Enumerative.Binom` | src/codecs/minmask/enumerative.rs:121-132 | the loop of multiplications and exact divisions computes C(n, k) |
| `Enumerative.RankIncremental` | src/codecs/minmask/enumerative.rs:204-229 | the walk that updates one binomial gives the direct sum; every division on the way is exact |
| `Enumerative.RankBits` | src/codecs/minmask/enumerative.rs:189-201 | rank of a bitmap, below C(n, t) |
| `Enumerative.Unrank` | src/codecs/minmask/enumerative.rs:232-273 | succeeds exactly for ranks below C(n, t), with the bitmap of that rank |
| `Enumerative.RoundTrip` | src/codecs/minmask/enumerative.rs:189-273 | rank then unrank returns the bitmap |
| `Enumerative.RankWidth` | src/codecs/minmask/enumerative.rs:139-151 | the exact number of bits for any rank below C(n, t) |
| `MsbStream.GammaBack` | src/codecs/minmask/bits.rs:222-226 | a gamma code below 2^64 reads back as the number written, whatever follows |
| `MsbStream.RiceBack` | src/codecs/minmask/bits.rs:229-238 | a Rice code reads back as the number written, whatever follows |
| `MsbStream.BitWriter.Put` | src/codecs/minmask/bits.rs:197-215 | the low n bits follow those already written, high bit first |
| `MsbStream.BitWriter.Append` | src/codecs/minmask/bits.rs:259-268 | the other writer's bits follow, to the bit |
| `MsbStream.BitWriter.Finish` | src/codecs/minmask/bits.rs:270-275 | the bytes hold the bits written and fewer than eight more |
| `MsbStream.BitReader.Get` | src/codecs/minmask/bits.rs:293-309 | the number of the next n bits, or none and nothing consumed when fewer remain |
| `MsbStream.BitReader.GetGamma` | src/codecs/minmask/bits.rs:315-324 | value and position as the parse of the remaining bits gives, damaged codes included |
| `MsbStream.BitReader.GetRice` | src/codecs/minmask/bits.rs:326-332 | the same for Rice codes |
| `Masks.CausalIsRender` | src/codecs/minmask/masks.rs:181-274 | bit-by-bit reconstruction from what is already known undoes the difference to the mask rendered over the whole stream, for every mask, complement flag and overlap |
| `Masks.Render` | src/codecs/minmask/masks.rs:181-206 | each mask bit is the one the bits before it determine |
| `Masks.CopyLeaves` | src/codecs/minmask/masks.rs:181-206 | what a copying mask leaves of a bit is its difference to the bit the copy distance back, zero before the start |
| `Masks.StrideLeavesNothing` | src/codecs/minmask/masks.rs:181-206 | where bytes recur at the stride the stride mask leaves nothing |
| `Masks.EqualStepsLeaveNothing` | src/codecs/minmask/masks.rs:181-206 | the add-delta mask leaves nothing of a byte exactly where the steps at its stride are equal |
| `Masks.Reconstruct` | src/codecs/minmask/masks.rs:210-274 | in place, the block becomes the causal reconstruction and the bits after it stay; fails only on a copy over distance 0 |
| `MaskCodes.MaskRoundTrip` | src/codecs/minmask/masks.rs:103-167 | a mask's description reads back as the mask, whatever follows |
| `MaskCodes.MaskCostIsSize` | src/codecs/minmask/masks.rs:88-101 | the declared cost is the number of bits written |
| `MaskCodes.TakenIsDefined` | src/codecs/minmask/masks.rs:130-177 | whatever the bits, a mask that is read can be applied and never copies over distance 0 |
| `MaskCodes.ReadMask` | src/codecs/minmask/masks.rs:130-167 | mask and position, or refusal, as the parse gives on any bits |
| `Residual.RunsBack` | src/codecs/minmask/residual.rs:254-276 | run lengths but the last read back as the bits, the last run implied |
| `Residual.ArithBack` | src/codecs/minmask/residual.rs:340-372 | adaptive order-1 arithmetic coding reads back as the bits |
| `Residual.KtCounts` | src/codecs/minmask/residual.rs:340-372 | the counters are the numbers of clear and set bits seen after a clear and after a set bit |
| `Residual.KtToward` | src/codecs/minmask/residual.rs:340-372 | a bit counted is predicted no lower the next time |
| `Residual.RansReads` | src/codecs/minmask/residual.rs:376-407 | the packed bytes come back from the static rANS payload |
| `Residual.ResidualRoundTrip` | src/codecs/minmask/residual.rs:191-335 | every residual codec reads back exactly the residual it wrote and stops where it ended |
| `Residual.CostIsSize` | src/codecs/minmask/residual.rs:102-142 | each of the eight takes exactly the bits its cost declares, and has a cost exactly when it can represent the residual |
| `ResidualCodec.Encode` | src/codecs/minmask/residual.rs:191-249 | the loops write what the codec specifies |
| `ResidualCodec.Decode` | src/codecs/minmask/residual.rs:251-335 | residual and position, or refusal, as the parse gives on any bits |
| `ResidualCodec.BestRiceK` | src/codecs/minmask/residual.rs:94-99 | the first of the sixteen parameters of least cost |
| `GaloisField.ProductOfPowers` | src/codecs/minmask/bch.rs:45-51 | the carry-less product reduced by the primitive polynomial adds exponents of alpha, in all six fields |
| `PrimitiveElements.PowersDiffer` | src/codecs/minmask/bch.rs:27-42 | the six polynomials are primitive: below 2^m - 1 all powers of alpha differ |
| `FieldProducts.BuildTables` | src/codecs/minmask/bch.rs:27-42 | two turns of the powers of alpha, and the exponent of every nonzero word |
| `FieldProducts.Times` | src/codecs/minmask/bch.rs:45-51 | adding logarithms in the tables is the product of the field |
| `FieldProducts.Over` | src/codecs/minmask/bch.rs:54-60 | subtracting them undoes that product |
| `FieldProducts.PlusTimes` | src/codecs/minmask/bch.rs:45-51 | exclusive or distributes over the product on the left as well: with commutativity, associativity and inverses the words are a field |
| `FieldPolynomials.RootBound` | src/codecs/minmask/bch.rs:172-185 | a polynomial has no more roots than its degree |
| `FieldSums.WeightsVanish` | src/codecs/minmask/bch.rs:83-84 | as many consecutive power sums as positions vanish only when every weight is zero, so roots alpha .. alpha^2t give distance 2t + 1 |
| `FieldRegisters.LengthsAddUp` | src/codecs/minmask/bch.rs:136-167 | a register over the field that first fails at position k and one that does not fail there have lengths adding up to at least k + 1 |
| `FieldRegisters.FitRegister` | src/codecs/minmask/bch.rs:136-167 | the register fitted runs through all syndromes, and no shorter one does |
| `BchLocator.RegisterLocates` | src/codecs/minmask/bch.rs:136-185 | the shortest register through the 2t syndromes of at most t positions has that many taps and vanishes exactly at the positions |
| `MinimalPolynomials.ClosedIsBinary` | src/codecs/minmask/bch.rs:199-217 | the product over a cyclotomic coset has coefficients 0 and 1 only |
| `MinimalPolynomials.MinimalPolynomial` | src/codecs/minmask/bch.rs:200-217 | the loop multiplies out one factor for each exponent |
| `BchGenerator.CyclotomicCoset` | src/codecs/minmask/bch.rs:189-197 | doubling modulo the order comes back to its start, having met every exponent of the coset once |
| `BchGenerator.BuildGenerators` | src/codecs/minmask/bch.rs:76-98 | for each designed weight the generator, one minimal polynomial for every coset met |
| `BchGenerator.GeneratorVanishes` | src/codecs/minmask/bch.rs:80-94 | it is monic, vanishes at alpha .. alpha^2t and its degree fits the block |
| `BchSyndrome.Syndrome` | src/codecs/minmask/bch.rs:110-120 | the remainder of division by the generator |
| `BchSyndrome.SameRemainder` | src/codecs/minmask/bch.rs:110-120 | two patterns leave the same remainder exactly when the generator divides their difference |
| `BchDecoder.GeneratorSeparates` | src/codecs/minmask/bch.rs:80-94 | no pattern of weight at most 2t but zero is a multiple of the generator, for every field and every designed weight |
| `BchDecoder.ChienSearch` | src/codecs/minmask/bch.rs:172-183 | the pattern of the positions where the locator vanishes, and how many they are |
| `BchDecoder.LightIsFound` | src/codecs/minmask/bch.rs:123-186 | the shortest register through the syndromes of a light pattern has the pattern's weight as length, and the search over it finds the pattern |
| `BchDecoder.LightComesBack` | src/codecs/minmask/bch.rs:1-8 | every pattern of at most the designed weight is the only one with its remainder |
| `BchDecoder.Decode` | src/codecs/minmask/bch.rs:123-186 | the pattern of at most weight t with this remainder exactly when there is one, otherwise a refusal, for any remainder |
| `BchResidual.BchBack` | src/codecs/minmask/residual.rs:230-234 | a residual with a code for its length and weight reads back from weight and remainder, whatever follows |
| `BchResidual.EncodeBch` | src/codecs/minmask/residual.rs:230-234 | the gamma code of the weight and the remainder under the generator for exactly that weight |
| `BchResidual.DecodeBch` | src/codecs/minmask/residual.rs:316-321 | pattern and position, or refusal, as the parse gives on any bits |
| `MinMask.LayoutRoundTrip` | src/codecs/minmask/mod.rs:109-144 | linear and bit-plane layouts are undone by reading back |
| `MinMask.StreamBack` | src/codecs/minmask/mod.rs:390-420 | for every choice of mask, flag and codec in every block the decoder rebuilds the stream |
| `MinMask.PayloadRoundTrip` | src/codecs/minmask/mod.rs:330-420 | the payload decompresses to the data exactly when the data is within the decoder's limit of 64 MiB |
| `MinMask.Compress` | src/codecs/minmask/mod.rs:330-366 | header and records of the blocks, each appended to the bit |
| `MinMask.Decompress` | src/codecs/minmask/mod.rs:390-420 | result as specified on any payload, the stream rebuilt in place |
| `MinMask.RoundTrip` | src/codecs/minmask/mod.rs:330-420 | compress then decompress returns the data exactly within that limit |
| `Rans.BuildTable` | src/entropy/mod.rs:63-82 | a table exactly when the frequencies sum to 4096, else the sum as an error |
| `Rans.BuildDecodeTable` | src/entropy/mod.rs:89-102 | each slot holds the symbol that owns it |
| `Rans.PushThenPop` | src/entropy/mod.rs:247-341 | one symbol coded keeps the state in 2^20 .. 2^28 and is undone, bytes included, by one decoding step |
| `Rans.PopThenPush` | src/entropy/mod.rs:247-341 | and the other way: every decoding step is a coding step undone |
| `Rans.AdvanceFits` | src/entropy/mod.rs:318-330 | the decoder's arithmetic stays within 64 bits from any state |
| `Rans.PopsWhatWasPushed` | src/entropy/mod.rs:346-370 | decoding returns the message, the initial state and no byte left over, with one table or one per preceding byte |
| `RansCoder.Encoder.EncodeSymbol` | src/entropy/mod.rs:247-271 | state and output after a symbol are the specified ones; an unusable symbol changes nothing |
| `RansCoder.Decoder.DecodeSymbol` | src/entropy/mod.rs:318-341 | symbol, state and position, or underflow, as specified on any data |
| `RansCoder.Encode` | src/entropy/mod.rs:346-356 | the coded message, or the error of the last byte that cannot be coded |
| `RansCoder.Decode` | src/context_model.rs:90-106 | message or underflow as specified, for one table or one per preceding byte |
| `RansCoder.RoundTrip` | src/entropy/mod.rs:346-370 | the message comes back exactly when it is not empty and every byte has a frequency |
| `FrequencyTables.LeftOver` | src/entropy/mod.rs:145-177 | what rounding down leaves is less than the number of symbols that occur, so one pass hands it out |
| `FrequencyTables.ReclaimedSums` | src/entropy/mod.rs:178-209 | reclaiming stops only at the target or when every frequency is at most 1 |
| `FrequencyTables.OrderUnique` | src/entropy/mod.rs:112-121 | ties broken by index leave one order, so a decoder that sorts again finds the same table |
| `FrequencyTables.NormalizedSums` | src/entropy/mod.rs:129-213 | each present symbol gets at least 1 and the sum is 4096 exactly when at most 4096 symbols occur |
| `FrequencyTables.MoreGetsMore` | src/entropy/mod.rs:153-209 | of two symbols the one that occurs more often gets no less, in both branches, except exactly where the other was rounded up from nothing, its own share is 1, and the units left over reach the other and not it |
| `FrequencyTables.RareOvertakes` | src/entropy/mod.rs:153-177 | which happens for the counts 20475, 20466, 10, 9 |
| `FrequencyTables.NearShare` | src/entropy/mod.rs:145-209 | handing out, every frequency ends at its rounded-down share or one above; taking back, none ends above it |
| `FrequencyTables.Normalize` | src/entropy/mod.rs:129-213 | the result is that table, a function of the counts alone, whatever order of equal fractions a sort might give; more frequent symbols get no less unless the other's share was rounded up from nothing to their own single unit |
| `FrequencyTables.BuildFromCounts` | src/ajedrez.rs:117-204 | the rows of the order-1 model sum to 4096, cover exactly the bytes that occur, and are in the order of the counts: a function of the counts |
| `FrequencyTables.ExactMoreGetsMore` | src/ajedrez.rs:117-204 | of two bytes the one that occurs more often gets no less |
| `ContextModel.Train` | src/context_model.rs:27-60 | training succeeds on every stream; each table is the row of its exact pair counts, and what it was trained on can be coded |
| `ContextModel.LikelierFollower` | src/context_model.rs:27-60 | of two bytes that follow a context the one that follows it more often has no smaller frequency |
| `ContextModel.RoundTrip` | src/context_model.rs:67-106 | a trained model returns its own stream |
| `Grammar.ReplacedExpands` | src/grammar/mod.rs:166-184 | after a replacement the sequence under the longer rule list still expands to the input |
| `Grammar.ReplacedAbsent` | src/grammar/mod.rs:166-184 | the replaced pair is gone and pairs absent before stay absent |
| `Grammar.Decode` | src/grammar/mod.rs:240-262 | the explicit stack empties and yields what the sequence stands for, for rules in any order |
| `Grammar.AcyclicYields` | src/grammar/mod.rs:240-262 | without a cycle among the rules every symbol stands for something, so the decoder ends |
| `RePair.KeepsStep` | src/repair_fast.rs:84-152 | every round keeps: the sequence means the input, rules use older symbols only, no two rules share a pair, sequence and rules together are no longer than the input |
| `RePair.MostFrequent` | src/repair_fast.rs:90-97 | the scan of the packed table finds a pair of largest count |
| `RePair.CountPairs` | src/repair_fast.rs:135-150 | the flat table holds the count of every pair of ids below 512 |
| `RePair.PopTop` | src/grammar/mod.rs:133-156 | the heap's top: the largest count, ties to the largest packed pair |
| `RePair.EncodeFast` | src/repair_fast.rs:31-160 | all of that at whatever round the encoder stops, and every rule replaced the first most frequent pair of what the rules before it left; stopping early means no pair is frequent enough |
| `RePair.Encode` | src/grammar/mod.rs:66-225 | the same for the heap-based encoder, ties to the largest pair; it stops early exactly at the second stalled batch or when no pair occurs twice |
| `RePair.GreedyUnique` | src/repair_fast.rs:84-152 | input, threshold and number of rules settle the grammar: two greedy grammars of one length are equal |
| `RePair.Reload` | src/grammar/mod.rs:272-323 | the stored form reads back as the result that was stored |
| `RePair.RoundTrip` | src/grammar/mod.rs:66-323 | encode, store, load and decode returns the input, for both encoders and any stopping point |
| `OrderZero.CodedReadsBack` | src/codecs/delta_ans.rs:161-165 | bytes coded under their own normalised counts take at most two bytes a byte and eight more, and read back |
| `OrderZero.EncodeBytes` | src/codecs/delta_ans.rs:161-163 | frequencies, table and coding succeed on every non-empty lane |
| `DeltaAns.DifferenceBack` | src/codecs/delta_ans.rs:11-57 | each of the five differences is undone byte by byte from what is already restored |
| `DeltaAns.ZeroWhereRepeated` | src/codecs/delta_ans.rs:11-57 | a difference is zero exactly where the byte repeats the one at its distance, and two subtracted differences are equal exactly where the steps are |
| `DeltaAns.MergedBack` | src/codecs/delta_ans.rs:83-100 | dealing bytes out to four lanes is undone by reading the lanes in turn |
| `DeltaAns.MergeLanes` | src/codecs/delta_ans.rs:91-100 | the merged bytes, or none exactly when some lane runs out, for any lanes |
| `DeltaAns.DeltaRoundTrip` | src/codecs/delta_ans.rs:119-243 | every payload decodes to the data, whichever difference was chosen |
| `DeltaAns.Encode` | src/codecs/delta_ans.rs:119-169 | the payload is the header and every lane with its counts and coded bytes |
| `DeltaAns.Decode` | src/codecs/delta_ans.rs:171-243 | result as specified on any payload, those with tables from before ties were settled included |
| `RunLengths.RunsBack` | src/codecs/rle_huffman.rs:70-92 | the runs stand for the data, none is longer than a class can carry, and there are no more of them than bytes |
| `RunLengths.FewestRuns` | src/codecs/rle_huffman.rs:70-92 | no other runs within the class limit that stand for the data are fewer |
| `RunLengths.ClassBack` | src/codecs/rle_huffman.rs:245-275 | every run length up to 2250592 has a class and is given back by it, although two groups of classes overlap at 5984 .. 6079 where the comment puts a boundary |
| `RleHuffman.SymbolBack` | src/codecs/rle_huffman.rs:144-181 | a symbol of a code without overlaps is read back by the table, which on codes that overlap holds the last one entered |
| `RleHuffman.RleRoundTrip` | src/codecs/rle_huffman.rs:473-509 | the encoding of any data, whichever mode it takes, decodes to the data and declares its length and no more runs than bytes |
| `RleHuffman.Encode` | src/codecs/rle_huffman.rs:473-491 | the shorter of the direct and the run-length encoding, the direct one when they are equally long, both under the codes their own counts give: a function of the data |
| `RleHuffman.Decode` | src/codecs/rle_huffman.rs:494-509 | result as specified on any payload, code lengths that break the Kraft sum included |
| `StrideCm.StrideRoundTrip` | src/codecs/stride_cm.rs:497-562 | for every mixing model and every detected shape the payload decodes to the data |
| `StrideCm.Encode` | src/codecs/stride_cm.rs:497-534 | the smaller payload of two model sets, the full set when they are equally long |
| `StrideCm.Decode` | src/codecs/stride_cm.rs:537-562 | data or refusal as specified on any payload, refusing a length, stride, record or model set out of range |
| `BcjFilter.FilterRoundTrip` | src/codecs/bcj_filter.rs:8-47 | decoding undoes encoding, 32-bit wrap-around included |
| `BcjFilter.SameAddress` | src/codecs/bcj_filter.rs:8-47 | two calls become equal bytes exactly when they call one absolute address |
| `BcjFilter.Filter` | src/codecs/bcj_filter.rs:8-47 | both in-place loops compute the specified filter |
| `Container.CodecRoundTrip` | src/adaptive.rs:118-311 | every payload of all eight codecs decodes to its block, and passes the length checks unless it is the delta codec's for no bytes at all, which the container never writes |
| `Container.CheckLengths` | src/adaptive.rs:240-288 | the loops over token blocks and delta lanes give the verdict specified, for all eight codecs |
| `Container.CheckedLength` | src/adaptive.rs:240-288 | a payload that passes the checks decodes to no more than the length expected, and but for two codecs to exactly that |
| `Container.BlocksSum` | src/adaptive.rs:269-281 | the token counts of a baseline payload's blocks add up to the declared total |
| `Container.SelectBest` | src/adaptive.rs:133-185 | the block kept is the first of the shortest non-empty outputs over the baseline and every candidate, every codec taking every block |
| `Container.CompressBlock` | src/adaptive.rs:196-227 | the best of the plain codecs, or of the codecs over the filtered chunk exactly when that is strictly smaller |
| `Container.NoRegression` | src/adaptive.rs:196-227 | a selected block is never larger than the baseline of its chunk, which is a function of the chunk |
| `Container.Compress` | src/adaptive.rs:358-379 | the container of the data under any plan, every block the one selected for its chunk |
| `Container.ParseContainer` | src/adaptive.rs:404-450 | parsed file or the specified error, on any bytes |
| `Container.OnlyVerifiedOutput` | src/adaptive.rs:474-576 | output is returned only with the declared length, within the limit, from blocks that pass their checks, and with the digest the file carries |
| `Container.ContainerRoundTrip` | src/adaptive.rs:358-576 | with all eight codecs, the container decompresses to the data when the limit allows it, and otherwise to the limit error |
| `Container.Decompress` | src/adaptive.rs:503-576 | result as specified on any bytes |
| `Container.RoundTrip` | src/adaptive.rs:358-576 | the whole compressor and decompressor run one after the other |

## Left out

- BlockedRoundTrip: takes as a condition that every block's byte count is below 2^32, the range of the field that stores it, and that the list is below 2^32 tokens.
- BuildHuffmanCodes: for at most 2^15 symbols with frequencies below 2^32, the range of the program's counters.
- HuffmanIsBest: in the same range, and while no leaf is deeper than 15; for deeper trees only the code space is proved after the redistribution.
- FrequentShorter: where both depths are cut to 15 the symbol number decides and not the frequency; LimitKeepsOrder says how.
- Parse: what a parse teaches about prices is a parameter, and so are the prices and the sum of costs of the LZMA parse, which the program takes in floating point; the later price tables of the LZ77 parse are arbitrary.
- ParseIsCheapest: compares parses along the edges offered, under the queues the table settled on; a dearer way into a position with a queue that pays off later is not tried by the program.
- EveryLengthOffered: while neither the depth limit of 48 nor the window cuts a walk in the tree of that hash.
- PredictToward: under the condition named; across a boundary between cells, or over cells out of order, the refined prediction may move the other way.
- Masks: that the shift-register polynomials have their full period is not proved.
- EncodeFast: the clock is a number of rounds; pair counts are not cut off at 32 bits.
- Deserialize: for stored data as long as its header declares; the program stops with an index error on shorter data.
- Decode: the grammar decoder is for grammars under which the sequence stands for something, in any order of rules; on a cycle or a missing rule the program does not end or stops with an index error.
- Sharing of the syndrome codes: tables and generators are built on each call here; the program builds all six families once per process.
- ContainerRoundTrip: for files of fewer than 2^32 blocks, with CRC-32 and BLAKE3 as parameters.
- StrideRoundTrip: the mixing model is any function of the header and the bits before; its counters, mixer and hashes are not modelled, nor is the detection of stride and record.
- DeltaRoundTrip: which difference has the least entropy is a parameter, and so is the table of payloads from before the order of ties was settled.
- RankWidth: stated as the exact width; the program takes a logarithm first and counts exactly only near a power of two.
- Render: a copy distance of 2^63 or more reads as zeros; in the program it may overflow a signed subtraction.
- Normalize: only with the pinned tie order; the library sort is represented by an insertion sort on the same key.
- PpmCodec keeps its context tables in a map; memory and hashing are not modelled.
- MinMask's bit vectors are sequences of bits, not 64-bit words, and the layouts are stated by position instead of by word.
- The heaps of the Huffman and Re-Pair encoders are a list and a map with a minimum or maximum taken; their inner order is not modelled.
- Frequency sums are taken over unbounded integers; a table whose 32-bit sum wraps around is not modelled.
- The search heuristics: block classification, entropy estimates, candidate masks, match indexes, majority patterns and block splitting only choose among encodings, and their choices are inputs here.
- Other formats: the single-block, context-1 and split Huffman formats, token serialisation and the transforms.
- Threads, panics caught at codec boundaries, memory budgets, input and output, encryption and the command line.
