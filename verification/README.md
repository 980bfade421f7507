# Verified model of the bzip2, DEFLATE fast-path and Brotli codecs

This project models three parts of the compression library in Dafny and proves that they do what they are for. Run
`dafny verify dfyconfig.toml` to check it.

**The bzip2 codec** (`src/bzip2/`) is modelled whole: run-length coding, the Burrows-Wheeler transform with both
suffix sorters, move-to-front and zero-run coding, the multi-table Huffman builder, canonical codes, the ten-bit
decode tables, checksums, the bit reader and writer, the block and file formats, the fused three-phase decoder, and
the merging of blocks that were compressed alone. The main results:

- `Bzip2.RoundTrip`, `Bzip2.FileRoundTrip`: as long as every symbol that is written has a code that fits its length,
  what `Compress` writes is read back as the input **if and only if** every block's run-length code has at most 900001
  bytes (and the output has room). Clamped code depths do not matter unless a symbol uses a code that no longer fits.
  Levels 1 to 7 always satisfy the size condition; at levels 8 and 9 a failing input is given, and its file is refused
  without further conditions. Up to 22718 bytes of input the round trip has no condition but room.
- `Bzip2.Decompress` and `BlockDecoder.DecodeBlock` agree with a plain parser of bit strings on **every** input,
  malformed ones included: same bytes, same refusals, same unread bits. Tables that a clamp made overfull are decoded
  as the source decodes them. The parser gives no answer only where the source's decoder would leave its arrays or
  wrap its run length.
- `Sais.SortSuffixes` and `SuffixSort.BuildSuffixArray`: both sorters produce a sorted list of rotations, ties in any
  order; `BwtInverse.UnbwtRestores` shows that ties are harmless.
- `HuffmanBuild.LengthsFromFreqs`: no prefix code costs less than the code lengths that are built, and they are a
  complete prefix code if and only if no depth was cut off at 20. Depths are not cut off below a total weight of 28657
  or up to 21 symbols; with 22 Fibonacci weights they always are, and `HuffmanRuns.BoundIsSharp` shows a run of merges
  that reaches the weight.
- `Parallel.CompressParallel`: the merged file equals a serial one if and only if the bits pending before the footer
  are all zero, or there was nothing to merge. `MergeFailure.MergeTwice` shows that this fails on real inputs: behind
  **every** input that fills its blocks, at least one of two tails, three or 518 bytes of value 255, gives a result
  that is not a file; the encoder's block for either is forced but for one table that it does not use.
- `HuffmanSizes.SymbolsCost`, `BlockSizes.FullBlockFits`: the symbols of a block take at most 513/64 bits each, so a
  full block fits the buffer of its own unless run-length coding makes it longer.
- `CrcPolynomial.ChecksumIsRemainder`, `CrcStream.StreamChecksum`: the checksum of a block is the remainder of a
  polynomial division, with the polynomial written out, and that of a stream is the exclusive or of its blocks'
  rotated checksums.

**The inner loop of `inflate_fast`** (`src/decompress/inflate_fast.cpp`): `InflateFast.InflateFast` leaves reader,
output and answer as some number of symbols decoded one at a time would, for any decode tables whose primary entries
have at most eleven bits, with the 128-bit register, the speculative batches, the overlapping copy and the final
rewind. `InflateCodes.MatchRoundTrip` and `InflateCodes.StepCopies` tie those symbols to section 3.2.5 of RFC 1951:
every length at every distance is read back.

**Brotli** (`src/brotli/`): `BrotliTokens.BuildTokens` (the scan with its hash table; tokens replay to the input), the
command and distance codes, the prefix codes and their eight-bit lookup, the readers of simple and complex prefix
codes, and the decoder's loop. `BrotliMeta.CompressTokens` closes the circle: the bits that are written for an input
decode to it when at most three different commands and three different distance codes occur, and the decoder reads the
encoder's own sequence of symbols **if and only if** that is so. `BrotliSwap.FourCommandsFail` gives an input that the
encoder cuts into tokens with four commands and whose block never decodes to it.

The codes that Brotli is made of are tied to RFC 7932 by writers of their own. `BrotliAccepted.AcceptsDescriptions`:
the reader of complex prefix codes accepts an input **if and only if** it describes a complete code, and reads that
code, repeated run symbols included. `BrotliDistances.DistanceReadsBack`: every distance reads back for all numbers of
direct codes and postfix bits. `BrotliShapes.ShapeCodeBits` gives the codes of simple prefix codes bit by bit.

## How the model reads

- The source's objects are classes with the same fields, its in-place algorithms are methods over arrays, and its
  loops are loops; each is proved against a function on sequences, and the properties are lemmas about those
  functions. `BitWriter`, `BitReader`, `MTFState`, the Huffman tables, `PrefixCode` and the 128-bit register of
  `inflate_fast` are such classes. Buffers that are only read are sequences.
- Bit streams are sequences of booleans. Module `Bits` has the most significant bit first (bzip2), `LsbBits` the least
  significant one first (DEFLATE, Brotli). A reader's `Rest()` is the bits ahead of it; a writer's `written` is what
  it has accepted.
- Machine words are numbers with explicit bounds and remainders, or bit strings of length 32 or 64. Shifts that drop
  bits are written out. Table entries that the source packs into words are records in `inflate_fast`; the packed words
  of the inverse transform are kept as numbers, 20 bits of index with the character above.
- Where a malformed file makes the source's decoder leave its arrays or wrap a counter (codes of at most ten bits that
  overflow the ten-bit table, lengths that are all zero, more than 18002 selectors, none at all, or a run length that
  wraps) the model answers `Undefined` or `Lost` and says nothing more.
- `std::make_heap` and `std::pop_heap` are replaced by their contract: some node of least weight comes first. Which
  one among equals is a parameter, `HuffmanBuild.HeapRule`, that may depend on everything that happened before;
  results hold for every such rule, and with the rule fixed the compressor is a function of its input, up to the order
  of equal rotations.
- Ghost results describe what happened on the way: `parts` lists the blocks with their fields, `deep` tells whether a
  code depth was cut off, `read` lists the command and distance symbols that the Brotli decoder read.
- Loops that the source writes inline are methods of their own where that keeps the proofs short.
- `inflate_fast` is modelled in its x86 form, whose batch check is scalar; vector instructions elsewhere have their
  scalar meaning.

## What the proofs found

- `src/bzip2/bzip2_compress.cpp:285`: blocks are cut by raw size, but the decoder limits their size after run-length
  coding, which can be a quarter larger. See `Bzip2.LargeLevelsFail`.
- `src/bzip2/bzip2_compress.cpp:437-441`: the parallel footer takes the started byte's pending bits from its low end,
  while they stand at its top. See `BitAppend.LowBitsSame`, `Parallel.MergedIsFile` and `MergeFailure.MergeTwice`.
- `src/bzip2/bzip2_huffman.cpp:56`: depths are clamped without repair; the codes are then no longer a prefix code. See
  `HuffmanTree.KraftIffShallow` and, for weights that bring this about, `HuffmanRuns.FibonacciIsTall`.
- `src/brotli/brotli_compress.cpp:327-328`: for a simple code of four symbols the index is written lowest bit first,
  while the decoder reads the code highest bit first, so the two middle symbols are exchanged. See
  `BrotliSimple.WrittenIsCode`, `BrotliSequence.OwnSymbolsIffFew` and `BrotliSwap.FourCommandsFail`.
- `src/brotli/brotli_decompress.cpp:139`: the postfix is taken from the code as a whole and not from what is behind
  the direct codes. That is the same if and only if the number of direct codes is a multiple of the postfix range,
  which `src/brotli/brotli_meta.cpp:182` ensures. See `BrotliDistances.PostfixReadsBack`.
- `src/decompress/inflate_fast.cpp:511`: on a distance before the start of the output the match's bits are already
  consumed and the answer is that of an ordinary stop. The model's reference does the same (status `TooFar`).
- `src/decompress/inflate_fast.cpp:204`: the loop relies on at most 63 pending bits at its top; `InflateFast.Decode`
  shows that it keeps this.

## Model

| member | source | states |
|---|---|---|
| Rotations.CmpIsLexicographic | src/bzip2/bwt.cpp:162-165 | The sign used to compare rotations is the lexicographic order of the rotated strings, zero meaning the same string: the order that every sorter below is held to |
| Rotations.SortedListsAgree | src/bzip2/bwt.cpp:162-235 | Any two sorted lists of the rotations of one block agree at every place up to equality of rotations, so ties between equal rotations are harmless |
| SuffixSort.CountingPass | src/bzip2/bwt.cpp:204-222 | One counting pass writes the items in the stable order of their keys, computed from the counts, for any keys in range |
| SuffixSort.RankBytes | src/bzip2/bwt.cpp:181-197 | The first ranks are equal exactly for equal bytes and ordered as the bytes are |
| SuffixSort.TwoPassesSort | src/bzip2/bwt.cpp:199-222 | Two stable passes, the rank `gap` further on first and the own rank second, leave a permutation sorted by the first 2*gap cyclic characters |
| SuffixSort.RanksAlongRankPrefixes | src/bzip2/bwt.cpp:224-231 | Numbering along that order gives ranks that are equal exactly when the prefixes are equal |
| SuffixSort.UniqueRanksSorted | src/bzip2/bwt.cpp:199-235 | When all ranks differ the list is sorted by whole rotations, so stopping early is sound |
| SuffixSort.Double | src/bzip2/bwt.cpp:199-234 | One round turns an order by gap characters into an order by twice as many, ranks included |
| SuffixSort.BuildSuffixArray | src/bzip2/bwt.cpp:166-235 | For every non-empty block the array ends up holding all rotation starts in rotation order, periodic blocks included |
| SuffixOrder.StretchDecides | src/bzip2/bwt.cpp:46-60 | Unequal LMS stretches decide the order of two suffixes, equal ones pass the decision to where the stretches end |
| SuffixOrder.OrderRefinesStretch | src/bzip2/bwt.cpp:62-92 | Whatever order the LMS positions were parked in, induced sorting never contradicts the order of the LMS stretches |
| SuffixOrder.OrderIsSuffix | src/bzip2/bwt.cpp:26-44 | When the parked order is the true one, induced order is suffix order |
| SuffixRanks.RankFromHead | src/bzip2/bwt.cpp:12-24 | A suffix's rank is its bucket's head plus the smaller positions of the bucket |
| SuffixInduce.StepL | src/bzip2/bwt.cpp:29-36 | Scanning one slot from the left puts the L suffix in front of it at exactly its own rank and moves only that bucket's head |
| SuffixInduce.StepS | src/bzip2/bwt.cpp:37-43 | Scanning one slot from the right puts the S suffix in front of it at exactly its own rank and moves only that bucket's tail |
| Sais.GetBuckets | src/bzip2/bwt.cpp:12-24 | The array holds, for every character, the first or the last slot of its bucket |
| Sais.Classify | src/bzip2/bwt.cpp:65-68 | Positions are marked S exactly when their suffix is smaller than the next one |
| Sais.InduceL | src/bzip2/bwt.cpp:29-36 | After the left-to-right pass every L suffix stands at its rank among all suffixes |
| Sais.InduceS | src/bzip2/bwt.cpp:37-43 | After the right-to-left pass all suffixes stand in induced order |
| Sais.Induce | src/bzip2/bwt.cpp:26-44 | From LMS suffixes parked at their bucket ends the two passes produce the whole induced order |
| Sais.LmsEqual | src/bzip2/bwt.cpp:48-60 | The answer is whether the stretches from two LMS positions are the same |
| Sais.AssignNames | src/bzip2/bwt.cpp:93-104 | Names given along the sorted stretches compare exactly as the stretches do |
| SuffixReduce.AtMostHalf | src/bzip2/bwt.cpp:106-118 | The reduced string has at least one and at most half as many characters as the text |
| SuffixReduce.ReducedTerminated | src/bzip2/bwt.cpp:106-118 | The reduced string again ends in its only zero, so the recursive call gets a string of the same kind |
| SuffixReduce.ReducedOrder | src/bzip2/bwt.cpp:106-118 | Suffixes of the reduced string are ordered as the LMS suffixes they stand for |
| SuffixReduce.DistinctNamesSorted | src/bzip2/bwt.cpp:113-118 | When all names differ, listing positions by name is the sorted suffix array, so no recursion is needed |
| Sais.Reduce | src/bzip2/bwt.cpp:106-111 | The names are compacted in text order together with the positions they belong to |
| Sais.Solve | src/bzip2/bwt.cpp:113-118 | Directly or by recursion, the suffix array of the reduced string |
| Sais.SolutionSorted | src/bzip2/bwt.cpp:119-126 | The solution, read as positions, lists the LMS suffixes of the text in true suffix order |
| Sais.SortSuffixes | src/bzip2/bwt.cpp:62-133 | For every string whose last character is its only zero, all suffix positions end up in strictly increasing suffix order |
| Sais.DoubledOrder | src/bzip2/bwt.cpp:139-160 | Suffix order of the doubled block, cut to its first copy, never contradicts rotation order |
| Sais.BuildSuffixArraySais | src/bzip2/bwt.cpp:139-160 | For every non-empty block the first-copy positions form a valid rotation order, the same contract as prefix doubling |
| Bwt.Transform | src/bzip2/bwt.cpp:237-284 | Output and primary index form a Burrows-Wheeler transform of the input by some valid rotation order, whichever sorter ran |
| Bwt.ChooseSais | src/bzip2/bwt.cpp:246-262 | The linear-time sorter is chosen exactly for at least 4096 bytes with fewer than 200 different values |
| BwtInverse.NextTableOrder | src/bzip2/bwt.cpp:286-306 | Entries of the inverse table are ordered by character and, within a character, by row |
| BwtInverse.WalkFollowsText | src/bzip2/bwt.cpp:308-319 | After k steps the walk stands on a row equal to the rotation at k and has read character k of the text |
| BwtInverse.UnbwtRestores | src/bzip2/bwt.cpp:286-320 | Inverting any Burrows-Wheeler transform gives the text back, for every block, whatever order equal rotations had |
| BwtWalk.FillTable | src/bzip2/bwt.cpp:299-306 | Scattering with running counters yields the stable inverse permutation of the column |
| BwtWalk.Unpack | src/bzip2/bwt.cpp:308-319 | Reading a packed entry apart gives back the row (20 bits) and its character |
| BwtWalk.Inverse | src/bzip2/bwt.cpp:286-320 | The in-place inverse writes what the mathematical inverse reads off; for a transform, the original block |
| BwtWalk.Walk | src/bzip2/bwt.cpp:308-319 | Following the packed table visits exactly the characters of the inverse transform |
| BwtWalk.RowStep | src/bzip2/bzip2_decompress.cpp:365-401 | The packed entry reached after k steps carries character k of the text and the row after it |
| Rle1.EncodeBlock | src/bzip2/bzip2_compress.cpp:57-77 | The loop produces the run-length code of the whole block, whose inverse is given by DecodeEncode |
| Rle1.ScanRun | src/bzip2/bzip2_compress.cpp:60-66 | The run found is the longest run of equal bytes up to 259 |
| Rle1.DecodeRun | src/bzip2/bzip2_decompress.cpp:379-480 | One encoded run is read back as that run from any state that did not just count the same byte |
| Rle1.DecodeEncode | src/bzip2/bzip2_compress.cpp:57-77 | The decoder's state machine restores every input, runs over 259 and count bytes equal to the run byte included |
| Rle1.EncodeSize | src/bzip2/bzip2_compress.cpp:57-77 | The code is at most 5/4 of the input, and empty only for an empty input |
| Rle1.QuadsGrow | src/bzip2/bzip2_compress.cpp:57-77 | The bound is reached: k runs of exactly four bytes become 5*k bytes |
| Crc.ShiftLinear | src/bzip2/bzip2_crc.hpp:19-41 | Dividing by the polynomial is linear over exclusive or, the reason slicing works |
| Crc.LookupIsDivision | src/bzip2/bzip2_crc.hpp:45-47 | One table lookup and shift is the division of one byte by the polynomial, bit by bit |
| Crc.MakeTables | src/bzip2/bzip2_crc.hpp:19-42 | Row n maps a byte to the register n+1 bytes later |
| Crc.Update | src/bzip2/bzip2_crc.hpp:45-47 | One byte through the table is one byte of polynomial division |
| Crc.SliceIsEightBytes | src/bzip2/bzip2_crc.hpp:52-62 | Eight lookups in eight tables are eight bytes of division, for every register and all bytes |
| Crc.UpdateBytes | src/bzip2/bzip2_crc.hpp:49-66 | Slicing by eight equals the byte-at-a-time fold for every start value and every byte string |
| Crc.UpdateRepeat | src/bzip2/bzip2_crc.hpp:68-95 | Equals folding len copies of the byte, in chunks of 64 and a rest |
| Crc.BlockChecksum | src/bzip2/bzip2_crc.hpp:97-103 | Start at all ones, fold, complement |
| CrcPolynomial.FirstEntryIs | src/bzip2/bzip2_crc.hpp:19-29 | The entry for byte 1 is the polynomial below x^32, its exponents written out |
| CrcPolynomial.FoldIsRemainder | src/bzip2/bzip2_crc.hpp:45-66 | The register after a message, from any start value, is the remainder of start value times x^8n plus message times x^32 modulo the polynomial with exponents 32, 26, 23, 22, 16, 12, 11, 10, 8, 7, 5, 4, 2, 1, 0 |
| CrcPolynomial.OneRemainder | src/bzip2/bzip2_crc.hpp:45-66 | No other register is a remainder, so the remainder determines the checksum |
| CrcPolynomial.ChecksumIsRemainder | src/bzip2/bzip2_crc.hpp:97-103 | The complement of a block's checksum is the remainder for the start value of all ones |
| CrcWords.CheckValue | src/bzip2/bzip2_crc.hpp:97-103 | The checksum of the nine bytes 0x31 to 0x39 is 0xFC891918 |
| CrcStream.CombineBit | src/bzip2/bzip2_crc.hpp:105-107 | Bit j of the combination differs from the running value's next lower bit, around the end, exactly when bit j of the block's checksum is set |
| CrcStream.StreamChecksum | src/bzip2/bzip2_crc.hpp:105-107 | A stream's checksum is the exclusive or over all blocks of the block's checksum rotated left by the number of blocks behind it |
| CrcStream.ExchangeShows | src/bzip2/bzip2_crc.hpp:105-107 | Exchanging two neighbouring blocks goes unnoticed if and only if their checksums are equal or complements of each other |
| Mtf.State.Encode | src/bzip2/mtf.hpp:19-28 | Returns the place of the byte and moves it to the front, the others keeping their order; -1 and no change for a byte not in the list |
| Mtf.State.Decode | src/bzip2/mtf.hpp:30-37 | Returns the byte at the place and moves it to the front |
| Mtf.MoveKeepsElements | src/bzip2/mtf.hpp:10-38 | The list stays a permutation of the bytes in use |
| Mtf.UnranksRanks | src/bzip2/mtf.hpp:42-55 | Reading the ranks back restores the bytes, for every list that covers them |
| Mtf.EncodeInUse | src/bzip2/mtf.hpp:42-47 | Every byte of the array is overwritten with its rank, bytes that are not listed with 255 |
| Mtf.DecodeInUse | src/bzip2/mtf.hpp:50-55 | The array is overwritten with the bytes of its ranks |
| Rle2.EmitRun | src/bzip2/bzip2_compress.cpp:94-105 | A run length goes out in bijective base 2, least significant digit first |
| Rle2.EncodeBlock | src/bzip2/bzip2_compress.cpp:85-121 | The symbol stream is the encoding of the ranks over the alphabet of the marked bytes |
| Rle2.RunDigits | src/bzip2/bzip2_decompress.cpp:330-341 | The decoder adds the digits of a run up to the run length that was written |
| Rle2.RunEncode | src/bzip2/bzip2_decompress.cpp:308-359 | Symbols of any block over the bytes in use are read back as exactly the block, or refused when it is longer than 900001 bytes |
| Rle2.SymbolsSize | src/bzip2/bzip2_compress.cpp:85-121 | At most one symbol for every byte, pending zeros included, plus the end mark |
| Rle2.SymbolsInAlphabet | src/bzip2/bzip2_compress.cpp:85-121 | All symbols before the end mark are smaller than the end mark, so only the last one ends the block |
| HuffmanTree.GreedyIsHeavy | src/bzip2/bzip2_huffman.cpp:41-45 | A tree of height h made by merging two lightest nodes weighs at least the Fibonacci number h+2 |
| HuffmanTree.LightIsShallow | src/bzip2/bzip2_huffman.cpp:41-61 | Below a total weight of 28657 no leaf is deeper than 20, so the clamp never fires |
| HuffmanRuns.BoundIsSharp | src/bzip2/bzip2_huffman.cpp:41-61 | For weights of total 28657 some run of 21 merges of two lightest nodes ends in a tree of height 21, so the bound cannot be raised |
| HuffmanRuns.FibonacciIsTall | src/bzip2/bzip2_huffman.cpp:41-45 | For weights 1, 1, 2, 3, 5, ... every run of merges, however ties are broken, ends in a tree one less tall than it has symbols |
| HuffmanTree.HeightBelowLeaves | src/bzip2/bzip2_huffman.cpp:51-61 | A tree is less tall than it has symbols, so up to 21 symbols are never clamped |
| HuffmanTree.ShorterCodesFit | src/bzip2/bzip2_huffman.cpp:51-61 | Clamped or not, all codes of at most 19 bits fit their lengths; only codes of 20 bits can be too large |
| HuffmanOptimal.GreedyIsOptimal | src/bzip2/bzip2_huffman.cpp:41-61 | No lengths that leave room for a prefix code have a smaller weighted sum than the depths that any run of merges gives |
| HuffmanOptimal.NoneShorter | src/bzip2/bzip2_huffman.cpp:51-61 | The lengths noted from the tree, clamped or not, have no larger weighted sum than any lengths with room |
| HuffmanTree.KraftIffShallow | src/bzip2/bzip2_huffman.cpp:51-61 | The lengths noted have Kraft sum one if and only if no depth was clamped; otherwise the sum exceeds one |
| HuffmanTree.MergeRound | src/bzip2/bzip2_huffman.cpp:41-45 | One round keeps a forest of disjoint greedy trees over the same symbols with the same total weight |
| HuffmanBuild.PopMin | src/bzip2/bzip2_huffman.cpp:31-34 | Some node of least weight leaves the heap; which one among equals is up to a rule that is a parameter |
| HuffmanBuild.BuildTree | src/bzip2/bzip2_huffman.cpp:17-45 | The nodes made are a function of frequencies and rule; the last one is the root of one greedy tree over all symbols, unused symbols weighing one |
| HuffmanBuild.AssignDepths | src/bzip2/bzip2_huffman.cpp:51-61 | Every symbol's length is its depth in the tree, cut off at 20 |
| HuffmanBuild.LengthsFromFreqs | src/bzip2/bzip2_huffman.cpp:10-63 | No prefix code costs less, clamped or not; Kraft sum at least one, exactly one if and only if nothing was clamped; nothing is clamped below weight 28657 or up to 21 symbols, and more than 21 Fibonacci weights always are |
| HuffmanBuild.LensForIs | src/bzip2/bzip2_huffman.cpp:10-63 | All of this holds of the lengths that frequencies and rule determine, whatever the rule |
| HuffmanBuild.EncTable.AssignCodes | src/bzip2/bzip2_huffman.cpp:74-84 | Every symbol gets the canonical code of its length |
| HuffmanBuild.EncTable.BuildFromFreqs | src/bzip2/bzip2_huffman.cpp:10-85 | The finished table holds the canonical codes of lengths 1 to 20 that LengthsFromFreqs describes |
| HuffmanTables.BestTable | src/bzip2/bzip2_huffman.cpp:119-125 | No table codes the group with fewer bits, and every earlier one takes more |
| HuffmanTables.BuildTables | src/bzip2/bzip2_huffman.cpp:89-129 | Tables and selectors are those that four rounds settle on, a function of symbols and rule; every selector names a table that codes its group of fifty with the fewest bits; a depth was clamped if and only if some table has codes that do not fit, never for light blocks or small alphabets |
| HuffmanSizes.TableCost | src/bzip2/bzip2_huffman.cpp:10-63 | A table costs its symbols at most 513/64 bits each, with one more symbol for every entry of the alphabet |
| HuffmanSizes.CostByTable | src/bzip2/bzip2_huffman.cpp:104-113 | Summed by group or by table, the symbols cost the same, and every symbol is counted once |
| HuffmanSizes.SymbolsCost | src/bzip2/bzip2_huffman.cpp:89-129 | After any round the symbols of a block take at most 513/64 bits each, plus as much for every entry of every table |
| ThreeSymbols.LensOfThree | src/bzip2/bzip2_huffman.cpp:31-61 | With three symbols a heaviest one gets one bit and the others two, whatever the ties |
| ThreeSymbols.OneGroup | src/bzip2/bzip2_huffman.cpp:101-128 | A block of one group keeps its first table from the first round to the last when that table is as cheap as any |
| Canonical.EndCodeIsKraft | src/bzip2/bzip2_huffman.cpp:74-84 | The codes up to any length cover exactly as many bit strings as their Kraft sum counts |
| Canonical.CodesFitIffKraft | src/bzip2/bzip2_huffman.cpp:65-85 | All codes fit their lengths if and only if the Kraft sum is at most one |
| Canonical.PrefixFree | src/bzip2/bzip2_huffman.cpp:65-85 | No code is a prefix of another symbol's code |
| Canonical.DecodeCode | src/bzip2/bzip2_huffman.cpp:185-230 | A symbol's code followed by any bits decodes to the symbol and leaves exactly those bits |
| Canonical.DecodeIffCode | src/bzip2/bzip2_huffman.cpp:185-230 | Bits decode to a symbol if and only if they start with its code |
| Canonical.CompleteDecodes | src/brotli/brotli_huffman.cpp:122-134 | With Kraft sum exactly one every long enough bit string decodes |
| Canonical.FirstCodes | src/bzip2/bzip2_huffman.cpp:74-80 | The loop's first code of every length is one past the doubled end of the shorter codes |
| DecodeTable.SetBounds | src/bzip2/bzip2_huffman.cpp:133-183 | base and limit name the first and last code of every length that is used |
| DecodeTable.ListSymbols | src/bzip2/bzip2_huffman.cpp:133-183 | perm lists the symbols by length and then by number |
| DecodeTable.FillFast | src/bzip2/bzip2_huffman.cpp:133-183 | Each ten-bit index holds the symbol whose code it starts with, or -1 when no short code does, as long as the codes of at most ten bits fit their lengths |
| DecodeTable.LookupDecides | src/bzip2/bzip2_decompress.cpp:58-99 | What ten bits of lookahead say agrees with reading the input bit by bit |
| DecodeTable.Table.Build | src/bzip2/bzip2_huffman.cpp:133-183 | For every list of lengths up to 20, not all zero, whose codes of at most ten bits fit, the tables decode exactly its canonical code, longer codes that do not fit included |
| DecodeTable.AlmostMeansShort | src/bzip2/bzip2_huffman.cpp:133-183 | Lengths that a clamp made overfull are still decoded inside the tables |
| DecodeTable.Table.DecodeHot | src/bzip2/bzip2_decompress.cpp:58-99 | Fast lookup or bit by bit, the symbol and the bits consumed are those of canonical decoding, overfull codes included; -1 when the bits ahead start with no code |
| DecodeTable.Table.SlowFrom | src/bzip2/bzip2_huffman.cpp:185-230 | Reading on bit by bit finds the symbol of canonical decoding |
| BitIo.OrDisjoint | src/bzip2/bzip2_compress.cpp:31-41 | Or-ing a field into freed low bits is adding it |
| BitIo.Writer.WriteBits | src/bzip2/bzip2_compress.cpp:31-41 | A field that fits is appended to the bit stream, whole bytes go to the buffer, and running over the end is remembered |
| BitIo.Writer.Flush | src/bzip2/bzip2_compress.cpp:43-50 | The stream becomes whole bytes, padded with zeros |
| BitIo.Reader.Refill | src/bzip2/bzip2_decompress.cpp:21-41 | On the eight-byte and the byte-wise path the unread bit stream stays the same |
| BitIo.Reader.ReadBits | src/bzip2/bzip2_decompress.cpp:43-51 | Returns the next n bits of the stream and leaves the others; refused without consuming when fewer are left |
| BitIo.LoadedBits | src/bzip2/bzip2_decompress.cpp:23-34 | Loading the top bytes of an eight-byte chunk moves exactly their bits into the accumulator |
| FieldWriter.WriteInUse | src/bzip2/bzip2_compress.cpp:210-223 | Writes the two-level map of the bytes in use |
| BlockFormat.ReadInUseBits | src/bzip2/bzip2_decompress.cpp:235-253 | The two-level map reads back as the same set of bytes |
| FieldReader.ReadUsed | src/bzip2/bzip2_decompress.cpp:235-253 | Reads the map as the format defines it, failing when the input ends |
| FieldWriter.SelectorMtfEncode | src/bzip2/bzip2_compress.cpp:125-140 | Each selector becomes its place in a recency list of the tables |
| FieldWriter.WriteSelectors | src/bzip2/bzip2_compress.cpp:230-238 | Every place goes out as that many ones and a zero |
| BlockFormat.ReadSelectorBits | src/bzip2/bzip2_decompress.cpp:261-280 | Written selectors read back as themselves, the recency list inverted |
| FieldReader.ReadTableChoices | src/bzip2/bzip2_decompress.cpp:261-280 | The loop computes what the format says the selectors are, rejects places past the last table, and is Lost beyond the array's 18002 entries |
| FieldWriter.WriteLengths | src/bzip2/bzip2_compress.cpp:240-250 | A table's lengths go out as a start value and unit steps |
| BlockFormat.ReadTableBits | src/bzip2/bzip2_decompress.cpp:282-301 | Delta-coded lengths read back as themselves, for lengths 1 to 20 |
| FieldReader.ReadCodeLengths | src/bzip2/bzip2_decompress.cpp:282-297 | The loop computes the lengths that the format defines, refusing steps past 1 and 20 |
| FieldReader.ReadDecodeTables | src/bzip2/bzip2_decompress.cpp:282-301 | All tables are built for the lengths read; Lost exactly when short codes overflow the ten-bit table or all lengths are zero |
| BlockSymbols.ReadSymbolBits | src/bzip2/bzip2_decompress.cpp:303-359 | Reading coded symbols, fifty per selector, runs the symbol machine over exactly the symbols written |
| BlockColumn.Column.Feed | src/bzip2/bzip2_decompress.cpp:330-359 | One symbol changes column, byte counts, run state and recency list as the abstract machine prescribes |
| BlockColumn.Column.FlushRun | src/bzip2/bzip2_decompress.cpp:318-328 | A pending run is written out and counted, or refused past 900001 bytes |
| BlockColumn.ReadColumn | src/bzip2/bzip2_decompress.cpp:303-359 | The fused Huffman, run and recency loop answers exactly what the parser of bit strings answers |
| BlockDecoder.CumulativeCounts | src/bzip2/bzip2_decompress.cpp:361-374 | Start positions of every byte value from the counts of the first phase |
| BlockDecoder.FillPacked | src/bzip2/bzip2_decompress.cpp:361-377 | The packed table is the inverse permutation of the column with the characters above it |
| BlockOutput.Output.Step | src/bzip2/bzip2_decompress.cpp:403-440 | One character, and the repeats behind a fourth equal one, extend the output as the run-length machine does, or report missing room |
| BlockOutput.WalkDeferred | src/bzip2/bzip2_decompress.cpp:442-480 | The path without running checksum writes the decoded block or reports missing room |
| BlockOutput.WalkIncremental | src/bzip2/bzip2_decompress.cpp:403-440 | The path with the running checksum, and its switch in the middle of a block, agree with the other path |
| BlockOutput.WalkBlock | src/bzip2/bzip2_decompress.cpp:379-482 | Both ways write the run-length decoding of the text, return its checksum, and fail exactly when it is malformed or has no room |
| BlockDecoder.DecodeBlock | src/bzip2/bzip2_decompress.cpp:214-482 | The three fused phases refine the plain parser: same bytes, same checksum, same unread bits, same refusals; earlier output stays |
| BlockEncoder.MarkUsed | src/bzip2/bzip2_compress.cpp:159-161 | Exactly the bytes that occur are marked |
| BlockEncoder.ListUsed | src/bzip2/bzip2_compress.cpp:163-167 | The marked bytes in increasing order |
| BlockEncoder.WriteSymbols | src/bzip2/bzip2_compress.cpp:253-259 | Every symbol goes out with its group's table |
| BlockEncoder.CompressBlock | src/bzip2/bzip2_compress.cpp:144-262 | The fields are what the stages make of the bytes, tables and selectors included; what is appended is the bits of a block that codes the input, as long as every symbol written has a code that fits and there are at most 18002 groups; both hold for small run-length codes, the first also for at most 19 different bytes |
| BlockEncoder.Sizes | src/bzip2/bzip2_compress.cpp:156-157 | Whatever a block grows to, its length fits 24 bits; up to 900099 bytes it has at most 18002 groups |
| BlockCodec.ReadBlockBits | src/bzip2/bzip2_decompress.cpp:214-482 | A written block, its depths clamped or not, is read back as its bytes if and only if its run-length code has at most 900001 bytes and there is room; otherwise it is refused |
| BlockCodec.FinishCodes | src/bzip2/bzip2_decompress.cpp:361-482 | Inverting the transform and the runs of a coded block gives the block and its checksum |
| Stream.ReadBlocksBits | src/bzip2/bzip2_decompress.cpp:486-529 | A written sequence of blocks with end mark and combined checksum is read back as the joined data, if and only if every block is decodable and the data has room |
| Bzip2.JoinedCut | src/bzip2/bzip2_compress.cpp:284-287 | Cutting the input into blocks loses nothing: the blocks joined are the input |
| Bzip2.Compress | src/bzip2/bzip2_compress.cpp:266-305 | The result is 0 only when the file does not fit; otherwise header, all blocks, end mark, combined checksum and zero padding, as long as every symbol written has a code that fits and no block more than 18002 groups |
| Bzip2.ReadMark | src/bzip2/bzip2_decompress.cpp:497-511 | The 48-bit mark is read as three numbers and recognised as block, end or neither |
| Bzip2.Decompress | src/bzip2/bzip2_decompress.cpp:486-529 | Returns exactly what the plain reader of files says, on every input: data, refusal (0), or an outcome outside the decoder's tables |
| Bzip2.FileRoundTrip | src/bzip2/bzip2_decompress.cpp:486-529 | A file of src is read back as src if and only if every block's run-length code has at most 900001 bytes and src has room; otherwise it is refused |
| Bzip2.SmallLevelsFit | src/bzip2/bzip2_compress.cpp:285-292 | At levels 1 to 7 that condition holds for every input |
| Bzip2.LargeLevelsFail | src/bzip2/bzip2_compress.cpp:285-292 | At levels 8 and 9, 180001 runs of four equal bytes are one block with intact codes and few enough groups, and its file is refused |
| Bzip2.LongInputIs | src/bzip2/bzip2_compress.cpp:285-292 | That input is cut into one block whose run-length code has 900005 bytes |
| Bzip2.FitsGroups | src/bzip2/bzip2_huffman.hpp:11-12 | Blocks that satisfy it never have more than 18002 groups |
| Bzip2.ShortInput | src/bzip2/bzip2_huffman.cpp:51-61 | Up to 22718 bytes every code fits and the condition holds |
| Bzip2.RoundTrip | tests/unit/test_bzip2.cpp:20-53 | Compressing and decompressing gives the input back, and fails exactly outside the condition, as long as every symbol written has a code that fits; unconditionally up to 22718 bytes; at levels 8 and 9 it fails for runs of four |
| BitAppend.SpreadByte | src/bzip2/bzip2_compress.cpp:318-330 | A byte split over two at a shift is its bits behind the bits already there |
| BitAppend.Append | src/bzip2/bzip2_compress.cpp:311-331 | Whatever the bit offset, the buffer then holds the old bits followed by the appended ones and zeros |
| BitAppend.LowBitsSame | src/bzip2/bzip2_compress.cpp:437-441 | The low bits of the partial byte are its pending bits if and only if those are all zero |
| Parallel.CompressAlone | src/bzip2/bzip2_compress.cpp:377-396 | A block's own buffer holds its bits padded with zeros; it runs out exactly when they exceed the size that the bound gives |
| Parallel.AppendAll | src/bzip2/bzip2_compress.cpp:415-426 | Header and all blocks stand in the buffer as one concatenated bit string, with the combined checksum |
| Parallel.WriteFooter | src/bzip2/bzip2_compress.cpp:428-451 | The footer's bytes replace the started byte, starting from its low bits |
| Parallel.Merge | src/bzip2/bzip2_compress.cpp:404-453 | Size and contents of the merged file, whatever the blocks; 0 exactly when there is no room |
| Parallel.MergedIsFile | src/bzip2/bzip2_compress.cpp:428-451 | The merged bytes are the serial file if and only if the bits pending before the footer are all zero (no bits: a byte boundary) |
| Parallel.CompressParallel | src/bzip2/bzip2_compress.cpp:333-454 | 0 exactly without room or when a block outgrows its own buffer; otherwise a file if and only if there is one block, one thread, or only zeros pending before the footer |
| SameBlocks.SameBlock | src/bzip2/bzip2_compress.cpp:144-262 | Compressing the same bytes twice gives the same block, but for the place of the original among equal rotations |
| BwtInverse.OneColumn | src/bzip2/bwt.cpp:237-284 | The last column is the same whatever the order of equal rotations |
| BlockSizes.FullBlockFits | src/bzip2/bzip2_compress.cpp:16-19 | A block of at least 100000 bytes fits the buffer of its own, whatever its bytes, unless run-length coding makes it longer |
| BlockSizes.FewAreClean | src/bzip2/bzip2_huffman.cpp:51-61 | In a block of at most 19 different bytes every symbol is written with a code that fits |
| TailBlocks.FieldsOfTail | src/bzip2/bzip2_compress.cpp:144-262 | For 3 or 518 bytes 255 the encoder has no choice but for the unused second table: symbols, selector and first table are forced |
| TailBlocks.BitsOfTail | src/bzip2/bzip2_compress.cpp:195-259 | The exact length of both blocks, and the set bit that they end in |
| MergeFailure.NotBothZero | src/bzip2/bzip2_compress.cpp:428-451 | For every input that fills its blocks, at least with one of 3 and 518 bytes 255 behind it, the bits pending before the footer are not all zero |
| MergeFailure.MergeTwice | src/bzip2/bzip2_compress.cpp:333-454 | Running the parallel compressor on an input that fills its blocks with either tail behind it, at least one result is not a file, unless the blocks of the input itself do not fit their buffers or codes; plain blocks do |
| MergeFailure.OneByteInput | src/bzip2/bzip2_compress.cpp:333-454 | A block of any byte over and over is such an input, at every level |
| BackCopy.CopyBackIs | src/decompress/inflate_fast.cpp:87-126 | A string whose new bytes each equal the one dist places before is the byte-by-byte copy |
| BackCopy.CopyDoubling | src/decompress/inflate_fast.cpp:110-125 | Ever larger pieces give the byte-by-byte copy, for all distances and lengths |
| BackCopy.CopyMatch | src/decompress/inflate_fast.cpp:34-126 | For every distance and every length up to 258 the first len bytes are the byte-by-byte copy; only the 31 bytes behind may change |
| BackCopy.CopyMatchBytes | src/brotli/brotli_decompress.cpp:253-280 | The Brotli copy is the same byte-by-byte copy and changes nothing behind it |
| Accumulator.ExtractIs | src/decompress/inflate_fast.cpp:141-148 | Eleven bits at any offset up to 120 of the two-word register |
| Accumulator.ShiftedIs | src/decompress/inflate_fast.cpp:150-162 | Consuming n bits shifts both words as one register |
| Accumulator.Register.Load1 | src/decompress/inflate_fast.cpp:209-217 | The bits ahead stay the same and 56 to 63 of them are in the register |
| Accumulator.Register.Load2 | src/decompress/inflate_fast.cpp:219-231 | The bits ahead stay the same; 64 more of them are in the register, or it is unchanged |
| Accumulator.Register.Consume | src/decompress/inflate_fast.cpp:150-162 | The bits ahead lose their first n |
| Accumulator.Register.Rewind | src/decompress/inflate_fast.cpp:529-552 | Giving whole bytes back leaves the bits ahead unchanged, at most 56 pending, all in the first word |
| InflateFast.BitReader.RefillFast | src/deflate/bit_reader.hpp:37-49 | The bits ahead stay the same, at least 56 pending |
| InflateFast.BitReader.RefillSafe | src/deflate/bit_reader.hpp:51-59 | The bits ahead stay the same, at least 56 pending or the input used up |
| InflateFast.BitReader.ReadBits | src/deflate/bit_reader.hpp:61-79 | Returns the next bits and leaves the others |
| InflateCodes.LengthsCover | src/deflate/huffman.cpp:15-21 | Length symbols cover 3 to 258 in order without gap or overlap by the arithmetic of section 3.2.5 of RFC 1951; only the last range is cut short, by the symbol for 258 |
| InflateCodes.DistancesCover | src/deflate/huffman.cpp:24-32 | Distance symbols cover 1 to 32768 in order without gap or overlap, by the arithmetic of the same section |
| InflateCodes.MatchMeans | src/decompress/inflate_fast.cpp:478-508 | A match reads exactly the length and distance of those ranges from its extra bits, for every index and all tables |
| InflateCodes.MatchRoundTrip | src/decompress/inflate_fast.cpp:478-508 | For every length 3 to 258 and distance 1 to 32768, the symbols and extra bits computed by halving are read back as that length and distance, whatever the codes are |
| InflateCodes.StepCopies | src/decompress/inflate_fast.cpp:478-515 | One whole match with its length symbol copies that many bytes from that far back and leaves the bits behind it |
| Inflate.Batch | src/decompress/inflate_fast.cpp:376-455 | Entries found at equal strides, all literals of that code length, are what that many single decoding steps find |
| InflateFast.LookAhead | src/decompress/inflate_fast.cpp:240-265 | The speculative entries are the table entries at multiples of the stride |
| InflateFast.TryBatch | src/decompress/inflate_fast.cpp:376-455 | An accepted batch of 9, 6 or 4 literals leaves output and bits as that many single symbols would; a refused one leaves both alone |
| InflateFast.ReadMatch | src/decompress/inflate_fast.cpp:478-508 | Length, distance and bits used are those of the reference, second tables included |
| InflateFast.DecodeOne | src/decompress/inflate_fast.cpp:458-522 | One symbol outside a batch is one reference step |
| InflateFast.DecodePass | src/decompress/inflate_fast.cpp:233-523 | One pass is some number of reference steps |
| InflateFast.Decode | src/decompress/inflate_fast.cpp:192-527 | The loop is some number of reference steps and stops only at the end of the block, a bad distance, little output room or little input |
| InflateFast.InflateFast | src/decompress/inflate_fast.cpp:164-555 | Reader, output and answer are those of k symbols decoded one at a time, for any tables with primary lengths up to 11; true means end of block |
| BrotliBits.BitReader.Fill | src/brotli/brotli_bit.hpp:24-34 | The bits ahead stay the same; an error exactly when fewer than needed are left |
| BrotliBits.BitReader.ReadBits | src/brotli/brotli_bit.hpp:36-43 | The next n bits, lowest first; 0 and an error when fewer are left |
| BrotliBits.BitWriter.WriteBits | src/brotli/brotli_bit.hpp:99-113 | The low n bits are appended to the bits written; fails exactly when the whole bytes do not fit the buffer |
| BrotliCodes.SymbolForInsertCopy | src/brotli/brotli_compress.cpp:140-192 | Exactly the command symbol of the eights of the two length codes; its ranges hold both lengths; none exactly for lengths out of range |
| BrotliCodes.SymbolForInsert | src/brotli/brotli_compress.cpp:78-105 | Exactly the first symbol for the insert length, whose copy code has no extra bits; none exactly for lengths out of range |
| BrotliCodes.GroupsCover | src/brotli/brotli_compress.cpp:140-192 | The nine groups with explicit distances cover all pairs of insert and copy codes |
| BrotliCodes.CommandRoundTrip | src/brotli/brotli_decompress.cpp:42-105 | Every encoded command decodes to the same two lengths and leaves the bits behind |
| BrotliCodes.SymbolsOfGroups | src/brotli/brotli_decompress.cpp:81-105 | The insert and copy codes of all 704 symbols: the first 128 have insert codes 0 to 7 and copy codes 0 to 15, the others every pair once |
| BrotliCodes.CodeForDistance | src/brotli/brotli_compress.cpp:237-259 | The code of the only bucket that holds the distance, none only for 0 or beyond the last bucket |
| BrotliCodes.NextBucket | src/brotli/brotli_compress.cpp:237-259 | Distance buckets follow each other without gaps |
| BrotliCodes.DistanceRoundTrip | src/brotli/brotli_decompress.cpp:107-148 | Every encoded distance decodes to itself |
| BrotliCodes.LastDistance | src/brotli/brotli_decompress.cpp:107-148 | Distance symbol 0 is the last distance and takes no extra bits |
| BrotliDistances.RecentDistances | src/brotli/brotli_decompress.cpp:115-131 | Codes 0 to 3 are the four last distances, 4 to 9 and 10 to 15 the last and the second last one less or more 1, 2 and 3; a sum that is not positive is refused; no extra bits |
| BrotliDistances.RingIsHistory | src/brotli/brotli_decompress.cpp:150-156 | The four distances kept are the end of the list of distances used, which starts with 16, 15, 11, 4 and never repeats its last entry |
| BrotliDistances.DistanceReadsBack | src/brotli/brotli_decompress.cpp:133-147 | For all numbers of direct codes and postfix bits every distance has a code, computed by halving, and reads back as itself |
| BrotliDistances.CodeInAlphabet | src/brotli/brotli_meta.cpp:219 | That code is in the alphabet if and only if the distance is at most ndirect + (2^26 - 4) * 2^npostfix |
| BrotliDistances.PostfixReadsBack | src/brotli/brotli_decompress.cpp:139-146 | The code of section 4 of RFC 7932 is read back if and only if the number of direct codes is a multiple of 2^npostfix, as the header makes it |
| BrotliTokens.MatchLength | src/brotli/brotli_compress.cpp:541-567 | The word-wise comparison finds the longest match up to the limit |
| BrotliTokens.FindMatch | src/brotli/brotli_compress.cpp:523-570 | The longest match with the position that the table names, if it has at least eight bytes and is near enough; never before position 4 |
| BrotliTokens.InsertMatchCoverage | src/brotli/brotli_compress.cpp:462-495 | Short matches are entered whole, long ones at every step-th place and at their last sixteen, the step depending on length and quality |
| BrotliTokens.AddUniqueSymbol | src/brotli/brotli_compress.cpp:572-586 | The list stays sorted, in the alphabet, with at most four members; refused only for a fifth |
| BrotliTokens.TokenCovers | src/brotli/brotli_compress.cpp:613-640 | Literals and a match carry the replayed output on along the input |
| BrotliTokens.BuildTokens | src/brotli/brotli_compress.cpp:588-666 | Which inputs are accepted and which tokens result is a function of input and quality; for every accepted input the tokens tile it in order, replaying their inserts and overlapping copies gives the input, every symbol stands for its lengths and distance, and every listed symbol is used |
| BrotliPrefix.Reverse | src/brotli/brotli_huffman.cpp:93-101 | The bits of a code read from the other end |
| BrotliPrefix.StartsMeans | src/brotli/brotli_huffman.cpp:89-103 | An eight-bit index starts with a code exactly when its low bits are the reversed code |
| BrotliPrefix.LatestNext | src/brotli/brotli_huffman.cpp:89-103 | Entering the next symbol leaves at every index the last symbol so far whose code starts it |
| BrotliPrefix.LatestFull | src/brotli/brotli_huffman.cpp:89-103 | When the codes fit, at most one starts an index, so every symbol with a short code is found everywhere |
| BrotliPrefix.PrefixCode.FillLookup | src/brotli/brotli_huffman.cpp:89-103 | Every index holds the last symbol, in order of length and number, whose short code starts it, overfull codes included; all others are empty |
| BrotliPrefix.PrefixCode.Build | src/brotli/brotli_huffman.cpp:21-105 | Succeeds exactly when some symbol has a code and no length exceeds 15; the tables are stated for all lengths, and stand for the canonical code whenever it fits, or for the only symbol |
| BrotliPrefix.PrefixCode.Decode | src/brotli/brotli_huffman.cpp:107-135 | Lookup or bit by bit, symbol and remaining bits are those of canonical decoding; -1 and an error otherwise |
| BrotliPrefix.PrefixCode.DecodeBits | src/brotli/brotli_huffman.cpp:122-134 | The bit-by-bit path alone has the same contract |
| BrotliPrefix.LookUpIndex | src/brotli/brotli_huffman.cpp:111-120 | A filled entry is the canonical decoding of the bits ahead |
| BrotliComplex.RoomNext | src/brotli/brotli_huffman.cpp:272-283 | The remaining space tracks the Kraft sum of the lengths so far |
| BrotliComplex.BuildCodeLengthCode | src/brotli/brotli_huffman.cpp:211-254 | Reads the code for the lengths as the format defines it; accepted codes have one symbol or are complete |
| BrotliComplex.ReadRepeat | src/brotli/brotli_huffman.cpp:305-327 | A repeat symbol starts a run or multiplies the one before, as the parser says |
| BrotliComplex.LengthList.AddRepeat | src/brotli/brotli_huffman.cpp:285-299 | Appends that many copies, refused exactly when they do not fit the alphabet or the room |
| BrotliComplex.ReadComplexPrefixCode | src/brotli/brotli_huffman.cpp:256-342 | Refines the parser of lengths; every accepted code has Kraft sum exactly one |
| BrotliComplex.AcceptedDecodes | src/brotli/brotli_huffman.cpp:338-341 | So every long enough input decodes to a symbol |
| BrotliComplexWriter.NumbersReadBack | src/brotli/brotli_huffman.cpp:211-254 | The lengths of any code for lengths, written in the order 1, 2, 3, 4, 0, 5, 17, 6, 16, 7 to 15 by the variable-length numbers of section 3.5 of RFC 7932, are read back |
| BrotliRuns.RunReadBack | src/brotli/brotli_huffman.cpp:305-327 | Consecutive run symbols are read as one run, whose length less two has their extra bits as digits, each one too small, in base 4 or 8 |
| BrotliDescriptions.DescriptionReadsBack | src/brotli/brotli_huffman.cpp:256-342 | Whatever code for lengths and whatever runs describe a complete code, the parser reads its lengths and leaves the bits behind |
| BrotliDescriptions.EveryCodeReadsBack | src/brotli/brotli_huffman.cpp:256-342 | Every complete code of at least two symbols has a description, with runs wherever three lengths repeat, and it is read back |
| BrotliAccepted.AcceptsDescriptions | src/brotli/brotli_huffman.cpp:211-342 | The parser answers with these lengths and these bits behind if and only if the input is a description of a complete code with them |
| BrotliSimple.SimpleCodeBits | src/brotli/brotli_huffman.cpp:147-209 | The canonical codes of two to four sorted symbols, bit by bit |
| BrotliSimple.WrittenIsCode | src/brotli/brotli_compress.cpp:317-332 | The encoder's bits are the symbol's canonical code if and only if there are at most three symbols or it is the first or last of four; the middle two are exchanged |
| BrotliSimple.HeaderRoundTrip | src/brotli/brotli_compress.cpp:58-76 | The header of a simple code reads back as its symbols |
| BrotliSimple.WriteSimplePrefixCode | src/brotli/brotli_compress.cpp:58-76 | Tag, count, names and, for four symbols, the shape bit |
| BrotliSimple.WriteSimpleLiteralCode | src/brotli/brotli_compress.cpp:317-332 | Appends the bits for the symbol at that place in the list |
| BrotliSimple.SimpleComplete | src/brotli/brotli_huffman.cpp:147-209 | The lengths of a simple code of several symbols have Kraft sum one |
| BrotliShapes.ShapeCodeBits | src/brotli/brotli_huffman.cpp:147-209 | The codes of two, three and four symbols in any order of the list and with either shape: 0 and 1; 0, 10, 11; the two-bit numbers; or 0, 10, 110, 111 |
| BrotliShapes.ShapeReadsBack | src/brotli/brotli_huffman.cpp:147-178 | A list of symbols with its shape bit reads back |
| BrotliSimple.ReadSimplePrefixCodeBody | src/brotli/brotli_huffman.cpp:147-209 | Refines the parser of simple codes: same symbols, refusals and unread bits, and the code built is theirs |
| BrotliHeader.ReadPrefixCode | src/brotli/brotli_huffman.cpp:344-356 | Dispatches on the tag and refines the parser of prefix codes |
| BrotliHeader.SimpleRoundTrip | src/brotli/brotli_compress.cpp:58-76 | A simple code that was written reads back as the code of its symbols |
| BrotliHeader.WriteFixedLiteralCode | src/brotli/brotli_compress.cpp:341-359 | Appends the description of the eight-bit literal code |
| BrotliHeader.FixedRoundTrip | src/brotli/brotli_compress.cpp:341-359 | That description reads back, through the complex reader, as eight bits for every byte |
| BrotliDescriptions.CodeReadsBack | src/brotli/brotli_huffman.cpp:344-356 | Behind its tag, which says how many lengths are not written, a description is read as the code that it describes |
| BrotliBlock.DecodeCommandSymbol | src/brotli/brotli_decompress.cpp:82-105 | Lengths and implicit-distance flag of a command symbol with its extra bits |
| BrotliBlock.ComputeDistance | src/brotli/brotli_decompress.cpp:107-148 | Last-distance, direct and bucket codes give the distance the format defines |
| BrotliBlock.DecodeLiterals | src/brotli/brotli_decompress.cpp:383-421 | The literals of a command behind the output so far |
| BrotliBlock.DecodeMetaBlock | src/brotli/brotli_decompress.cpp:330-480 | With one block type and one tree of each kind the loop refines the plain decoder: same bytes, same symbols read, same unread bits, same kind of failure |
| BrotliRoundTrip.LiteralCode | src/brotli/brotli_compress.cpp:334-339 | The canonical code of a byte is its eight bits, highest first |
| BrotliRoundTrip.SymbolRoundTrip | src/brotli/brotli_compress.cpp:668-680 | A listed symbol reads back as itself, except that the two middle ones of four read back as each other |
| BrotliRoundTrip.WriteToken | src/brotli/brotli_compress.cpp:711-735 | Command, extra bits, literals and distance of one token |
| BrotliRoundTrip.WriteTokens | src/brotli/brotli_compress.cpp:711-735 | The bits of all tokens in order |
| BrotliRoundTrip.DecodeToken | src/brotli/brotli_decompress.cpp:353-477 | Decoding one token's bits does what the token says, with the last distances updated alike |
| BrotliRoundTrip.DecodeTokens | src/brotli/brotli_decompress.cpp:353-477 | From any token on, decoding behind what the earlier tokens wrote ends in the input |
| BrotliRoundTrip.TokenBlockRoundTrip | src/brotli/brotli_compress.cpp:682-737 | The tokens of an accepted input with at most three symbols of either kind decode to the input |
| BrotliSequence.ReadToken | src/brotli/brotli_decompress.cpp:353-477 | The decoder reads a token's own symbols at the start of its bits exactly when neither is one of two middle ones of four |
| BrotliSequence.StraightIffFew | src/brotli/brotli_compress.cpp:317-332 | As every listed symbol is used, some token has a middle symbol exactly when a list has four |
| BrotliSequence.OwnSymbolsIffFew | src/brotli/brotli_decompress.cpp:353-477 | From the bits of the tokens the decoder reads the encoder's own sequence of commands and distances if and only if there are at most three of either kind |
| BrotliMeta.ReadCodes | src/brotli/brotli_meta.cpp:207-213 | The three prefix codes in their order |
| BrotliMeta.DecodeCompressedBlock | src/brotli/brotli_decompress.cpp:554-557 | Codes and data together refine the plain decoder of a block and read the symbols that it reads |
| BrotliMeta.WriteTokenBlock | src/brotli/brotli_compress.cpp:704-736 | Prefix codes and tokens go out in order; fails exactly when the buffer is too small |
| BrotliMeta.CompressTokens | src/brotli/brotli_compress.cpp:754-770 | For every accepted input with at most three commands and three distance codes the bits written decode to the input, whatever follows them; the decoder reads the encoder's symbols from them if and only if there are so few |
| BrotliMeta.BlockRoundTrip | src/brotli/brotli_compress.cpp:704-736 | The prefix codes and tokens of a block decode to its input and leave what follows |
| BrotliMeta.OwnSymbols | src/brotli/brotli_decompress.cpp:554-557 | From a written block, its codes included, the decoder reads the encoder's own symbols if and only if there are at most three of either kind |
| BrotliSwap.FourCommandsFail | src/brotli/brotli_compress.cpp:327-328 | An input of 47 bytes that the encoder cuts into tokens with four commands, whatever the quality: the block written for it never decodes to it |
| BrotliWitness.BuildsFourCommands | src/brotli/brotli_compress.cpp:588-666 | The scan of that input, hash table and matches included, ends in exactly these four tokens |
| BrotliWitness.PhraseFound | src/brotli/brotli_compress.cpp:523-570 | Its phrase is found again where it stood last, at the length of the longest repetition |
| BrotliSwap.DataKeeps | src/brotli/brotli_decompress.cpp:353-477 | Whatever the decoder goes on to write, it keeps what it has written |

## Left out

- BrotliMeta.CompressTokens: with four commands or four distance codes the decoder does not read the encoder's symbols; which of these inputs are decoded to something else, and which come out right by chance, is not characterised. FourCommandsFail gives one that never comes out right.
- InflateFast.InflateFast: the entry condition is what the reader's refills establish; the number of symbols decoded is not fixed, only that it stops for one of the source's reasons.
- Bzip2.RoundTrip: says nothing about the decoded bytes when a symbol was written whose clamped code does not fit its length.
- BlockEncoder.CompressBlock: says nothing about the bits of a block in which a symbol was written whose clamped code does not fit its length, or that has more than 18002 groups.
- Bzip2.Compress: the same condition for all blocks.
- Parallel.CompressParallel: its file is described as long as every block fits the buffer that `bzip2_compress_bound` gives (`Roomy`); that is proved for blocks of at least 100000 bytes that run-length coding does not make longer, not for a shorter last block and not for longer run-length codes.
- The thread pool and the number of hardware threads: blocks are compressed one after the other.
- `src/api` and `include`: thin wrappers.
- The LZ4, LZMA, LZW and Zstandard codecs are not part of this model.
- The DEFLATE state machine around `inflate_fast`, the building of its decode tables and the DEFLATE encoder are not part of this model; the tables are arbitrary within their format.
- NEON batches of `inflate_fast` and all vector copies: scalar meaning only.
- Brotli stream and meta-block headers (window bits, lengths, block types, context modes and maps, tree counts), uncompressed blocks and the final empty block: the model starts behind them, with one block type and one tree of each kind.
- The Brotli block of literals only (`src/brotli/brotli_compress.cpp:361-411`) uses the same writers and adds no harder property.
- BrotliBlock.DecodeMetaBlock: a distance beyond the output, which the source looks up in the static dictionary, is answered with `Unsupported`; the dictionary and its transforms are not part of this model.
- BrotliMeta.DecodeCompressedBlock: the same for a whole block.
- Sampling heuristics of the Brotli encoder (`src/brotli/brotli_compress.cpp:287-304`, `src/brotli/brotli_compress.cpp:497-521`) only decide whether tokens are tried.
- The entry list of a Brotli `PrefixCode` (`entries`) only carries codes between its loops and is not kept.
- Allocation failure, null pointers and the reuse of thread-local buffers.
