# Mevacoin: verified models of the QR encoder, governance signing, coinbase participation and the event store

A Dafny 4.11 model of four parts of the repository, with proofs about all their inputs and all their runs.
`dafny verify dfyconfig.toml` checks everything.

**QR Code encoder** (`external/qrcodegen/QrCode.cpp`; ISO/IEC 18004:2015, sections 7.4 to 7.8). The class `QrCode` and
the in-place Reed-Solomon loops are kept as they are; each method is proved against a function of its input. The main
results:

- the data of a block followed by its remainder has only zero syndromes, is the only such word, and lies more than
  `degree` codewords from every other block, so up to half of that many errors leave the data determined;
- splitting and interleaving, the zigzag scan and masking each lose nothing; the number of modules outside the function
  patterns equals the closed formula for all 40 versions;
- the colour of every function module and the modules each mask changes are given by coordinates alone;
- the seven-entry run history counts exactly the runs and the finder-like places and sides of the modules of a line, and
  the mask search ends with the earliest mask of least penalty and with the very symbol that asking for that mask gives;
- how much text fits, the headers, the padding, the format and the version information are the published ones;
- from the modules alone a reader recovers exactly the segments that were encoded, and a symbol with an intact format
  and damage within half the error correction of each block still comes from one list of segments only.

Every `Assertion error` of the source and every range error of `appendBits` is proved unreachable: the methods that hold
them have no failing outcome for it.

**Governance signing** (`tools/gov_spend.py`, `tools/auto.py`). Signatures stand inside the bytes whose hash they sign, so
they are blanked before hashing. Proved: the varint codec, the serialisers against their parser, the search for the extra
field against a grammar of transaction prefixes, the in-place blanking scan, and the protocol theorem: what is hashed for
a signed transaction is the prefix with zero signatures, and injecting the real signatures changes no hashed byte. For any
bytes before the transfer, it is said exactly when the hashed bytes never depend on the signatures, and the whole protocol
works if and only if those bytes hold no byte like the transfer tag and the scan lands exactly on their end. The scan skips
a nonce by an absolute offset (`tools/auto.py:313-316`); the model keeps that, and says exactly when a nonce does no harm.

**Coinbase participation** (`participation_coinbase_validator.cpp`). The greedy check is proved to be inclusion of
multisets together with a 64-bit sum, the builder is proved against it, and the exact conditions for acceptance, for paying
out the whole reward and for outputs standing at the index they were derived for are given.

**Event store** (`contrib/block-explorer/desy_events.py`). Runs consist of arriving blocks with any heights and hashes,
restarts and day changes. They are compared with a history that knows no store, no file and no cut: after every run the
events are the five best of all additions, the heights remembered are those that arrived since the last restart and the
five best at that restart, and the counter is the number of additions. From this follow the exact report about every
height, and the exact conditions under which the events are those of the first arrivals, the counter is the number of
blocks, and the reported hash is the one that arrived last.

## Where code and documentation disagree

The model follows the code.

- `participation_coinbase_validator.cpp:120` says that leaving outputs out or changing them gets a block rejected; the check
  looks at amounts only (`KeysUnchecked`), and also rejects an honestly built block when a node's amount equals the miner's
  (`EvenSplitRejected`).
- `participation_coinbase_validator.cpp:86` says the coinbase must not exceed the reward; the sum is taken modulo 2^64, so an
  accepted block keeps within the reward if and only if its outputs add up to less than 2^64 (`WithinRewardExactly`,
  `OverpaidAccepted`).
- `participation_coinbase_validator.h` says the outputs add up to the whole reward and `participation_coinbase_validator.cpp:210`
  that output indices count up from 1; both hold exactly under the conditions of `RewardConserved` and `IndexesExactly`, and
  fail at `RewardLost` and `IndexShifted`.

Two things the event store does that its names do not suggest: its counter counts a block again when it arrives after a
restart and was not among the five best then (`TotalExactly`), and a height that arrives again with another hash, as after
a reorganisation of the chain, goes on being reported with the first hash (`StaleHash`, `LatestReported`).

## Model

| member | source | states |
|---|---|---|
| Galois.ReedSolomonMultiply | external/qrcodegen/QrCode.cpp:772-782 | the shift-and-add loop computes the product of the field GF(2^8)/0x11D |
| Galois.MulComm | external/qrcodegen/QrCode.cpp:772-782 | multiplication is commutative |
| Galois.MulAssoc | external/qrcodegen/QrCode.cpp:772-782 | multiplication is associative |
| Galois.MulAdd | external/qrcodegen/QrCode.cpp:772-782 | multiplication distributes over exclusive or |
| Galois.OrderDivides255 | external/qrcodegen/QrCode.cpp:741-753 | r = 2 satisfies r^255 = 1, derived through the subfields generated by r^17 and r^85 |
| Galois.GeneratorMoves | external/qrcodegen/QrCode.cpp:741-753 | no power r^1 .. r^254 fixes a non-zero byte: r generates the multiplicative group |
| Galois.PowersDistinct | external/qrcodegen/QrCode.cpp:741-753 | the multiples of a non-zero byte by r^0 .. r^254 are pairwise different |
| ReedSolomon.ReedSolomonComputeDivisor | external/qrcodegen/QrCode.cpp:734-756 | accepts exactly degrees 1..255; after i rounds the array holds the product of the first i linear factors, and it ends with the generator polynomial without its leading 1 |
| ReedSolomon.GeneratorRoots | external/qrcodegen/QrCode.cpp:738-756 | every r^i with i below the degree is a root of the generator polynomial |
| ReedSolomon.GeneratorMonic | external/qrcodegen/QrCode.cpp:738-740 | the generator polynomial has leading coefficient 1, the one that is not stored |
| ReedSolomon.ReedSolomonComputeRemainder | external/qrcodegen/QrCode.cpp:759-769 | the shift-register loop computes the register of the polynomial division, for every data length |
| ReedSolomon.RemainderValue | external/qrcodegen/QrCode.cpp:759-769 | at a root of the monic divisor the remainder takes the value of the data times x^degree |
| ReedSolomon.EncodedIsCodeword | external/qrcodegen/QrCode.cpp:734-782 | data followed by its remainder evaluates to zero at r^0 .. r^(degree-1), for every data block and degree |
| MinimumDistance.RemainderUnique | external/qrcodegen/QrCode.cpp:734-782 | any ECC of that length makes all syndromes vanish if and only if it is the computed remainder |
| MinimumDistance.CodewordWeight | external/qrcodegen/QrCode.cpp:734-782 | a non-zero word of at most 255 symbols with d zero syndromes has more than d non-zero symbols |
| MinimumDistance.CodewordDistance | external/qrcodegen/QrCode.cpp:734-782 | two different codewords differ at more than d positions |
| MinimumDistance.BlockDistance | external/qrcodegen/QrCode.cpp:734-782 | different data blocks are encoded more than degree codewords apart |
| MinimumDistance.ErrorsAreCorrectable | external/qrcodegen/QrCode.cpp:734-782 | a received block within degree/2 errors of two encoded blocks determines one data block |
| Interleave.SplitBlocks | external/qrcodegen/QrCode.cpp:541-551 | the loop cuts the data into consecutive pieces with their ECC and pads the short blocks |
| Interleave.StartTotal | external/qrcodegen/QrCode.cpp:533-551 | the block lengths add up to the data length exactly |
| Interleave.InterleaveBlocks | external/qrcodegen/QrCode.cpp:553-564 | the double loop emits the columns of the blocks and leaves out exactly the padding |
| Interleave.AddEccAndInterleave | external/qrcodegen/QrCode.cpp:529-565 | refuses exactly data of the wrong length; otherwise returns the interleaving, of exactly the raw length, so the final length assertion cannot fail |
| Interleave.InterleavedLength | external/qrcodegen/QrCode.cpp:561-563 | the interleaved sequence has exactly the raw number of codewords |
| Interleave.ColumnsAt | external/qrcodegen/QrCode.cpp:553-560 | codeword i of block j is found at a computed place of the output |
| Interleave.BlockRecovered | external/qrcodegen/QrCode.cpp:529-565 | de-interleaving gives back every block with exactly its ECC |
| Interleave.DataRecovered | external/qrcodegen/QrCode.cpp:529-565 | de-interleaving, dropping the ECC and joining gives back the data |
| Interleave.DamageTolerated | external/qrcodegen/QrCode.cpp:529-565 | a raw sequence damaged in at most half the ECC length per block determines the data |
| Zigzag.ScanMembers | external/qrcodegen/QrCode.cpp:573-590 | after p column pairs exactly the cells from the left column of the last pair on, except column 6, were visited |
| Zigzag.ScanIsBijective | external/qrcodegen/QrCode.cpp:573-590 | for every odd size from 7 the scan visits each cell outside column 6 exactly once and column 6 never |
| Zigzag.ScanOrder | external/qrcodegen/QrCode.cpp:573-590 | which cell each step of the scan visits, in closed form: column pairs from the right without column 6, right column first, up in even pairs and down in odd ones |
| Zigzag.DrawnElsewhere | external/qrcodegen/QrCode.cpp:582-586 | modules that are function modules or not visited keep their colour |
| Zigzag.DrawnAt | external/qrcodegen/QrCode.cpp:582-586 | the k-th free module holds the k-th bit, or its old colour when the bits have run out |
| Zigzag.ReadDrawn | external/qrcodegen/QrCode.cpp:573-592 | reading along the scan returns the bits drawn, followed by what the remaining free modules held, for any function mask |
| Zigzag.FreeCount | external/qrcodegen/QrCode.cpp:573-592 | with a function mask covering column 6 the scan meets as many free cells as there are non-function modules |
| Patterns.PaintedAt | external/qrcodegen/QrCode.cpp:516-521 | the last stroke on a cell decides its colour |
| Patterns.PaintedSame | external/qrcodegen/QrCode.cpp:516-521 | a painted cell does not depend on what was there before |
| Patterns.FormatCells | external/qrcodegen/QrCode.cpp:455-470 | exactly which modules the two format copies and the dark module occupy |
| ModuleCount.AlignmentRegion | external/qrcodegen/QrCode.cpp:428-438 | a cell belongs to an alignment pattern exactly when its coordinates lie in the bands around the centres |
| ModuleCount.FunctionCells | external/qrcodegen/QrCode.cpp:416-442 | the cells drawn by all function patterns are exactly the described region |
| ModuleCount.PatternsSize | external/qrcodegen/QrCode.cpp:711-724 | the function patterns of each version cover as many modules as the closed formula leaves out |
| ModuleCount.FreeModules | external/qrcodegen/QrCode.cpp:711-724 | for all 40 versions the modules outside the function patterns are as many as the formula says |
| Penalty.ExpandRuns | external/qrcodegen/QrCode.cpp:625-643 | the run lengths and the last colour describe a line completely |
| Penalty.HistoryPush | external/qrcodegen/QrCode.cpp:806-811 | pushing a finished run keeps the history equal to the last seven runs of the line with its white border |
| Penalty.HistoryEnd | external/qrcodegen/QrCode.cpp:795-803 | terminating a line leaves the last seven runs of the fully bordered line |
| Penalty.LineScore | external/qrcodegen/QrCode.cpp:624-666 | the loop over a line computes the score of its maximal runs and of the 1:1:3:1:1 patterns of the bordered line, which LinePenaltyMeaning says in modules; the n > 3 * size assertion cannot fire |
| Penalty.CountBlocks | external/qrcodegen/QrCode.cpp:669-678 | counts exactly the 2*2 blocks of one colour |
| Penalty.CountBlack | external/qrcodegen/QrCode.cpp:680-686 | the nested loop gives the size of the set of black modules |
| Penalty.ImbalanceSmallest | external/qrcodegen/QrCode.cpp:687-690 | on an odd number of modules the ceiling expression is the smallest k with the black share between 45 - 5k and 55 + 5k percent |
| Penalty.GetPenaltyScore | external/qrcodegen/QrCode.cpp:620-692 | the score is the sum of the line penalties of all rows and columns, the block penalty and the imbalance penalty; LinePenaltyMeaning, PenaltyParts and WhiteScore give it in numbers |
| Penalty.PenaltyFits | external/qrcodegen/QrCode.cpp:341-347 | the score of every symbol stays below the initial minimum, so the search always takes some mask |
| FinderPlaces.RunLengthsAreRuns | external/qrcodegen/QrCode.cpp:625-643 | the run lengths of a line that starts white are the lengths of its maximal stretches of alternating colour |
| FinderPlaces.FindersMeaning | external/qrcodegen/QrCode.cpp:785-791 | the count taken from the runs is the number of places and sides where the line itself holds n black, n white, 3n black, n white, n black, with 4n white on that side and n on the other |
| FinderPlaces.RunScoreMeaning | external/qrcodegen/QrCode.cpp:628-633 | three points for every place that completes five modules of one colour and not six, one for every place that completes six or more |
| FinderPlaces.LinePenaltyMeaning | external/qrcodegen/QrCode.cpp:624-643 | the penalty of a line in terms of its modules alone, with 40 for every finder-like place and side of the bordered line |
| FinderPlaces.FinderLineScore | external/qrcodegen/QrCode.cpp:785-803 | the line 1011101 costs 80 |
| FinderPlaces.WhiteScore | external/qrcodegen/QrCode.cpp:620-692 | what a white symbol of any size from 5 costs: its lines, 3 for each block, and 90 for nine steps of imbalance |
| FinderPlaces.PenaltyParts | external/qrcodegen/QrCode.cpp:821-824 | the weights of blocks and of imbalance are 3 and 10 |
| Bits.FromToBits | external/qrcodegen/QrCode.cpp:855-860 | a value below 2^len is recovered from its len bits |
| Bits.ToFromBits | external/qrcodegen/QrCode.cpp:855-860 | a bit string is recovered from its value and length |
| Bits.ToBitsAt | external/qrcodegen/QrCode.cpp:858-859 | bit i of the string is what the shift of the source's loop brings down |
| Bits.BitBuffer.AppendBits | external/qrcodegen/QrCode.cpp:855-860 | refuses exactly lengths outside 0..31 and values that do not fit; otherwise appends the bits, most significant first |
| Bits.PackedBits | external/qrcodegen/QrCode.cpp:310-313 | packing whole bytes loses no bit |
| Capacity.RawTable | external/qrcodegen/QrCode.cpp:711-724 | the formula gives the codeword count of each of the 40 versions |
| Capacity.GoodLevel | external/qrcodegen/QrCode.cpp:711-724 | the number of modules lies between 208 and 29648 for all 40 versions, so the range assertion cannot fire, and every table entry makes sense |
| Capacity.LayoutOf | external/qrcodegen/QrCode.cpp:727-731 | for every version and level the tables give a valid block layout whose data length is the data capacity, with blocks of at most 255 codewords that fit the free modules |
| Capacity.CapacityFalls | external/qrcodegen/QrCode.cpp:827-843 | a higher error correction level never has more room |
| Masking.MaskInvolution | external/qrcodegen/QrCode.cpp:596-617 | applying a mask twice restores the symbol, for any function mask |
| Masking.InvertTile | external/qrcodegen/QrCode.cpp:603-611 | the formula of each of the eight masks repeats a tile of six by six modules (six by four for mask 4), given cell by cell |
| Masking.MaskChanges | external/qrcodegen/QrCode.cpp:596-617 | a mask changes exactly the data modules that lie on its tile |
| Masking.PlainMasks | external/qrcodegen/QrCode.cpp:604-606 | mask 0 is a chessboard, mask 1 takes every second row, mask 2 every third column |
| Masking.TilePeriod | external/qrcodegen/QrCode.cpp:603-611 | the changes repeat after six columns and after the height of the tile |
| Masking.TrialUndone | external/qrcodegen/QrCode.cpp:341-350 | after a trial and its undoing every module outside the format area is as before |
| Masking.FinishedSame | external/qrcodegen/QrCode.cpp:351-356 | format bits left by earlier trials do not change the finished symbol |
| Symbol.FunctionMaskGet | external/qrcodegen/QrCode.cpp:416-442 | the function mask marks exactly the function region, whatever the level |
| Colours.PaintedColour | external/qrcodegen/QrCode.cpp:516-521 | a module has the colour of the last stroke on it, and its old colour without one |
| Colours.FinderColours | external/qrcodegen/QrCode.cpp:423-426 | every module of the three finder patterns and their separators by its offset from the centre: solid square, light ring, dark ring, light ring |
| Colours.TimingColours | external/qrcodegen/QrCode.cpp:417-421 | between the finder patterns column 6 and row 6 are dark exactly at even places, also where alignment patterns cross them |
| Colours.AlignmentColours | external/qrcodegen/QrCode.cpp:428-438 | every module of every alignment pattern by its offset from the centre |
| Colours.PositionsApart | external/qrcodegen/QrCode.cpp:695-708 | no module is near two centres |
| Colours.VersionColours | external/qrcodegen/QrCode.cpp:485-492 | where each version bit stands in both blocks |
| Colours.FormatColours | external/qrcodegen/QrCode.cpp:455-469 | where each format bit of a finished symbol stands in both copies, and that the module beside them is dark |
| Colours.FunctionKept | external/qrcodegen/QrCode.cpp:568-617 | in the finished symbol every function module outside the format is as the function patterns left it |
| Symbol.FreeCells | external/qrcodegen/QrCode.cpp:568-593 | the scan meets exactly as many free modules as the capacity formula says, so all bits are drawn |
| Symbol.QrCode.SetFunctionModule | external/qrcodegen/QrCode.cpp:516-521 | colours one module and marks it, and nothing else |
| Symbol.QrCode.DrawFinderPattern | external/qrcodegen/QrCode.cpp:496-505 | draws the finder pattern clipped to the symbol |
| Symbol.QrCode.DrawAlignmentPattern | external/qrcodegen/QrCode.cpp:508-513 | draws one alignment pattern |
| Symbol.QrCode.GetAlignmentPatternPositions | external/qrcodegen/QrCode.cpp:695-708 | returns 6 and then the centres spaced back from size - 7, ascending |
| Symbol.QrCode.DrawFormatBits | external/qrcodegen/QrCode.cpp:445-470 | draws both copies of the BCH-coded format and the dark module |
| Symbol.QrCode.DrawVersion | external/qrcodegen/QrCode.cpp:473-493 | draws both copies of the BCH-coded version from version 7 on |
| Symbol.QrCode.DrawFunctionPatterns | external/qrcodegen/QrCode.cpp:416-442 | on a white symbol leaves exactly the function patterns and their mask |
| Symbol.QrCode.DrawCodewords | external/qrcodegen/QrCode.cpp:568-593 | refuses exactly a sequence of the wrong length; otherwise draws its bits along the zigzag scan on the free modules; the final bit count assertion cannot fire |
| Symbol.QrCode.ApplyMask | external/qrcodegen/QrCode.cpp:596-617 | in place, changes exactly the data modules on the tile of the mask and no other module |
| Symbol.QrCode.RedrawFormatBits | external/qrcodegen/QrCode.cpp:343-356 | repaints the format and leaves the function mask as it was |
| Symbol.QrCode.FinishMasking | external/qrcodegen/QrCode.cpp:339-356 | automatic masking ends with the earliest mask of least penalty; the symbol is the unmasked one with that mask and format, whatever was tried before |
| Symbol.QrCode.constructor | external/qrcodegen/QrCode.cpp:320-360 | the modules are a function of version, level, data and final mask alone, so automatic masking equals asking for the chosen mask |
| Symbol.CreateSymbol | external/qrcodegen/QrCode.cpp:320-360 | a symbol is made exactly when version, mask and data length are acceptable |
| Symbol.FormatMarked | external/qrcodegen/QrCode.cpp:455-470 | drawing a format marks nothing that is not already a function module |
| Segments.PackText | external/qrcodegen/QrCode.cpp:77-120 | the shared accumulation loop accepts exactly text over its alphabet and emits its groups |
| Segments.GroupFits | external/qrcodegen/QrCode.cpp:77-120 | every group, complete or not, fits its number of bits, so no append is refused |
| Segments.GroupsRoundTrip | external/qrcodegen/QrCode.cpp:77-120 | the groups have the predicted length and give back every character value |
| Segments.MakeNumeric | external/qrcodegen/QrCode.cpp:77-97 | accepts exactly digit strings; three digits in ten bits, the rest in four or seven |
| Segments.MakeAlphanumeric | external/qrcodegen/QrCode.cpp:100-120 | accepts exactly the 45-character alphabet; two characters in eleven bits, one in six |
| Segments.TextRoundTrip | external/qrcodegen/QrCode.cpp:77-120 | numeric and alphanumeric payloads give back their text |
| Segments.MakeBytes | external/qrcodegen/QrCode.cpp:67-74 | refuses exactly more than 2^31 - 1 bytes; eight bits per byte |
| Segments.BytesRoundTrip | external/qrcodegen/QrCode.cpp:67-74 | a byte payload gives back its bytes |
| Segments.MakeEci | external/qrcodegen/QrCode.cpp:141-156 | accepts exactly 0..999999 and uses the three prefix-coded lengths |
| Segments.EciRoundTrip | external/qrcodegen/QrCode.cpp:141-156 | an assignment value is recovered from its bits |
| Stream.GetTotalBits | external/qrcodegen/QrCode.cpp:177-191 | returns the stream length, or -1 exactly when a count does not fit its field or the length exceeds 2^31 - 1; CountWidths and TextCapacity give the widths in numbers |
| Stream.StreamLength | external/qrcodegen/QrCode.cpp:287-296 | the stream has exactly the announced number of bits |
| Stream.ParseSegment | external/qrcodegen/QrCode.cpp:287-294 | a reader takes one segment off the front of any stream |
| Stream.ParseStream | external/qrcodegen/QrCode.cpp:287-294 | a reader takes all segments off a stream and stops at what follows |
| Stream.PaddedRoundTrip | external/qrcodegen/QrCode.cpp:287-308 | reading a terminated and padded stream gives back exactly the segments, for every capacity |
| Stream.MakeSegments | external/qrcodegen/QrCode.cpp:123-138 | one well-formed segment of the densest mode that carries the text, none for the empty text |
| Encode.FindVersion | external/qrcodegen/QrCode.cpp:260-279 | returns the smallest version in range that fits, or none when no version does |
| Encode.BoostLevel | external/qrcodegen/QrCode.cpp:281-285 | with boosting the highest level that fits, never below the requested one; without it the requested one |
| Encode.AppendSegments | external/qrcodegen/QrCode.cpp:287-295 | appends exactly the stream; no append is refused |
| Encode.AppendTerminator | external/qrcodegen/QrCode.cpp:297-304 | up to four zero bits and zeros to the next byte |
| Encode.AppendPadBytes | external/qrcodegen/QrCode.cpp:306-308 | alternating padding from 0xEC fills the capacity exactly |
| Encode.PackBits | external/qrcodegen/QrCode.cpp:310-313 | packs the bits most significant first |
| Encode.EncodeSegments | external/qrcodegen/QrCode.cpp:255-317 | each outcome exactly: bad arguments, no version fits, or a symbol of the smallest version and chosen level that holds the padded stream, with the requested or the best mask; what fits is given in numbers by TextCapacity |
| Standard.CountWidths | external/qrcodegen/QrCode.cpp:55-64 | versions 1 to 9, 10 to 26 and 27 to 40 share one width of the count field per mode, with the widths |
| Standard.SegmentHeader | external/qrcodegen/QrCode.cpp:60-64 | the first four bits of a segment of each mode |
| Standard.TextCapacity | external/qrcodegen/QrCode.cpp:177-191 | a single segment of digits, alphanumeric characters or bytes fits versions 1, 9, 10, 26, 27 and 40 at level LOW if and only if it is no longer than the published capacity |
| Standard.KanjiHeld | external/qrcodegen/QrCode.cpp:177-191 | the same for Kanji segments of 13 bits a character |
| Standard.EciLength | external/qrcodegen/QrCode.cpp:141-156 | an assignment takes 12, 20 or 28 bits with its header, by value |
| Standard.CharValueExactly | external/qrcodegen/QrCode.cpp:106-109 | a character has value v exactly when it is digit v, letter v - 10 or the given one of nine others |
| Standard.DigitGroups | external/qrcodegen/QrCode.cpp:77-97 | three digits are a number below 1000 in ten bits, two left over take seven, one takes four |
| Standard.PairGroups | external/qrcodegen/QrCode.cpp:100-120 | two characters are 45 times the first plus the second in eleven bits, one left over takes six |
| Standard.TerminatorZeros | external/qrcodegen/QrCode.cpp:297-304 | the terminator adds only zeros, and exactly up to the byte that ends at or after four of them or at the capacity |
| Standard.PadPattern | external/qrcodegen/QrCode.cpp:306-308 | the padding bytes are 11101100 and 00010001 in turn |
| Standard.DataRows1To5 | external/qrcodegen/QrCode.cpp:727-731 | the data codewords of versions 1 to 5 at all four levels, in numbers |
| Standard.DataRows6To10 | external/qrcodegen/QrCode.cpp:727-731 | the data codewords of versions 6 to 10 at all four levels, in numbers |
| Standard.DataRows11To15 | external/qrcodegen/QrCode.cpp:727-731 | the data codewords of versions 11 to 15 at all four levels, in numbers |
| Standard.DataRows16To20 | external/qrcodegen/QrCode.cpp:727-731 | the data codewords of versions 16 to 20 at all four levels, in numbers |
| Standard.DataRows21To25 | external/qrcodegen/QrCode.cpp:727-731 | the data codewords of versions 21 to 25 at all four levels, in numbers |
| Standard.DataRows26To30 | external/qrcodegen/QrCode.cpp:727-731 | the data codewords of versions 26 to 30 at all four levels, in numbers |
| Standard.DataRows31To35 | external/qrcodegen/QrCode.cpp:727-731 | the data codewords of versions 31 to 35 at all four levels, in numbers |
| Standard.DataRows36To40 | external/qrcodegen/QrCode.cpp:727-731 | the data codewords of versions 36 to 40 at all four levels, in numbers |
| Standard.FormatWord | external/qrcodegen/QrCode.cpp:446-451 | under the fixed pattern the format is a multiple of the generator polynomial, and its upper five bits are level and mask, in numbers |
| Standard.VersionWord | external/qrcodegen/QrCode.cpp:477-481 | the version information is a multiple of its generator polynomial, and its upper bits are the version |
| Standard.SmallestSpacing | external/qrcodegen/QrCode.cpp:695-701 | except in version 32 the spacing of the centres is the smallest even one whose steps reach from the last centre to the first |
| Standard.SomeCentres | external/qrcodegen/QrCode.cpp:695-706 | the centres of versions 32 and 40 |
| Standard.FieldPolynomial | external/qrcodegen/QrCode.cpp:772-782 | the powers of r up to r^8, which fix the field polynomial |
| Standard.Version5Blocks | external/qrcodegen/QrCode.cpp:533-551 | short blocks come first: the four blocks of version 5 at level QUARTILE |
| Reader.FormatReadBack | external/qrcodegen/QrCode.cpp:445-470 | the format bits are read back from a finished symbol |
| Reader.FormatRecovered | external/qrcodegen/QrCode.cpp:445-470 | level and mask are recovered from the modules |
| Reader.CodewordsReadBack | external/qrcodegen/QrCode.cpp:320-360 | unmasking and reading along the scan recover the interleaved codewords |
| Reader.DataReadBack | external/qrcodegen/QrCode.cpp:320-360 | de-interleaving them, with level and mask read from the modules, recovers the data codewords |
| Reader.SymbolRoundTrip | external/qrcodegen/QrCode.cpp:255-360 | from the modules alone a reader recovers exactly the segments that were encoded, for every version, level and mask |
| Reader.EncodeText | external/qrcodegen/QrCode.cpp:243-246 | any byte text that fits is encoded in the smallest version, at the highest level that fits and with the best mask, and read back from the modules; each failure has its exact reason |
| Damage.CodewordKept | external/qrcodegen/QrCode.cpp:568-593 | a codeword none of whose eight modules changed is read as it was |
| Damage.BlockDamage | external/qrcodegen/QrCode.cpp:529-593 | a block read from a damaged symbol is at most as far from what was sent as it has touched codewords |
| Damage.SegmentsDetermined | external/qrcodegen/QrCode.cpp:255-360 | with an intact format and, in every block, at most half as many touched codewords as error correction codewords, the modules come from one list of segments only |
| Varint.WriteVarint | tools/gov_spend.py:71-77 | writes seven bits per byte, lowest first |
| Varint.EncodedAt | tools/gov_spend.py:71-77 | byte i is the i-th group of seven bits, and every byte but the last has its top bit set |
| Varint.ReadVarint | tools/auto.py:235-245 | reads up to the first byte below 128; fails exactly when the bytes run out |
| Varint.ReadEncoded | tools/gov_spend.py:71-90 | reading what was written, at any offset and before any bytes, gives the value and the exact next offset |
| Varint.EncodedShortest | tools/gov_spend.py:71-90 | no byte string that reads back to a value is shorter than the written one |
| Varint.ReadLocal | tools/gov_spend.py:80-90 | a read depends only on the bytes it consumes |
| TxPrefix.FindExtraRange | tools/auto.py:247-286 | the loops over inputs, ring offsets and outputs compute the range, or fail where the source raises |
| TxPrefix.ExtraFound | tools/auto.py:247-286 | for every prefix of the grammar, with any number of inputs, offsets and outputs of either kind and any bytes behind it, the range is exactly the extra field |
| TxPrefix.PlainSample | tools/auto.py:247-286 | byte for byte, one input and one plain output: the extra field starts at 73 |
| TxPrefix.TaggedSample | tools/auto.py:276-281 | byte for byte, one tagged output: two bytes more |
| Governance.AppendSignatures | tools/gov_spend.py:105-107 | appends every signer key followed by its signature |
| Governance.BuildTransfer | tools/gov_spend.py:95-108 | the bytes: 0xB0, amount, spend key, view key, count, signatures |
| Governance.BuildAddSigner | tools/gov_spend.py:118-129 | the bytes: 0xB1, key, count, signatures |
| Governance.BuildRemoveSigner | tools/gov_spend.py:132-143 | the bytes: 0xB2, index, count, signatures |
| Governance.ParseSigs | tools/gov_spend.py:150-158 | reads count slices of 32 and 64 bytes, clipped at the end |
| Governance.ParseGovernanceExtra | tools/gov_spend.py:161-203 | parses the three kinds, named by first bytes 0xB0, 0xB1 and 0xB2, or fails where the source raises, as on every other first byte |
| Governance.TagNamesAction | tools/gov_spend.py:63-65 | a serialised action starts with its own tag, and a parsed one had it |
| Governance.ParseRoundTrip | tools/gov_spend.py:95-203 | whatever was serialised, and whatever follows, is parsed back: action, signers and signatures |
| Governance.ZeroSigs | tools/gov_spend.py:279-285 | the same signers, each with 64 zero bytes |
| Governance.BlobsAgree | tools/gov_spend.py:279-392 | blobs of one action and the same signers have equal length and agree outside signature bytes |
| Governance.ZeroBytes | tools/gov_spend.py:279-285 | with zero signatures every signature byte is zero |
| ZeroScan.ZeroSignatures | tools/auto.py:306-340 | the in-place loop succeeds exactly when the scan does not raise, and then leaves the planned signatures blank and all other bytes alone |
| ZeroScan.ZeroTransfer | tools/auto.py:325-334 | one transfer: blanks the signatures and keeps the signer keys; fails exactly when they run past the end |
| ZeroScan.Skip | tools/auto.py:309-340 | every skipped field moves the offset forward, so the scan ends on every byte string |
| ZeroScan.ScanInsensitive | tools/auto.py:306-340 | inputs that differ only in blanked bytes have the same result |
| ZeroScan.ScanIdempotent | tools/auto.py:306-340 | the scan keeps the length, and scanning its result again changes nothing |
| ZeroScan.PlanAhead | tools/auto.py:309-340 | what is still to be blanked lies beyond the current offset and inside the bytes |
| Signing.ComputeHashedBytes | tools/auto.py:288-351 | the bytes handed to the hash: the prefix up to the extra field, its size, and the scanned extra |
| Signing.PatchExtra | tools/auto.py:756-811 | the splice that replaces the governance part of the extra field, with the operator's answer when lengths differ |
| Signing.HashedPrinted | tools/auto.py:288-351 | on a printed transaction exactly the extra field is scanned and everything before it is kept |
| Signing.PatchedPrinted | tools/auto.py:756-811 | on a printed transaction exactly the extra field is replaced and everything around it is kept |
| Signing.TransferPlan | tools/auto.py:325-334 | a transfer at the end of the extra field: its signatures, and nothing else, are blanked |
| Signing.ScanStable | tools/auto.py:306-340 | behind fields crossed exactly, any two lists of signatures by the same signers scan to the same bytes |
| Signing.ScanZero | tools/auto.py:306-340 | an extra field with zero signatures is left unchanged by the scan |
| Signing.HashedIsZeroed | tools/auto.py:288-351 | what is hashed for a signed transaction is the printed prefix that carries zero signatures |
| Signing.ReplacedExactly | tools/auto.py:777-803 | the patch puts the signed transfer where the other one was if and only if no earlier byte equals the tag and nothing follows the transfer |
| Signing.SigningStable | tools/auto.py:288-351 | injecting signatures gives the transaction with those signatures, leaves the hashed bytes unchanged, and changes only signature bytes |
| Stability.SigningExactly | tools/auto.py:288-351 | for any bytes before the transfer, every injection of signatures is patched in place and leaves the hashed bytes unchanged if and only if those bytes hold no byte like the tag and the scan lands on their end |
| Stability.StableExactly | tools/auto.py:306-340 | for any bytes before the transfer, the hashed bytes never depend on the signatures if and only if the scan lands: on their end, over fields and whole transfers, or on a tag whose amount runs on into the transfer |
| Stability.LandingCovers | tools/auto.py:306-340 | wherever the scan lands, every signature of the transfer is blanked |
| Stability.Misses | tools/auto.py:306-340 | a scan that does not land blanks nothing beyond a reach that the bytes before the transfer fix, however long the transfer is |
| Stability.KeyAlone | tools/auto.py:774-803 | behind a transaction key alone signing works if and only if no byte of the key equals the tag |
| Stability.TagSwallowed | tools/auto.py:325-334 | behind a lone byte like the tag the hashed bytes are right all the same, and the patch goes wrong |
| ExtraFields.FieldSkipped | tools/auto.py:309-340 | each field is stepped over exactly, a nonce at offset p if and only if it has p + 1 payload bytes |
| ExtraFields.FieldsCross | tools/auto.py:309-340 | a run of fields whose nonces all have that length is crossed exactly |
| Stability.HashedAlike | tools/auto.py:288-351 | two extra fields of one length give the same hashed bytes if and only if they scan alike |
| Stability.NonceStableExactly | tools/auto.py:313-316 | behind fields crossed exactly and directly before the transfer, a nonce of n bytes keeps the hashed bytes independent of the signatures, for all payloads, transfers and signatures, if and only if n is its offset plus one |
| Stability.NonceThenFields | tools/auto.py:313-316 | the same for one nonce followed by any fields or other bytes: if and only if the scan lands from the landing point on |
| Stability.MisalignedStable | tools/auto.py:313-316 | an empty nonce before a one-byte field has the wrong length and still does no harm |
| Stability.PaymentIdUnstable | tools/auto.py:313-316 | a transaction key followed by a nine-byte nonce is a case where it does not |
| Coinbase.CheckParticipationCoinbase | participation_coinbase_validator.cpp:43-100 | accepts if and only if the check is not active, nothing is expected, or the expected amounts are a sub-multiset of the amounts that are not the miner's and the sum modulo 2^64 is at most the reward; a rejection names the smallest amount that is short, or the sum |
| Coinbase.ValidationStarts | participation_coinbase_validator.cpp:50-52 | up to hard fork 12 every block is accepted, from 13 on not every one |
| Coinbase.WithinRewardExactly | participation_coinbase_validator.cpp:86-95 | an accepted block keeps within the reward if and only if its outputs add up to less than 2^64 |
| Coinbase.OverpaidAccepted | participation_coinbase_validator.cpp:86-95 | outputs that add up to 2^64 + 60 are accepted against a reward of 100 |
| Coinbase.KeysUnchecked | participation_coinbase_validator.cpp:60-95 | replacing the key of any output changes nothing about acceptance |
| Coinbase.MatchAll | participation_coinbase_validator.cpp:72-84 | greedy find-and-erase succeeds if and only if the multiset is included, and otherwise stops at the smallest amount that is short |
| Coinbase.CollectOthers | participation_coinbase_validator.cpp:61-64 | collects the amounts that differ from the miner's, with multiplicity |
| Coinbase.WrappedSum | participation_coinbase_validator.cpp:87-88 | the 64-bit sum of the outputs |
| Coinbase.Transaction.Construct | participation_coinbase_validator.cpp:130-272 | succeeds exactly when the helpers and both derivation steps for the miner do; then output 0 has the key the miner finds with view and spend key, the nodes follow, and height, version and unlock time are set; the state left after each failure |
| Coinbase.Transaction.PayNodes | participation_coinbase_validator.cpp:213-253 | appends for every node kept an output of its amount, under the key that node finds with its view and spend key at an index that counts the skipped nodes as well |
| Coinbase.OutputFound | participation_coinbase_validator.cpp:184-197 | an output key exists exactly when both steps succeed, and is the one its owner finds |
| Coinbase.NodesPaid | participation_coinbase_validator.cpp:213-253 | the k-th node output pays the k-th node kept, under the key that node finds |
| Coinbase.KeptExactly | participation_coinbase_validator.cpp:217-243 | a node has no output exactly when its amount is zero or one of the two steps fails for it |
| Coinbase.KeptOrder | participation_coinbase_validator.cpp:213-253 | the paid nodes keep their order |
| Coinbase.KeptComplete | participation_coinbase_validator.cpp:213-253 | every node with a reward whose derivation succeeds at its own index is paid |
| Coinbase.BuiltAcceptedExactly | participation_coinbase_validator.cpp:43-253 | a transaction built from the expected rewards is accepted if and only if every node was paid, no node's amount equals the miner's, and the sum modulo 2^64 is at most the reward |
| Coinbase.SharedRewardAccepted | participation_coinbase_validator.cpp:43-253 | when miner and nodes share the reward, the first two conditions decide |
| Coinbase.EvenSplitRejected | participation_coinbase_validator.cpp:60-84 | a concrete honest transaction that is rejected: miner and node receive 50 each |
| Coinbase.RewardConserved | participation_coinbase_validator.h:61-64 | the outputs never exceed the reward, and add up to it if and only if every derivation for a non-zero reward succeeded |
| Coinbase.RewardLost | participation_coinbase_validator.cpp:225-243 | a node whose derivation fails takes its reward out of the sum |
| Coinbase.IndexShifted | participation_coinbase_validator.cpp:217-223 | a node without a reward leaves the next output at index 1, derived for index 2 |
| Coinbase.IndexesExactly | participation_coinbase_validator.cpp:210-253 | every node output stands at the index its key was derived for if and only if no paid node follows a skipped one |
| Events.RankOfHash | contrib/block-explorer/desy_events.py:20-22 | a hash that starts with a number in sixteen hexadecimal digits has that number modulo 100 as its rank |
| Events.CapitalDigits | contrib/block-explorer/desy_events.py:20-22 | capital and small letters are the same digits |
| Events.SortExactly | contrib/block-explorer/desy_events.py:87 | the sort is exactly the descending sequence that keeps the order inside every rank |
| Events.SortDescending | contrib/block-explorer/desy_events.py:87 | computes that sequence |
| Events.OnlineStep | contrib/block-explorer/desy_events.py:84-88 | appending to the kept five, sorting and cutting gives the five best of the whole history |
| Events.PushedOut | contrib/block-explorer/desy_events.py:84-88 | a block that ranks like one already pushed out does not come back |
| Events.Standing | contrib/block-explorer/desy_events.py:87 | the sort puts every event at the place given by the number of events that beat it |
| Events.Holder | contrib/block-explorer/desy_events.py:87 | every place of the sort is that number for some event |
| Events.EventStore.constructor | contrib/block-explorer/desy_events.py:38-57 | the store after loading: everything saved and the heights of the saved events only; no events for a file that cannot be used |
| Events.EventStore.ResetIfNewDay | contrib/block-explorer/desy_events.py:68-75 | empties the store exactly on a new date and keeps the file in step |
| Events.EventStore.AddBlock | contrib/block-explorer/desy_events.py:77-89 | the new state for every case: not the day, height known, hash unreadable, or added; the file stays in step |
| Events.EventStore.CheckBlock | contrib/block-explorer/desy_events.py:94-106 | the report for a height, with the first place among the events |
| EventRuns.RunAgrees | contrib/block-explorer/desy_events.py:37-89 | after every run, with any hashes, the events are the five best of all additions, the heights remembered are those of the store-free history, each with the last event added for it, and the counter is the number of additions |
| EventRuns.HistorySound | contrib/block-explorer/desy_events.py:77-89 | a height is added a second time only when its earlier addition is out of the five best for good |
| EventRuns.KnownExactly | contrib/block-explorer/desy_events.py:46-83 | the heights remembered are those read since the last restart and those of the five best at that restart |
| EventRuns.CheckAfterRun | contrib/block-explorer/desy_events.py:94-106 | after every run a height is reported if and only if it is remembered, with the hash and rank of its last addition, and as an event if and only if fewer than five additions beat that one, at that place |
| EventRuns.RunWithoutReload | contrib/block-explorer/desy_events.py:77-89 | without a restart the events, heights and counter are those of the first arrivals of the day, whatever the hashes |
| EventRuns.EventsExactly | contrib/block-explorer/desy_events.py:46-89 | after every run the events are the five best of the first arrivals if and only if no height added again is among the five best of all additions |
| EventRuns.ReadmissionExactly | contrib/block-explorer/desy_events.py:82-88 | a block added again keeps that equality if and only if it ranks no higher than the fifth event then |
| EventRuns.LowReadmissions | contrib/block-explorer/desy_events.py:82-88 | if every block added again that day ranked no higher than the fifth event then, the equality holds at the end |
| EventRuns.ReAddUnchanged | contrib/block-explorer/desy_events.py:46-89 | restarting and receiving any block again with its hash changes no event |
| EventRuns.ArrivalReported | contrib/block-explorer/desy_events.py:80-85 | after an arrival its hash is reported if and only if it was added or was the hash remembered already |
| EventRuns.LatestReported | contrib/block-explorer/desy_events.py:80-106 | at any later time the reported hash is the one that arrived last if and only if that arrival was taken over |
| EventRuns.StaleHash | contrib/block-explorer/desy_events.py:80-81 | two blocks of one height: the hash of the first is reported |
| EventRuns.TotalExactly | contrib/block-explorer/desy_events.py:86 | the counter is the number of first arrivals plus the number of readmissions, told from the steps alone, so it is right if and only if there was no readmission that day |
| EventRuns.ReloadMiscounts | contrib/block-explorer/desy_events.py:46-86 | after a restart every height outside the five best is counted once more, with whatever readable hash it arrives |
| EventRuns.ChainEvents | contrib/block-explorer/desy_events.py:37-89 | when every height keeps its hash, the events are always the five best of the first arrivals |
| EventRuns.ChainCheck | contrib/block-explorer/desy_events.py:94-106 | then a remembered block is reported with its hash and as an event if and only if fewer than five blocks of the day beat it, at that place |

## Left out

- QR: the library has no maker for Kanji segments; the round trip covers their bits, and no text is derived from them.
- QR: SVG output, the getters and `encodeBinary`, which only wraps one byte segment.
- QR: a decoder with error correction; what is proved is that the damaged modules determine the segments.
- QR: exceptions are results (`Option`, `Status`, a null symbol); `|=` on clear bits is addition, and shifts and exclusive or are arithmetic on unbounded integers within the ranges the source guarantees.
- QR: how many blocks the codewords of a version are divided into is taken from the source's tables as it stands; the data codewords are those of ISO/IEC 18004 for all versions and levels.
- Governance: RPC, wallet processes, prompts and printing; the answer to "continue anyway" is a parameter of `PatchExtra`.
- Governance: the hash and the signatures; the theorems are about the bytes handed to the hash.
- Governance: hexadecimal text is modelled as bytes, and `network_fund` blobs only as fields the scan crosses.
- Governance: `tools/build_tx_extra.cpp` and the node's own serialisation.
- ZeroScan.ZeroSignatures: the contents of the scratch array after a failing scan are not stated, because the source raises and drops it.
- Coinbase: the participation manager is not part of this model; expected rewards and the miner's reward are parameters. The two helpers that append to the extra field and the key derivations are parameters that may fail.
- Coinbase: log lines and the wording of error messages; the verdict carries the amount or the sum they print.
- Events: HTTP, polling and clocks; the day and whether it is the memorial day are inputs.
- Events: the signs, spaces, underscores and 0x prefixes Python's `int` would accept in a hash, and values of unexpected type inside a file that can be used.
- EventRuns.RunAgrees: runs start without a file, or with one that cannot be read at all.
- Events.EventStore.AddBlock: an unreadable hash makes the source raise before anything is changed; the model returns with the state unchanged.
