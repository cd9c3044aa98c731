# Snappy and range iteration in py-leveldb: a verified model

The repository wraps LevelDB for Python and vendors the Snappy codec. This project models two of its
cores in Dafny and proves them correct:

* the whole Snappy codec in `snappy/`: compressor, decompressor, all three output writers and the
  word-level helpers they are built on;
* range iteration in `leveldb_object.cc`: `RangeIter` and the iterator it returns.

## How it is built

| file | content |
|---|---|
| `Machine.dfy` | bytes, words, little-endian loads, exclusive or |
| `BitScan.dfy`, `MatchLength.dfy` | the portable bit scans and both word-wise prefix comparisons |
| `Lz77.dfy` | the abstract machine: elements, overlapping copies, runs |
| `TagTable.dfy`, `TagFormat.dfy`, `ElementForms.dfy`, `Varint.dfy` | the 256-entry tag table, the element encoding, every form of an element byte by byte, the preamble |
| `MatchFinder.dfy`, `FragmentCode.dfy`, `Choices.dfy` | the greedy match finder as a function, its encoding, round trip and size, and laws about what it chooses |
| `Memory.dfy`, `Emit.dfy`, `FragmentCompressor.dfy`, `HashTables.dfy` | the compressor as it runs on arrays |
| `SinkSource.dfy`, `Compressor.dfy` | sources, sinks and blocked compression |
| `ArrayWriters.dfy`, `IOVecWriters.dfy`, `Validators.dfy`, `Writers.dfy` | the three writers |
| `Decompressor.dfy`, `Uncompress.dfy` | the decompressor over a chunked source and the public calls |
| `Stream.dfy`, `StreamMeaning.dfy`, `Codec.dfy` | reference decoder, compressed form, what a stream means without executing it, end-to-end theorems |
| `RangeIter.dfy` | the range iterator |

The meaning of a compressed stream is given once, by `Lz77.Step`, `TagFormat.ParseElement` and
`Stream.Decode`, which follow the Snappy compressed format description (sections 1, 2.1 and 2.2) except
where the code departs from it (see below). The code is modelled with its own fields, arrays, pointers (as
indices) and loops, and every method is proved against that meaning. `goto` and the long bodies are cut into
one method per step.

The build defines `NDEBUG`, so every `assert` of the C++ code is an unchecked claim. Each one that bounds a
pointer, a table entry or a length is discharged here, because the corresponding array access, 16-bit store
or call would not verify otherwise.

Main results:

1. `Codec.SnappyRoundTrip`: the reference decoder `Stream.Decode` returns the input from what `Compress`
   produced, for exactly the inputs shorter than 2^32 bytes; `Stream.CompressRoundTrip` says the same for any
   hash function, and `Stream.CompressConforms` for a decoder that follows the format description to the
   letter. With result 2 the code does so, too, for sources whose regions are shorter than 2^32 bytes.
2. `Decompressor.SnappyDecompressor.DecompressAllTags` and `Uncompress.InternalUncompress`: for every
   byte string, every way to cut it into regions shorter than 2^32 bytes and every writer, the decompressor
   accepts exactly what the reference decoder accepts and the destination has the space for, with the same
   output. Validator, flat array and scattered buffers therefore agree on every such input.
3. `Compressor.Compress`: the output depends only on the bytes of the source, and nothing beyond
   `MaxCompressedLength` is emitted or scribbled.
4. `IOVecWriters.SnappyIOVecWriter.AppendFromSelf`, `ArrayWriters.SnappyArrayWriter.AppendFromSelf` and
   `Memory.IncrementalCopyFastPath`: the fast copies equal the byte-by-byte one, wherever they scribble.
5. `StreamMeaning.DecodeAccepts` and `DecodeMeans`: the reference decoder itself is pinned without executing it:
   a stream is accepted if and only if its elements are complete, produce the announced length and every copy
   reaches back into the output; and the output is the only one in which every literal stands in its place and
   every copied byte equals the one its offset points to. `ElementForms` spells out the bytes of every element.
6. `Choices.ScanEnds`, `CopyIsMaximal` and `AfterCopy`: the compressor finds the first match its table shows it,
   makes every copy as long as the match, and goes on copying exactly when the next four bytes match;
   `Compressor.RunCompresses` gives the exact size of a compressed run.
7. `RangeIter.List`: iterating yields exactly the inclusive range, once each, in the direction asked for.

## Where the code and its documentation differ

The model follows the code.

* The format description says that a literal stores its length minus one; the decoder adds the one back in
  32 bits, so the length field 0xFFFFFFFF means an empty literal. `TagFormat.ReadingsAgree` says that the two
  readings of an element differ on this field and on no other; `Stream.FormatDecodeExactly` says that the
  decompressor departs from the format on exactly the streams it accepts although they have such an element,
  `Stream.AcceptedEmptyLiteral` gives one, and the compressor writes none (`Stream.CompressConforms`).
* The flat reader of the preamble refuses a fifth byte above 15, the streaming reader accepts 16..127 there
  and drops the high bits. They agree if and only if the header is not overlong (`Varint.ReadersAgree`), so
  the string version of `Uncompress` refuses exactly the streams with such a header that the other versions
  accept (`Uncompress.SizesAgree`); `Uncompress.OverlongAccepted` gives one.
* `CompressFragment` asks for `MaxCompressedLength` of the block as output space. In a buffer of
  `MaxCompressedLength` of the whole input, which is what `RawCompress` asks its callers for, every block has
  that much left if and only if the input is empty or has at least 65538 bytes
  (`Compressor.DocumentedSpaceExactly`). For shorter inputs the preamble takes up to three bytes of what the
  first block should have (`Compressor.SpaceShortfall`); one byte of input leaves 32 where 33 are asked for
  (`Compressor.OneByteShort`). It does no harm: what a block really touches is at most
  `FragmentCompressor.FragmentBound`, and that always fits (`Compressor.SpaceCoversBlock`).
* The format description mentions 32 kB blocks; `kBlockSize` is 65536 bytes.

## Model

| member | source | states |
|---|---|---|
| Machine.LoadEqual | snappy/snappy-stubs-internal.h:97-189 | two little-endian words of any width are equal exactly when their bytes are |
| Machine.LoadMaskShift | snappy/snappy.cc:500-503 | masking a loaded word keeps just its low bytes and shifting it drops them |
| Machine.XorLowBits | snappy/snappy-internal.h:104 | the low k bits of an exclusive or are clear exactly when the operands agree on them |
| BitScan.Log2Floor | snappy/snappy-stubs-internal.h:349-364 | the shift-halving loop returns floor(log2(n)), and -1 exactly for 0 |
| BitScan.FindLSBSetNonZero | snappy/snappy-stubs-internal.h:366-377 | the loop returns the position of the lowest set bit of every nonzero word |
| BitScan.FindLSBSetNonZero64 | snappy/snappy-stubs-internal.h:379-388 | the same for 64 bits by way of the two halves |
| MatchLength.MatchLengthIsMaximal | snappy/snappy-internal.h:73-81 | the match length is the number n such that a prefix matches if and only if it is no longer than n |
| MatchLength.FirstDifference | snappy/snappy-internal.h:100-107 | the lowest set bit of the exclusive or of two words lies in the first byte where they differ |
| MatchLength.FindMatchLength64 | snappy/snappy-internal.h:85-119 | eight bytes at a time, the result is the longest match below the limit, also for overlapping positions; the buffer ends at the limit, so that nothing at or past it can be read |
| MatchLength.FindMatchLength32 | snappy/snappy-internal.h:121-144 | the same for the four-byte version |
| Lz77.CopyBackRepeats | snappy/snappy.cc:85-97 | every byte a back-reference produces equals the one `offset` before it |
| Lz77.RepeatsIsCopyBack | snappy/snappy.cc:98-103 | that recurrence has only the one solution |
| Lz77.StepMeans | snappy/snappy.cc:1184-1199 | a copy is refused if and only if its offset is 0 or reaches before the output or it does not fit; otherwise every new byte equals the one offset before it |
| Lz77.CopyBackSplit | snappy/snappy.cc:216-232 | two consecutive copies from one offset are one long copy |
| Lz77.RunAppend | snappy/format_description.txt:36-41 | running concatenated element streams is running them one after the other, rejections included |
| Lz77.RunAfterPrefix | snappy/format_description.txt:85-91 | elements that run from an empty output run unchanged after any prefix: no copy reaches before the first element |
| Lz77.RunLimitDown | snappy/snappy.cc:1159-1168 | a lower limit accepts a run exactly if its output fits |
| TagTable.TableEntries | snappy/snappy.cc:570-617 | every entry of the table by arithmetic in length, offset and length bytes, as ComputeTable fills it in |
| ElementForms.CopyForms | snappy/format_description.txt:83-110 | the bytes of every copy: lengths 4..11 and offsets below 2048 in two bytes, lengths 1..64 with a two- or a four-byte offset |
| ElementForms.FarthestCopy | snappy/snappy.cc:770-781 | a tag with low bits 3 takes four offset bytes, or is incomplete; NearCopy and FarCopy say the same for one and two |
| ElementForms.ShortLiteralForm | snappy/format_description.txt:44-60 | the bytes of a literal of up to 60 bytes |
| ElementForms.LongLiteralForms | snappy/snappy.cc:743-749 | the bytes of every other literal, with one to four length bytes, more than needed allowed |
| ElementForms.LongLiteral | snappy/snappy.cc:743-769 | with length bytes or data missing there is no element |
| TagFormat.ReadingsAgree | snappy/snappy.cc:734-769 | an element is read as the format description has it if and only if it does not start with a literal tag and the length field 0xFFFFFFFF, which is the only empty literal |
| TagFormat.FormatTagsExactly | snappy/snappy.cc:747-748 | executing elements as the format reads them rejects what has an empty literal and otherwise does what the decompressor does |
| TagFormat.DecodeIsParseThenRun | snappy/snappy.cc:716-787 | decoding element by element equals parsing everything first and running it, rejections included |
| TagFormat.ParseAppend | snappy/format_description.txt:36-41 | element streams concatenate |
| TagFormat.PiecesFit | snappy/snappy.cc:216-232 | EmitCopy cuts every length from 4 up into pieces of 4 to 64 bytes that add up to it |
| TagFormat.LiteralRoundTrip | snappy/snappy.cc:156-196 | every emitted literal parses back to that one literal |
| TagFormat.ShortCopyRoundTrip | snappy/snappy.cc:198-214 | both short copy encodings parse back to the same offset and length |
| TagFormat.CopyRoundTrip | snappy/snappy.cc:216-232 | an emitted copy parses to pieces of the same offset that run, or are refused, like the one long copy |
| TagFormat.CopyBytesSize | snappy/snappy.cc:55-77 | every emitted copy takes fewer bytes than it stands for |
| TagFormat.LiteralBytesSize | snappy/snappy.cc:55-77 | a literal's header takes at most one byte plus one for every 61 of data |
| TagFormat.LiteralHeaderLength | snappy/snappy.cc:156-196 | the exact length of a literal's header |
| TagFormat.CopyBytesLength | snappy/snappy.cc:198-232 | a copy is cut into as few pieces as 64 bytes allow, and takes exactly three bytes for each, one fewer for a short last one from a near offset |
| Varint.EncodeRoundTrip | snappy/snappy-stubs-internal.h:437-463 | both readers return every encoded value and stop exactly behind it |
| Varint.EncodedLength | snappy/snappy-stubs-internal.h:437-463 | the exact length of the encoding |
| Varint.StreamHeader | snappy/snappy.cc:692-711 | the value of every header of one to five bytes, written or not by the encoder |
| Varint.NoHeader | snappy/snappy.cc:692-711 | without a byte below 0x80 among the first five there is no header |
| Varint.Parse32WithLimit | snappy/snappy-stubs-internal.h:415-435 | the unrolled reader computes ReadFlat, to which the agreement and round trip lemmas apply |
| Varint.ReadersAgree | snappy/snappy.cc:692-711 | the two readers agree if and only if the header is not overlong; overlong ones only the streaming reader accepts |
| Memory.UnalignedCopy64 | snappy/snappy-stubs-internal.h:193-203 | eight bytes are loaded before any is stored |
| Memory.IncrementalCopy | snappy/snappy.cc:98-103 | the byte loop performs exactly one back-reference and writes nothing else |
| Memory.ExtendPattern | snappy/snappy.cc:105-133 | copying across a distance that is a multiple of the pattern length continues the pattern, whatever garbage is copied along |
| Memory.IncrementalCopyFastPath | snappy/snappy.cc:140-152 | for every distance and length it terminates, leaves the same bytes as IncrementalCopy, and changes at most ten bytes past them |
| MatchFinder.Scan | snappy/snappy.cc:350-397 | a found match has four equal bytes at an earlier position, room for another probe behind it, and a table of earlier positions |
| MatchFinder.CopyContinues | snappy/snappy.cc:411-424 | copying a match of any length, overlapping or not, continues the block |
| MatchFinder.FragmentRuns | snappy/snappy.cc:39-53 | the chosen elements rebuild the block, whatever the hash function |
| Choices.ProbedHolds | snappy/snappy.cc:377-397 | while scanning, a slot holds the last probed position with that hash, or what it held before |
| Choices.ProbeFails | snappy/snappy.cc:384-397 | a failed probe sees four different bytes and has a next one that stays clear of the last fifteen bytes |
| Choices.ScanEnds | snappy/snappy.cc:377-397 | the scan ends with the first probe that matches, or without a match if and only if the next one would come too close to the end |
| Choices.LiteralThenCopy | snappy/snappy.cc:399-416 | the bytes before the match become one literal, the match a copy; without a match all that is left is one literal |
| Choices.CopyIsMaximal | snappy/snappy.cc:411-424 | a copy cannot be extended: it ends with the block or before a byte that differs |
| Choices.AfterCopy | snappy/snappy.cc:423-442 | after a copy comes the last literal near the end, and otherwise another copy if and only if the next four bytes match those where their hash was last seen |
| Choices.ReprobeMeans | snappy/snappy.cc:432-438 | what the look-up after a copy finds and leaves in the table |
| Choices.RunTokens | snappy/snappy.cc:346-424 | 17 and more equal bytes become one byte and one copy, whatever the hash function; fewer stay a literal |
| FragmentCode.TokensEmittable | snappy/snappy.cc:198-203 | every offset and length the match finder asks for satisfies the emitters' assertions |
| FragmentCode.EncodeParses | snappy/snappy.cc:156-232 | an encoded element sequence parses to its elements with long copies cut in pieces |
| FragmentCode.PiecesRunAlike | snappy/snappy.cc:216-232 | cutting copies in pieces never changes a run, accepted or refused |
| FragmentCode.FragmentDecodes | snappy/snappy.cc:315-453 | a compressed block, whatever precedes and follows it, decodes to the block appended to the output |
| FragmentCode.FragmentRejected | snappy/snappy.cc:1139-1168 | a block that does not fit under the limit is refused |
| FragmentCode.FragmentSize | snappy/snappy.cc:55-77 | a block of n bytes compresses to at most n + n/61 + 1 |
| FragmentCompressor.HashInTable | snappy/snappy.cc:333-339 | with the shift derived from a power-of-two table size every hash lies in the table |
| FragmentCompressor.HashIsMultiplication | snappy/snappy.cc:47-53 | before the shift the hash is a linear bijection of 32-bit words that maps 1 to 0x1e35a7bd, the shift leaves its top bits |
| FragmentCompressor.WideLoad | snappy/snappy.cc:274-300 | extracting from one 64-bit load equals the overlapping 32-bit load, for all offsets 0..4 |
| FragmentCompressor.ProbeDistanceClosedForm | snappy/snappy.cc:366-384 | 32j + r failed probes move the scan by 16j(j+1) + r(j+1) bytes |
| FragmentCompressor.ScanForMatch | snappy/snappy.cc:377-397 | the scan loop performs Scan on the table in place, its precomputed hash is always that of the next probe, and it has moved by the distance of as many probes as lookups have failed |
| FragmentCompressor.UpdateTable | snappy/snappy.cc:432-438 | exactly the positions before and at ip are entered, in this order, and the occupant found in between is returned |
| FragmentCompressor.ProbeAgain | snappy/snappy.cc:426-439 | another copy follows if and only if four bytes match those where their hash was last seen |
| FragmentCompressor.EmitCopies | snappy/snappy.cc:405-442 | the copy loop writes exactly the elements the match finder chooses and leaves the next probe's hash behind |
| FragmentCompressor.CompressFragment | snappy/snappy.cc:315-453 | the bytes written are the encoding FragmentDecodes speaks of, within FragmentBound, and nothing outside is touched |
| Emit.EmitLiteral | snappy/snappy.cc:156-196 | writes the literal's encoding; the fast path scribbles at most 16 bytes past the tag |
| Emit.EmitCopy | snappy/snappy.cc:216-232 | writes exactly the copy's encoding |
| HashTables.TableBitsFits | snappy/snappy.cc:247-256 | the table size is the least power of two from 256 on that covers the input, and 16384 if there is none below |
| HashTables.WorkingMemory.GetHashTable | snappy/snappy.cc:247-271 | returns a table of that size with every entry that will be used cleared |
| SinkSource.DropIsSuffix | snappy/snappy-sinksource.cc:47-55 | skipping across regions drops exactly the first n bytes |
| SinkSource.Source.Peek | snappy/snappy-sinksource.h:79-92 | a peeked region is a prefix of what remains and is empty exactly when nothing does |
| SinkSource.Source.Skip | snappy/snappy-sinksource.h:94-97 | afterwards n bytes fewer remain and regions stay well-formed |
| SinkSource.UncheckedByteArraySink.Append | snappy/snappy-sinksource.cc:59-65 | the data stands behind what was there, copied or already in place, and nothing else changes |
| Stream.CompressRoundTrip | snappy/snappy.cc:43-46 | Decode inverts compression if and only if the length fits 32 bits, for every hash function and table size |
| StreamMeaning.DecodeAccepts | snappy/format_description.txt:64-72 | a stream is accepted if and only if its elements are complete and produce the announced length and no copy has offset 0 or reaches before the output |
| StreamMeaning.DecodeMeans | snappy/format_description.txt:33-110 | its output is the only one of that length which all elements explain |
| StreamMeaning.OneMoreElement | snappy/format_description.txt:33-41 | elements follow each other; an incomplete one makes the stream incomplete |
| StreamMeaning.ZeroOffsetCopies | snappy/snappy_unittest.cc:986-999 | the streams of the zero-offset tests are refused |
| StreamMeaning.FourByteOffset | snappy/snappy_unittest.cc:786-818 | a stream with a four-byte offset is decoded |
| Stream.CompressedSize | snappy/snappy.cc:55-77 | MaxCompressedLength bounds the compressed form of every input |
| Stream.FormatDecodeExactly | snappy/format_description.txt:44-60 | the decompressor and the format differ on exactly the streams that are accepted although they have an empty literal |
| Stream.AcceptedEmptyLiteral | snappy/snappy.cc:747-748 | there is such a stream |
| Stream.CompressConforms | snappy/format_description.txt:44-60 | read by the format alone, the compressed form gives back every input whose length fits 32 bits, and no other |
| Compressor.NextBlock | snappy/snappy.cc:887-921 | the next block is the next bytes of the source, however they are cut into regions |
| Compressor.Compress | snappy/snappy.cc:874-953 | appends the preamble and the independent encodings of consecutive 65536-byte blocks, a function of the source's bytes only; the result counts what was appended; a flat sink is untouched beyond MaxCompressedLength; each block is handed the space SpaceLeft says |
| Compressor.SpaceCoversBlock | snappy/snappy.cc:927-945 | when a block's turn comes, what is left of MaxCompressedLength covers all the block can touch |
| Compressor.DocumentedSpaceExactly | snappy/snappy.cc:321-322 | every block has the space CompressFragment asks for if and only if the input is empty or has 65538 bytes or more |
| Compressor.SpaceShortfall | snappy/snappy.cc:321-322 | only the first block can be short of it, by at most three bytes |
| Compressor.OneByteShort | snappy/snappy.cc:1281-1291 | one byte of input leaves 32 bytes where 33 are asked for |
| Compressor.SnappyGrowth | snappy/snappy.cc:55-77 | the compressed form of n bytes takes at most n * 66611/65536 + 6 |
| Compressor.SnappyIsNarrow | snappy/snappy.cc:659 | the compressed form of up to 4225653065 bytes fits the decompressor's 32-bit count of peeked bytes |
| Compressor.BlocksAreIndependent | snappy/snappy.cc:874-953 | what follows a multiple of 65536 bytes is compressed as if it stood alone |
| Compressor.RunCompresses | snappy/snappy.cc:346-424 | the exact compressed size of 17 to 65536 equal bytes |
| Compressor.LongRunCompresses | snappy/snappy.cc:874-953 | longer runs take at most 3074 bytes for 65536 |
| Compressor.RawCompress | snappy/snappy.cc:1281-1291 | the array holds the compressed form, at most MaxCompressedLength bytes of it change |
| ArrayWriters.OffsetCheck | snappy/snappy.cc:1188-1199 | the wrapping comparison refuses exactly offset 0 and offsets past the start |
| ArrayWriters.SnappyArrayWriter.Append | snappy/snappy.cc:1159-1168 | accepts if and only if the abstract machine does, with its output |
| ArrayWriters.SnappyArrayWriter.TryFastAppend | snappy/snappy.cc:1170-1182 | accepts if and only if the literal has at most 16 bytes, 21 bytes of input and 16 of space are left; then it simulates a literal and writes only below the limit; otherwise neither the writer nor the memory changes |
| ArrayWriters.SnappyArrayWriter.AppendFromSelf | snappy/snappy.cc:1184-1217 | on all three paths accepts if and only if 0 < offset <= output and the copy fits, produces what the abstract machine does, and writes only between the old end and the limit |
| IOVecWriters.StoreAppends | snappy/snappy.cc:962-982 | a store into one buffer appends to what the buffers hold one after the other, whatever is scribbled behind |
| IOVecWriters.CutsGather | snappy/snappy_unittest.cc:512-527 | buffers cut from one array one behind the other together are that array |
| IOVecWriters.SnappyIOVecWriter.Append | snappy/snappy.cc:1004-1032 | accepts if and only if announced length and buffers have the room, across any number of buffers, empty ones included; refused by the buffers it has filled them, refused by the announced length it has written nothing |
| IOVecWriters.SnappyIOVecWriter.TryFastAppend | snappy/snappy.cc:1034-1048 | the same with 16 bytes of space in the current buffer; otherwise neither the writer nor the buffers change |
| IOVecWriters.SnappyIOVecWriter.Locate | snappy/snappy.cc:1059-1072 | finds the buffer and position that lie `offset` bytes before the end |
| IOVecWriters.SnappyIOVecWriter.AppendFromSelf | snappy/snappy.cc:1050-1116 | in buffers that hold the announced length it accepts if and only if 0 < offset <= output and the copy fits, and produces what the abstract machine does, with source and destination crossing buffers independently; smaller ones are never overrun |
| Validators.SnappyDecompressionValidator.Append | snappy/snappy.cc:1259-1262 | counts and compares so that it accepts if and only if the abstract machine does |
| Validators.SnappyDecompressionValidator.AppendFromSelf | snappy/snappy.cc:1266-1272 | accepts a copy if and only if 0 < offset <= output and it fits |
| Writers.Writer.AppendFromSelf | snappy/snappy.cc:455-494 | every writer accepts a copy if and only if 0 < offset <= output and it fits, and then every new byte equals the one offset before it; arrays and buffers stay untouched outside the announced length even on refusal |
| Decompressor.SnappyDecompressor.RefillTag | snappy/snappy.cc:790-847 | the unread bytes stay the same, the next tag and its extra bytes are buffered with five readable bytes; failure sets eof exactly at the end of the input, and otherwise the input has no complete element |
| Decompressor.SnappyDecompressor.Stitch | snappy/snappy.cc:814-833 | a tag spread over any number of regions is reassembled |
| Decompressor.TrailerIsExtra | snappy/snappy.cc:771 | the masked load yields the tag's extra bytes whatever lies behind the buffered input |
| Decompressor.SnappyDecompressor.AppendLiteral | snappy/snappy.cc:752-768 | succeeds if and only if the input has the bytes and the writer the room, across regions |
| Decompressor.SnappyDecompressor.DecompressTag | snappy/snappy.cc:731-784 | one element: decoding stands as the reference decoder says, and the input shrinks |
| Decompressor.SnappyDecompressor.DecompressAllTags | snappy/snappy.cc:715-787 | accepts exactly what the flat reference decoder accepts, with the same output, for every division into regions |
| Decompressor.SnappyDecompressor.ReadUncompressedLength | snappy/snappy.cc:689-711 | reads what ReadStream says, across regions, and consumes exactly that |
| Uncompress.InternalUncompress | snappy/snappy.cc:849-867 | for every writer: accepts if and only if Decode does and there is space for the result, leaves that result, and has consumed the source; a refused source has moved forward, too |
| Uncompress.RawUncompress | snappy/snappy.cc:1225-1228 | the array holds Decode's result; nothing outside the announced length changes, even for corrupt input |
| Uncompress.RawUncompressToIOVec | snappy/snappy.cc:1126-1130 | succeeds if and only if Decode accepts and the result fits the buffers; then the buffers one after the other start with it; beyond the announced length nothing in or next to the buffers changes, even for corrupt input |
| Uncompress.IsValidCompressedBuffer | snappy/snappy.cc:1275-1279 | true if and only if Decode accepts, hence if and only if RawUncompress does |
| Uncompress.SizesAgree | snappy/snappy.cc:1230-1242 | the size a string is given is the size the decoder enforces; strings and arrays differ on exactly the accepted streams with overlong headers |
| Uncompress.OverlongAccepted | snappy/snappy.cc:692-711 | there is such a stream |
| Uncompress.UncompressString | snappy/snappy.cc:1230-1242 | the string version returns Decode's result unless the header is overlong or the size too large |
| Codec.SnappyRoundTrip | snappy/snappy_unittest.cc:478-492 | Decode of Compress is the identity for exactly the inputs below 2^32 bytes, longer ones are refused; the same holds for the format's own reading |
| Codec.SnappyHeader | snappy/snappy.cc:876-880 | both readers find the length modulo 2^32 in the header Compress writes |
| Codec.VerifyString | snappy/snappy_unittest.cc:478-492 | the library's round-trip test succeeds for all inputs whose compressed form is shorter than 2^32 bytes, which Compressor.SnappyIsNarrow guarantees for up to 4225653065 bytes |
| Codec.VerifyIOVec | snappy/snappy_unittest.cc:495-540 | so does its scattered version, for all disjoint buffers and all divisions of the compressed bytes, if and only if the buffers have the room |
| Codec.VerifyCutIOVec | snappy/snappy_unittest.cc:495-540 | with buffers cut from one array as in that test, the array holds the input afterwards and is unchanged behind it |
| RangeIter.SelectMembers | leveldb_object.cc:542-579 | the range is exactly the entries with from <= key <= to |
| RangeIter.SelectSorted | leveldb_object.cc:542-579 | in ascending order and therefore once each |
| RangeIter.WalkForward | leveldb_object.cc:1302-1310 | stepping forward until the bound is passed yields the rest of the range |
| RangeIter.WalkBackward | leveldb_object.cc:1302-1314 | stepping backward until the bound is passed yields the range so far, reversed |
| RangeIter.WalkIsRange | leveldb_object.cc:603-631 | from the right start the walk is the whole range, crossed bounds included |
| RangeIter.AfterSeek | leveldb_object.cc:616-628 | the repair after a seek ends on the last entry not above the upper bound |
| RangeIter.PyLevelDB.PositionCursor | leveldb_object.cc:600-631 | positions the cursor where the range starts, in either direction |
| RangeIter.PyLevelDB.RangeIter | leveldb_object.cc:542-670 | the new iterator's remaining entries are the range, or its reverse; it is counted unless it is empty from the start |
| RangeIter.PyLevelDBIter.Clean | leveldb_object.cc:1261-1280 | gives everything back and uncounts the iterator, once |
| RangeIter.PyLevelDBIter.Next | leveldb_object.cc:1294-1357 | returns the first remaining entry, as a pair or as its key alone, and keeps the others; at the end it cleans up and stays exhausted |
| RangeIter.List | test/test.py:186-238 | listing a range yields all of it in order or reversed, as pairs or keys, and the database's iterator count is back where it was |

## Left out

- LevelDB itself, snapshots and the Python C API: a database is a sorted sequence and a cursor an index into it; memory failures, reference counts and argument parsing are not modelled.
- `PythonComparatorWrapper`: any total order stands for it, in which different keys may compare equal.
- Decompressor.SnappyDecompressor.constructor: requires regions shorter than 2^32 bytes (`Source.Narrow`), because the decompressor keeps the length of a peeked region in 32 bits; longer regions are not modelled.
- Uncompress.IsValidCompressedBuffer: asks for fewer than 2^32 compressed bytes for that reason.
- Uncompress.UncompressString: asks for fewer than 2^32 compressed bytes for that reason.
- Codec.VerifyString: asks for a compressed form below 2^32 bytes for that reason, which is only a restriction beyond 4225653065 bytes of input (`Compressor.SnappyIsNarrow`); `Codec.SnappyRoundTrip` does not.
- Uncompress.RawUncompressToIOVec: asks for at least one buffer if a length above 0 is announced; snappy.h (lines 127 to 134) asks for more, namely buffers that together hold the announced length.
- Decompressor.SnappyDecompressor.DecompressAllTags: does not model the local copy `ip` of the field `ip_`; the field is updated directly.
- Validators.SnappyDecompressionValidator.Append: carries a ghost copy of the output it would have produced, which the program does not have.
- Compressor.Compress: models sinks as either the flat sink or one that copies from the caller's scratch buffer; other implementations of `Sink` are not part of this model.
- Big-endian hosts, the 32-bit split of the 8-byte copy, branch hints and alignment: a little-endian machine with atomic 8-byte copies is fixed.
- `snappy-c.cc`, the framing format, benchmarks and the unit-test harness: thin wrappers, no implementation, or timing only.
- Compression ratio and speed, except for the probe distances.
