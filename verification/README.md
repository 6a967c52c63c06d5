# A verified model of an HDF5 engine

The repository is an HDF5 library written in Rust: it parses and writes HDF5 files, with its own filters,
its own on-disk indexes and a small message-passing layer for files shared by several processes. This
project models the parts of it whose correctness is hard to see, and proves what they are for.

- **Filters.** The szip coder, integer scale-offset, LZF, blosclz, the blosc frame with its byte and bit
  shuffles, Fletcher-32, and the pipeline that strings them together. Encoders and decoders are methods
  with loops, each proved against a function on bits or bytes; the round trips are proved about these
  functions. Where a round trip fails for some inputs, the exact condition is proved.
- **Chunks.** Cutting an array of any rank into chunks, filtering them, writing them and the B-tree over
  them byte by byte, and reading the array back from the root address.
- **Indexes.** Version-1 B-trees, the fractal heap with its doubling table, header and version-2 B-tree, and
  the extensible array.
- **Selections.** From hyperslabs and points to lists of positions.
- **Datatype messages.** A recursive printer and parser over a growing buffer and a moving cursor.
- **Objects and paths.** Path resolution and the breadth-first search for the path of an object.
- **Shared files.** Collectives as steps of n ranks over first-in-first-out links, write logs, and the merge
  when a shared file closes.

The szip part follows CCSDS 121.0-B, sections 3 and 4; the file structures follow the HDF5 File Format
Specification, sections III.A.1 (version-1 B-trees), III.A.2 (version-2 B-trees), III.G (fractal heap),
IV.A.2.d (datatype message) and VII.D (extensible array).

`dafny verify dfyconfig.toml` checks everything. Arithmetic that would need nonlinear reasoning is done on
products and shifts defined one step at a time (`bytes.dfy`).

## What the proofs found

- **szip, intervals.** The decoder puts out whole reference-sample intervals only, and the encoder stops at
  the last block with data. A stream is therefore decodable exactly when its last interval is filled
  (`AecRoundTrip.AecRoundTrip`, `Szip.SzRoundTrip`).
- **szip, run lengths.** The decoder refuses fundamental sequences of more than 2^28 zeros. All streams are
  safe from that if and only if samples have at most 28 bits or blocks at most 2^27 samples
  (`AecLimits.StreamsDecodeExactly`).
- **Scale-offset at full width.** When the codes need all bits of a cell, the cells are stored as they are, but
  the minimum is still added back and fill codes are still replaced. The chunk survives exactly when it is
  `Restorable` (`ScaleOffsetMeaning.RestoresExactly`).
- **Chunks of 2^32 bytes and more** are stored with the size cut to 32 bits, and what does not fit is read back as zeros without
  an error; above 2^33 bytes, chunks are written but refused by the reader. Without filters, all arrays of a layout come
  back exactly when the array is empty or its part of the first chunk ends within the bytes whose number is kept
  (`ChunkLimits.UnfilteredExactly`); where chunks do not stick out of the array that means chunks below 2^32 bytes
  (`ChunkLimits.FullChunksExactly`). An array of 65536 by 65536 bytes in one chunk is lost (`ChunkLimits.ExampleLost`).
- **Blosc frames** hold sizes and block starts in 32 bits. All data of a size come back exactly when the size and the
  start of the last block, with no block shrunk, are below 2^32 (`BloscLimits.FramesExactly`, for blosclz and for codecs
  that store every block). For element sizes that divide 2^18 that is the size alone (`BloscLimits.WholeBlocksFit`);
  2^32 - 1 bytes of 255 in elements of three bytes are lost (`BloscLimits.ExampleLost`).
- **Fractal heap.** An empty object that falls on the very end of the last of several blocks cannot be
  fetched, and huge objects can be found only up to their number modulo 65536 (`HeapAgreement.HeapAgreesWithList`).
- **Doubling table.** Some child of an indirect block gets its row count from a negative difference exactly when
  the largest direct block is too small for the first child row (`DTable.NestsExactly`).
- **A point selection made from an empty list** gets the output shape of a single element while it selects nothing; for every
  other selection the shape fits the positions (`Selections.Select`).
- **Counted slices** are accepted with their last element one past the end, and refused later
  (`Hyperslab.AcceptedFits`).
- **Enumerations spelled like the boolean type** are read back as booleans, whatever the order of their members
  (`DatatypeRoundTrip.ReadsBackExactly`).
- **Write logs** survive encoding exactly when every path is shorter than 2^32 bytes (`WriteLog.LogRoundTrip`).

## Model

| member | source | states |
|---|---|---|
| Bits.BitReader.Bits | hdf5/src/format/szip.rs:32-44 | reads n bits, most significant first, from the bits not read yet, or fails where they end |
| Bits.BitReader.Fs | hdf5/src/format/szip.rs:47-64 | reads zeros up to the next one; more than 2^28 of them, or no one, is an error |
| Bits.BitWriter.Put | hdf5/src/format/szip.rs:75-85 | appends the n low bits of a value and leaves what is written in place |
| Bits.BitWriter.Finish | hdf5/src/format/szip.rs:94-99 | the bytes hold the bits written, and fewer than eight zero bits after them |
| Predictor.MapperBijection | hdf5/src/format/szip.rs:274-296 | for every previous sample and every width of 1 to 32 bits, the residual mapper is one-to-one and onto the sample range |
| Predictor.UnmapFromMapFrom | hdf5/src/format/szip.rs:154-295 | undoing the prediction over mapped residuals gives the samples back, whatever residuals follow |
| AecCodec.FindBestSplit | hdf5/src/format/szip.rs:303-318 | giving up on a candidate early still finds the first split of least cost, and its cost |
| AecCodec.AecEncode | hdf5/src/format/szip.rs:261-343 | the bytes are the bit string of the coded intervals, padded with fewer than eight zeros |
| AecCodec.AecDecode | hdf5/src/format/szip.rs:131-257 | for any bytes, the result or error of decoding interval by interval: split, uncompressed, second-extension and zero blocks |
| AecRoundTrip.BlockRoundTrip | hdf5/src/format/szip.rs:131-343 | a coded block decodes to its samples and leaves the following bits unread, for samples of at most 28 bits or blocks of at most 2^27 samples |
| AecLimits.BlocksDecodeExactly | hdf5/src/format/szip.rs:47-64 | every block comes back if and only if samples have at most 28 bits or blocks at most 2^27 samples |
| AecLimits.BadBlockFails | hdf5/src/format/szip.rs:47-64 | for all other parameters there is a block of samples that is coded and then refused |
| AecRoundTrip.AecRoundTrip | hdf5/src/format/szip.rs:131-343 | decoding the code gives the samples back if the blocks of the last interval fill it, and otherwise fails |
| AecLimits.StreamsDecodeExactly | hdf5/src/format/szip.rs:131-343 | every stream that fills its last interval comes back if and only if samples have at most 28 bits or blocks at most 2^27 samples |
| AecLimits.BadStreamFails | hdf5/src/format/szip.rs:131-343 | for all other parameters there is a stream of one filled interval that cannot be decoded |
| AecOptions.PairInTable | hdf5/src/format/szip.rs:116-129 | the second-extension table holds exactly the pairs with sums up to 12, numbered by their sum and then by their second value |
| AecOptions.AnyCoderDecodes | hdf5/src/format/szip.rs:131-257 | for the stream of any coder, intervals made of split, uncompressed, second-extension and zero-block pieces in any order, decoding as many samples as end in the last interval gives the samples, whatever follows the stream |
| Szip.DeinterleavedOfInterleaved | hdf5/src/format/szip.rs:381-403 | splitting words into byte planes is undone, for whole words |
| SzipBuffers.Interleave | hdf5/src/format/szip.rs:381-391 | the loop computes the byte planes; bytes after the last whole word become zero |
| Szip.LinesRoundTrip | hdf5/src/format/szip.rs:453-549 | padding every scanline and dropping the padding samples again leaves the samples of the bytes |
| Szip.FillBytes | hdf5/src/format/szip.rs:474-498 | every byte of a scanline's padding is that of the last pixel in the same place, or zero |
| SzipMeaning.ParamsMean | hdf5/src/format/szip.rs:349-378 | which parameter words are accepted, and which options, widths, blocks and intervals they stand for |
| SzipMeaning.AnyBufferDecompresses | hdf5/src/format/szip.rs:509-549 | for any accepted parameter words, a stream of any coder that carries the pixels of a buffer, scanline by scanline, as big-endian or little-endian numbers or in byte planes, decompresses to the buffer |
| SzipBuffers.SzCompress | hdf5/src/format/szip.rs:453-506 | bad parameters are refused; otherwise the output holds the code of the padded samples |
| SzipBuffers.SzDecompress | hdf5/src/format/szip.rs:509-549 | for any bytes, parameters and output length, the bytes of the decoded samples, or the error |
| Szip.SzRoundTrip | hdf5/src/format/szip.rs:453-549 | a compressed buffer decompresses to itself exactly when scanlines are padded, whole, or end in their last block; otherwise decompression fails |
| SzipBuffers.CompressThenDecompress | hdf5/src/format/szip.rs:453-549 | the two methods in a row, for every buffer of whole 8, 16, 32 or 64-bit pixels and all accepted parameters: the buffer, exactly when it is decodable |
| ScaleOffsetFilter.Compress | hdf5/src/format/filters.rs:626-825 | which inputs are refused and how, also with cells of any size when data is short; otherwise header, codes and one more byte, of length 21 + floor(count * minbits / 8) + 1 |
| ScaleOffsetFilter.UnpackBits | hdf5/src/format/filters.rs:497-534 | returns the next n bits and moves past them, or fails where the bytes end |
| ScaleOffsetFilter.DecompressChunk | hdf5/src/format/filters.rs:367-490 | for any bytes and integer parameters, the cells restored from their codes, or the error |
| ScaleOffsetRoundTrip.SurvivesExactly | hdf5/src/format/filters.rs:367-825 | all cells keep their value exactly when the codes are narrower than a cell, or the minimum is zero, no cell passes for the fill value and the 64-bit number of codes did not wrap |
| ScaleOffsetMeaning.RestoresExactly | hdf5/src/format/filters.rs:367-825 | on parameter words and bytes: the compressed chunk decompresses to the chunk if and only if the numbers in its cells, signed where word 5 is 1 and without those equal to the fill value where word 7 is 1, span at most half of what a cell holds, or their least is zero, no other cell of ones could pass for the fill value, and their 64-bit count does not wrap |
| ScaleOffsetMeaning.AnyChunkDecompresses | hdf5/src/format/filters.rs:367-490 | for the chunk of any writer, every cell is the fill value for the code of ones if there is a fill value, and otherwise code plus minimum cut to the cell; minima of up to eight bytes |
| ScaleOffsetFilter.CompressThenDecompress | hdf5/src/format/filters.rs:367-825 | the same condition on words and bytes for the two loops run one after the other |
| Lz.ExtendMatch | hdf5/src/format/filters.rs:286-291 | extends a match as far as the limit allows: the repetition holds, and ends at a difference |
| Lz.CopyLoop | hdf5/src/format/filters.rs:349-353 | the byte-by-byte copy back, with source and copy overlapping |
| Lzf.Compress | hdf5/src/format/filters.rs:258-310 | for every input the stream decodes to it, and is longer than it by at most one byte for every 32 |
| Lzf.Decompress | hdf5/src/format/filters.rs:315-357 | for any bytes, what the stream restores or the error it ends with |
| Lzf.AnyStreamDecodes | hdf5/src/format/filters.rs:315-357 | for the stream of any compressor, literal runs of up to 32 bytes and matches of up to 264 bytes up to 8192 bytes back, decoding gives what they say |
| Fletcher.AddBlock | hdf5/src/format/filters.rs:207-236 | within a block of 360 words no 32-bit addition wraps, and both sums stand for the unbounded ones modulo 65535 |
| Fletcher.Fletcher32 | hdf5/src/format/filters.rs:207-236 | the checksum is the sum of the words and the sum of the prefix sums, both modulo 65535 with 65535 for multiples other than zero |
| Fletcher.WordsSpelled | hdf5/src/format/filters.rs:207-236 | the words of a buffer are those it spells with the high byte first; an odd last byte is a high byte |
| Fletcher.ChecksumMeans | hdf5/src/format/filters.rs:207-236 | the low half stands for the sum of these words and the high half for the sum weighted by their distance to the end, modulo 65535 |
| Fletcher.WordChangeDetected | hdf5/src/format/filters.rs:207-236 | a change of one word changes the checksum unless the words agree modulo 65535 |
| Fletcher.SwapDetected | hdf5/src/format/filters.rs:207-236 | a swap of neighbouring words changes the checksum unless they agree modulo 65535 |
| Shuffle.UnshuffleOfShuffle | hdf5/src/format/filters.rs:165-203 | unshuffling undoes shuffling, for every element size and length |
| Shuffle.ShuffledAt | hdf5/src/format/filters.rs:165-183 | byte j of element i of n is found at position j * n + i |
| Shuffle.ShuffleBytes | hdf5/src/format/blosc.rs:246-257 | the loops compute the shuffle, the tail kept |
| Shuffle.UnshuffleBytes | hdf5/src/format/blosc.rs:259-270 | the loops move it back |
| Blosclz.EncodeStream | hdf5/src/format/blosc.rs:367-451 | the stream starts and ends with literals, has no two matches in a row, and restores the input |
| Blosclz.DecodeOfStream | hdf5/src/format/blosc.rs:281-364 | every stream of that shape decodes as it reads |
| Blosclz.Compress | hdf5/src/format/blosc.rs:367-451 | nothing for inputs that are short or in which no three bytes in a row occur twice; what is returned is shorter than the input and decodes to it |
| Blosclz.Decompress | hdf5/src/format/blosc.rs:281-364 | for any bytes and length, what the stream restores or the error |
| Bitshuffle.TransTransposes | hdf5/src/format/blosc.rs:459-467 | the shifts and masks exchange bit j of byte i with bit i of byte j |
| Bitshuffle.TransIsTransposed | hdf5/src/format/blosc.rs:459-467 | on bytes, they compute the transposed bit matrix |
| Bitshuffle.TransWordTwice | hdf5/src/format/blosc.rs:459-467 | transposing twice gives the bytes back |
| BitshuffleBlock.BitshuffledBits | hdf5/src/format/blosc.rs:471-502 | bit k of byte j of element e ends up as bit e % 8 of byte e / 8 of row k of byte plane j |
| BitshuffleBlock.UnshuffleOfShuffle | hdf5/src/format/blosc.rs:471-541 | bit-unshuffling undoes bit-shuffling, for every element size and length |
| BitshuffleBlock.BitshuffleBytes | hdf5/src/format/blosc.rs:471-502 | the loops compute the bit shuffle |
| BitshuffleBlock.BitunshuffleBytes | hdf5/src/format/blosc.rs:505-541 | the loops compute its inverse |
| BloscCodec.DecompressFrame | hdf5/src/format/blosc.rs:30-155 | for any bytes, the data of the frame or the error |
| BloscFrame.DecompressOfFrame | hdf5/src/format/blosc.rs:30-155 | every well-formed frame of fewer than 2^32 data bytes decodes to them |
| BloscLayout.AnyFrameDecompresses | hdf5/src/format/blosc.rs:30-155 | a frame of any writer, with split or whole blocks anywhere in it, streams of zeros, stored or packed bytes, any combination of the two shuffles, or copied data, decompresses to the data |
| BloscFrame.DecompressedLength | hdf5/src/format/blosc.rs:30-155 | whatever is accepted has the length the header gives |
| BloscFrame.TooLargeForFrame | hdf5/src/format/blosc.rs:160-244 | no frame decodes to 2^32 or more data bytes |
| BloscCodec.Compress | hdf5/src/format/blosc.rs:160-244 | for every shuffle, type size and codec with an inverse, the frame decodes to the data whenever the size and the last start fit 32 bits even if no block shrinks; never from 2^32 bytes on; data no block of which shrinks is stored as it is |
| BloscLimits.OneOfTwoFails | hdf5/src/format/blosc.rs:160-244 | when the last start does not fit, of two stored data that differ in the last block only one is lost |
| BloscLimits.LostFrame | hdf5/src/format/blosc.rs:160-244 | for blosclz and storing codecs and every size that does not fit, there is data of that size that is lost |
| BloscLimits.FramesExactly | hdf5/src/format/blosc.rs:160-244 | for these codecs, all stored data of a size come back if and only if the size and the last start are below 2^32 |
| BloscLimits.WholeBlocksFit | hdf5/src/format/blosc.rs:175-180 | for type sizes that divide 2^18 the condition is that the size is below 2^32 |
| BloscLimits.ExampleLost | hdf5/src/format/blosc.rs:160-244 | 2^32 - 1 bytes of 255 in elements of three bytes do not come back from a storing codec |
| Pipeline.Apply | hdf5/src/format/filters.rs:36-121 | which pipelines fail; otherwise every filter's output is what that filter makes of the buffer before it, no longer than a bound for shuffle, checksum, LZF and n-bit, and reversing the result gives the data back whenever every stage can be undone, which these always can, and blosc when its frame can hold the buffer |
| Pipeline.AppliedUndone | hdf5/src/format/filters.rs:68-162 | one applied filter is undone where its input allows it: szip on whole pixels that are decodable, lossless scale-offset, blosc frames with room, the others always |
| Pipeline.AppliedByWords | hdf5/src/format/filters.rs:68-121 | word 0 is the element size of a shuffle; words 2, 5 and 6 are the element size, shuffle and compressor that a blosc frame has in its header |
| Pipeline.Reverse | hdf5/src/format/filters.rs:52-162 | applies the inverses back to front, leaves out the filters in the mask, and fails on the first that fails |
| Pipeline.MaskLeavesOut | hdf5/src/format/filters.rs:52-66 | reversing with a mask is reversing the pipeline without the masked filters |
| NdIndex.OdometerStep | hdf5/src/format/reader.rs:1655-1666 | one turn of the odometer goes from the coordinate of position j to that of position j + 1 |
| NdIndex.AdvanceIsSuccessor | hdf5/src/format/reader.rs:1655-1666 | for any coordinate in range a turn adds one to the position, or wraps to the first |
| NdIndex.LinearIsLexicographic | hdf5/src/hl/selection.rs:120-201 | row-major order of positions is lexicographic order of coordinates |
| ChunkGrid.Grid | hdf5/src/format/reader.rs:1644-1668 | the odometer lists the offset of every chunk, in row-major order |
| ChunkGrid.OffsetOfIndex | hdf5/src/hl/chunks.rs:23-61 | division gives the same offset for each index, and none past the last |
| ChunkGrid.ChunkOfElement | hdf5/src/format/reader.rs:1644-1668 | every element of the array lies in some chunk |
| ChunkGrid.BasesDiffer | hdf5/src/format/reader.rs:1644-1668 | different chunks have different offsets |
| ChunkCopy.GatherChunk | hdf5/src/format/writer.rs:1578-1626 | every element of the chunk is that of the array, or untouched where the chunk sticks out of it |
| ChunkCopy.ScatterChunk | hdf5/src/format/reader.rs:2012-2060 | every element in the chunk's box gets the chunk's element, every other stays |
| ChunkCopy.MergedOfGathered | hdf5/src/format/writer.rs:1578-1626 | scattering a gathered chunk restores its elements and spoils no other |
| ChunkIo.WriteChunks | hdf5/src/format/writer.rs:637-702 | one entry for every chunk in row-major order, each stored behind what is in the file with its size cut to 32 bits; with filters that always can be undone each is decodable and within a bound |
| ChunkIo.Materialize | hdf5/src/format/reader.rs:1975-2009 | chunks over the size limit are refused; otherwise exactly the elements covered by readable chunks become the array's |
| ChunkIo.AllCovered | hdf5/src/format/reader.rs:1975-2009 | chunks in any order, with repetitions, cover every element as long as none is missing |
| ChunkCut.AllReturnedExactly | hdf5/src/format/reader.rs:1975-2060 | when only the first m bytes of every chunk are kept, all arrays come back if and only if the array is empty or its part of the first chunk ends within m bytes |
| ChunkCut.CutGathered | hdf5/src/format/reader.rs:1991-2007 | a cut chunk, filled up with zeros, is a chunk of the array in which every element is kept as far as its chunk is |
| ChunkIo.WriteThenRead | hdf5/src/format/reader.rs:1975-2060 | for every rank, shape, chunk shape, element size and pipeline of shuffle, checksum, LZF and verbatim n-bit, in any order of the chunks and whatever the output held: chunks over the limit are refused; if the bound on stored chunks is below 2^32 the array comes back; without filters exactly what the kept sizes leave of it comes back |
| ChunkLimits.UnfilteredExactly | hdf5/src/format/writer.rs:637-702 | without filters, all arrays of a layout come back if and only if chunks are within the reader's limit and the array is empty or its part of the first chunk ends within the chunk's size modulo 2^32 |
| ChunkLimits.FullChunksExactly | hdf5/src/format/writer.rs:637-702 | for chunks that stay within an array that is not empty, if and only if chunks are below 2^32 bytes |
| ChunkLimits.ExampleLost | hdf5/src/format/writer.rs:681-688 | one chunk of 65536 by 65536 bytes: zeros are read back whatever the array |
| FileWriter.Writer.Append | hdf5/src/format/writer.rs:127-132 | appends at the next multiple of eight and keeps what is there |
| BTreeBuild.PatchSiblings | hdf5/src/format/writer.rs:487-497 | every node of the level points to its neighbours, and nothing else of the nodes and of the file before them changes |
| BTreeBuild.WriteLeaves | hdf5/src/format/writer.rs:730-778 | leaves of at most `cap` entries partition the list, in order, and are in the file |
| BTreeBuild.WriteParents | hdf5/src/format/writer.rs:783-818 | one parent for every `cap` nodes, with first and last keys of its children; the number of nodes at least halves |
| BTreeBuild.Build | hdf5/src/format/writer.rs:411-497 | a balanced tree over the whole list, at most `cap` children in every node, every level one doubly linked list, at most 64 levels above the leaves in a file shorter than 2^64 bytes, in room for three nodes an entry |
| BTree.WalkHolds | hdf5/src/format/reader.rs:1019-1047 | walking such a tree gives the list, in order |
| TreeBytes.ReadOfImage | hdf5/src/format/reader.rs:1432-1470 | parsing the nodes from the file, with anything in front and behind, is walking the tree |
| TreeBytes.WalkTree | hdf5/src/format/reader.rs:1432-1470 | the recursive walk with a cursor, for any file: the entries, or failure |
| TreeWriters.WriteChunkTree | hdf5/src/format/writer.rs:704-820 | the tree over a chunk list, also the empty one, is in the file behind what was there |
| TreeWriters.ChunkTreeReads | hdf5/src/format/reader.rs:1432-1470 | reading a written chunk tree gives the chunk list: sizes, masks, offsets, addresses |
| TreeWriters.KeysBracketChunks | hdf5/src/format/writer.rs:704-820 | in every node key i is at most, and key i + 1 greater than, the offsets of all chunks under child i, and no node has more than 64 |
| TreeWriters.WriteGroupTree | hdf5/src/format/writer.rs:411-484 | the tree over the symbol nodes is in the file |
| TreeWriters.ReadGroupTree | hdf5/src/format/reader.rs:1019-1047 | the walk with a cursor pushes the children of all leaves, or fails |
| TreeWriters.GroupTreeReads | hdf5/src/format/reader.rs:1019-1047 | reading a written group tree gives the symbol nodes, in order |
| Dataset.WriteDataset | hdf5/src/format/writer.rs:637-820 | chunks and tree are written behind what is in the file, in no more room than the layout tells |
| Dataset.WrittenReadsBack | hdf5/src/format/reader.rs:1432-1470 | the written tree, in a file with anything in front and behind, is read back as the chunk entries |
| Dataset.WriteThenReadDataset | hdf5/src/format/writer.rs:637-820 | an array of any rank and shape, written behind anything and read from the root address alone, whatever is in front of the file, appended to it, or held by the output before: refused over the chunk limit, restored if the bound on stored chunks is below 2^32, and without filters exactly what the kept sizes leave of it, as long as the room needed, told from the layout, keeps the file below the undefined address |
| DTable.LookupContains | hdf5/src/format/v2.rs:312-339 | the lookup by logarithm finds a row and column whose block contains the offset |
| DTable.LookupUnique | hdf5/src/format/v2.rs:312-339 | no other block contains it |
| DTable.RowColOffset | hdf5/src/format/v2.rs:421-427 | the loop adds up the offset at which a block starts |
| DTable.BlocksInOrder | hdf5/src/format/v2.rs:320-327 | later blocks start behind earlier ones |
| DTable.NestsExactly | hdf5/src/format/v2.rs:358-418 | every child indirect block has rows exactly when the largest direct block is large enough |
| DTable.ChildFillsSlot | hdf5/src/format/v2.rs:358-418 | then a child has no more rows than its parent's row number, and its rows cover exactly its slot |
| DTable.LocateContains | hdf5/src/format/v2.rs:345-418 | at any depth of nesting, what is located for an offset is a direct block that contains it, or a block never allocated |
| HeapAlloc.RangesDisjoint | hdf5/src/format/writer.rs:1079-1240 | managed objects do not overlap, and none reaches into a block prefix or past its block |
| HeapWriter.Allocate | hdf5/src/format/writer.rs:1079-1240 | the allocation fails exactly when the bump allocator runs out of direct blocks; otherwise every object is in its place and its identifier says where |
| HeapWriter.WriteFractalHeap | hdf5/src/format/writer.rs:1079-1240 | writes header, blocks, huge objects and their tree behind what is in the file, in no more room than the objects' lengths tell, or fails exactly when the allocation does |
| HeapLayout.GetPlaced | hdf5/src/format/v2.rs:345-511 | following a managed object's offset finds its bytes, but for an empty object at the very end of the last of several blocks |
| HeapHeader.ParseOfHeader | hdf5/src/format/v2.rs:216-292 | the parsed header has the fields that were written |
| HeapIdentifiers.ParseOfAnyHeader | hdf5/src/format/v2.rs:216-292 | a header of any geometry in powers of two gives that geometry, just enough bytes for offsets, and just enough for what a direct block or a managed object can hold, whichever is less |
| HeapIdentifiers.GetFollows | hdf5/src/format/v2.rs:430-511 | for every kind of identifier, whatever its unused bits: the bytes themselves, those at an address, those at an offset, or those of a numbered object |
| V2Tree.ReadOfWritten | hdf5/src/format/v2.rs:47-184 | a written version-2 tree reads back as its records, as many as a 16-bit count can tell |
| HeapAgreement.HeapAgreesWithList | hdf5/src/format/v2.rs:216-511 | in a file with anything before the heap and anything appended, parsing the header and following identifier i gives object i exactly when the lengths allow it |
| HeapAgreement.NonEmptyRetrievable | hdf5/src/format/v2.rs:345-511 | which holds for every managed object that is not empty |
| HeapAgreement.FewHugeRetrievable | hdf5/src/format/v2.rs:430-511 | and for every huge object if there are fewer than 65536 |
| HeapAgreement.StoreAndFetch | hdf5/src/format/writer.rs:1079-1280 | writing a heap and fetching an object from the heap's address, in a row: the object, exactly under that condition, if there is room for the heap below the undefined address |
| HeapAgreement.EmptyObjectLost | hdf5/src/format/v2.rs:345-356 | three objects of which the last, empty one cannot be fetched |
| ExtArray.SuperTable | hdf5/src/format/v2.rs:572-588 | the table built while parsing has the size, number and start of every super block's data blocks |
| ExtArray.PlaceOfIndex | hdf5/src/format/v2.rs:622-703 | every element has a super block, data block and slot in range, and they give its index back |
| ExtArray.IndexOfPlace | hdf5/src/format/v2.rs:622-703 | every place in range is the place of exactly one element |
| ExtArray.PlacesDiffer | hdf5/src/format/v2.rs:622-703 | two elements are never read from the same block and slot |
| ExtArray.RangeOfIndices | hdf5/src/format/v2.rs:622-703 | an element is past the last super block exactly when its index is past the array's capacity |
| ExtArray.DirectPointersFit | hdf5/src/format/v2.rs:606-620 | the data blocks of the first super blocks have their pointers within the index block |
| ExtArray.PointerUsed | hdf5/src/format/v2.rs:606-620 | every pointer of the index block is that of some data block |
| ExtArray.PlaceOf | hdf5/src/format/v2.rs:622-703 | the lookup as coded: refused exactly past the capacity, else from the index block, a direct block or a super block |
| Hyperslab.AcceptedReach | hdf5/src/hl/selection.rs:842-894 | an accepted index or slice stays within its axis, exactly but for counted slices that overhang by one |
| Hyperslab.SlabIndices | hdf5/src/hl/selection.rs:120-192 | succeeds exactly when every axis is in bounds, and then lists the selected coordinates in row-major order |
| Hyperslab.SlabSelectsExactly | hdf5/src/hl/selection.rs:120-192 | a position is listed exactly when its coordinate lies in a block of the slice on every axis |
| Hyperslab.SlabPositionsIncrease | hdf5/src/hl/selection.rs:120-192 | with steps no shorter than blocks, positions strictly increase |
| Hyperslab.SlabInBounds | hdf5/src/hl/selection.rs:120-192 | all positions are below the size of the shape |
| Hyperslab.NoneSelectsNothing | hdf5/src/hl/selection.rs:68-70 | the shortcut for selecting nothing keeps the meaning |
| Hyperslab.AllSelectsEverything | hdf5/src/hl/selection.rs:72-86 | the shortcut for selecting everything keeps the meaning |
| Hyperslab.AcceptedFits | hdf5/src/hl/selection.rs:734-753 | an accepted slab is enumerated without an error exactly when no axis overhangs or some axis selects nothing |
| Selections.Select | hdf5/src/hl/selection.rs:842-1018 | on the slices as the caller gives them: when a selection is accepted and when enumerated; a position comes out exactly when its coordinate is picked on every axis; output extents, and that the output at every coordinate is the input at the coordinate the slices say; increasing where blocks do not overlap; points and everything likewise |
| Hyperslab.OutShapeCounts | hdf5/src/hl/selection.rs:1004-1015 | for a hyperslab, the product of the output shape is the number of coordinates selected on all axes |
| Hyperslab.OverhangExample | hdf5/src/hl/selection.rs:842-894 | four elements from the start of an axis of three are accepted |
| NdIndex.Strides | hdf5/src/hl/selection.rs:195-201 | the stride of an axis is the product of the dimensions after it |
| DatatypeCodec.WriteType | hdf5/src/format/datatype.rs:66-235 | appends exactly the message of the descriptor to the buffer, for every nesting |
| DatatypeCodec.ReadType | hdf5/src/format/datatype.rs:245-483 | for any bytes, terminates with the descriptor, its byte orders and the cursor's new position, or with the error, as `Decode` gives them, which the next rows are about |
| DatatypeMessage.ReadOfPrinted | hdf5/src/format/datatype.rs:245-483 | for messages of any version and nesting, wherever they lie: the type they say, exactly the big-endian words in it as a tree of field offsets, element counts and element sizes, enumeration values in their base's byte order, and the position behind the message |
| DatatypeMessage.SizeOnDisk | hdf5/src/format/convert.rs:23-38 | the size of a value on disk, the stride in that tree, is the one its message means |
| DatatypeRoundTrip.DecodeOfEncode | hdf5/src/format/datatype.rs:66-483 | wherever a message lies, reading gives the descriptor with boolean-like enumerations turned into booleans, and ends right behind the message |
| DatatypeRoundTrip.EncodeIsPrint | hdf5/src/format/datatype.rs:66-235 | what is written for a descriptor is a message of these, little-endian throughout |
| DatatypeRoundTrip.ReadsBackExactly | hdf5/src/format/datatype.rs:485-490 | the descriptor itself comes back if and only if no enumeration in it, at any depth, is spelled like the boolean type |
| DatatypeRoundTrip.EncodeInjective | hdf5/src/format/datatype.rs:66-235 | descriptors with equal messages differ at most in that spelling |
| DatatypeRoundTrip.BoolEnumLost | hdf5/src/format/datatype.rs:485-490 | an enumeration TRUE, FALSE is read back as boolean |
| FormatBuf.Buf.Put | hdf5/src/format/mod.rs:73-91 | appends the low bytes of a value, least significant first |
| FormatBuf.Buf.Patch | hdf5/src/format/mod.rs:107-117 | replaces one field and nothing else |
| FormatBuf.Buf.Pad8 | hdf5/src/format/mod.rs:102-105 | zeros up to the next multiple of eight |
| FormatBuf.Cursor.Uint | hdf5/src/format/mod.rs:175-180 | reads an n-byte number and moves past it, or fails without moving |
| FormatBuf.Cursor.Take | hdf5/src/format/mod.rs:182-189 | takes the next bytes, or fails at the end without moving |
| Paths.FindUnique | hdf5/src/model.rs:154-156 | with unique names, every link is found under its name |
| Paths.ComponentsOfJoin | hdf5/src/model.rs:411 | a path put together from good names comes apart into them |
| Paths.Resolve | hdf5/src/model.rs:405-424 | the loop gives an object exactly when the path means it: names follow links one by one from the start, or from the root behind a leading slash, and a soft link means what its own path means from the root |
| Paths.MeansExactly | hdf5/src/model.rs:405-424 | the same for every nesting of soft links |
| Paths.PathsFromGroups | hdf5/src/hl/group.rs:219-231 | the names of a chain of hard links from any group, joined, resolve from that group to the end of the chain, and behind a slash so do those of a chain from the root |
| PathSearch.NoShorter | hdf5/src/model.rs:428-453 | while the search is at depth d, no path of hard links to the target has d hops or fewer |
| PathSearch.PathOf | hdf5/src/model.rs:428-453 | ends on every graph of links, also cyclic; finds a path exactly when hard links reach the object; the path resolves to the object and no other has fewer components |
| Frames.EncodeParts | hdf5/src/mpi.rs:348-352 | the loop packs every part behind its 64-bit length |
| Frames.DecodeParts | hdf5/src/mpi.rs:359-366 | for any bytes, the loop unpacks n parts, or fails where the bytes end too early |
| Frames.BlobRoundTrip | hdf5/src/mpi.rs:338-396 | packed parts unpack to themselves, whatever follows |
| CollectiveRuns.ReceivesOwnCall | hdf5/src/mpi.rs:287-396 | in every interleaving, what a rank is about to receive was sent in the same call, with the bytes that call sends |
| CollectiveRuns.BarrierSafety | hdf5/src/mpi.rs:287-306 | no rank leaves a barrier before all ranks have entered it |
| CollectiveRuns.ResultsAreMeaning | hdf5/src/mpi.rs:287-396 | every result that was returned is the one the call means: the root's bytes, or all parts in rank order |
| CollectiveRuns.RanksAgree | hdf5/src/mpi.rs:309-396 | broadcasts and all-gathers return the same on all ranks |
| CollectiveRuns.SomeRankCanStep | hdf5/src/mpi.rs:287-396 | until all ranks have finished, one of them can step |
| CollectiveRuns.RunsAreFinite | hdf5/src/mpi.rs:287-396 | no run is longer than the loops of the script |
| CollectiveRuns.RunsComplete | hdf5/src/mpi.rs:287-396 | a run that cannot go on has finished on every rank with the right results, and leaves no message behind |
| Reduce.FoldParts | hdf5/src/mpi.rs:399-409 | the loop over the gathered parts computes the reduction of their numbers |
| Reduce.AllreduceAgrees | hdf5/src/mpi.rs:399-409 | in every run, every rank that returned has the 64-bit sum, the least or the greatest of all ranks' numbers |
| WriteLogCodec.WriteLogBytes | hdf5/src/mpi.rs:511-526 | the loops write the count and every entry's path, runs and bytes behind their lengths |
| WriteLogCodec.ReadLogBytes | hdf5/src/mpi.rs:528-558 | for any bytes, the log or the error |
| WriteLog.LogRoundTrip | hdf5/src/mpi.rs:511-558 | an encoded log decodes to itself if and only if all paths are shorter than 2^32 bytes |
| Merge.MpiFile.CollectiveMerge | hdf5/src/mpi.rs:564-598 | rank 0 replays the other ranks' logs: it succeeds exactly when every log can be read and every entry names a dataset, lies inside it and has all its bytes, and then every byte is the one logged by the last run that holds it; otherwise the first entry at fault decides the error; other ranks change nothing; the log is cleared unless the merge fails |
| MergeBytes.LoggedRun | hdf5/src/mpi.rs:586-593 | run i of an entry gets the bytes behind those of the runs before it |
| MergeBytes.EntryStops | hdf5/src/mpi.rs:577-594 | an entry is replayed exactly when it is sound, and fails as its path or its runs say |
| MergeBytes.SucceedsExactly | hdf5/src/mpi.rs:573-595 | a replay succeeds exactly when every write lies inside an existing dataset |
| MergeBytes.LastWriteWins | hdf5/src/mpi.rs:573-595 | afterwards every byte is the one that the last run holding it logs, in rank, log and run order, or rank 0's own |
| MergeBytes.MergeMeans | hdf5/src/mpi.rs:573-595 | a merge that is not stopped has read every log, found every entry sound and left those bytes; one that is stopped was so by the first log or entry at fault |
| MergeOrder.RankOrderIrrelevant | hdf5/src/mpi.rs:573-595 | when no byte is written by two ranks, any order of the ranks gives the same data or fails alike |
| CollectiveClose.LogWrite | hdf5/src/hl/container.rs:586-625 | what a rank logs are its runs and converted bytes under a path that leads rank 0 to the same dataset; attributes, files of one process and rank 0 log nothing; variable-length data and unreachable datasets are refused |
| CollectiveClose.GatherBringsLogs | hdf5/src/mpi.rs:564-572 | in every run, what rank 0 gathers decodes to the logs of all other ranks |
| CollectiveClose.CloseOnRoot | hdf5/src/mpi.rs:564-598 | in every run, the file ends as if one process had made rank 0's writes and then those of the other ranks in turn, up to the first that fails; when all entries are sound, every byte is the one logged last |
| CollectiveClose.CloseKeepsEveryWrite | hdf5/src/mpi.rs:564-598 | with sound entries and no byte written by two ranks, the close succeeds, the order of the ranks does not matter, and every byte is the last one its only writer logged |

## Left out

- Floating-point data: lossy scale-offset, conversions between number types, `allreduce_f64`.
- DEFLATE, LZ4, Snappy, zlib and zstd are third-party; inside blosc frames they are functions with an inverse, in pipelines functions without a promise.
- Pipeline.Apply: szip on pixels of other than 8, 16, 32 or 64 bits, floating-point scale-offset, DEFLATE and packed n-bit are not modelled step by step there; a stage of theirs counts as undone only if the given functions undo it.
- Dataset.WriteThenReadDataset: the pipeline holds shuffle, checksum, LZF and verbatim n-bit, because the other filters do not restore every buffer. With filters, the bound on stored chunks is shown to suffice, not to be necessary: an array that LZF shrinks may come back from larger chunks.
- Superblocks, object headers, local heaps, symbol tables, shared messages and virtual datasets: framing field by field.
- DatatypeMessage.ReadOfPrinted: swapping the data along the byte orders that were read is not modelled.
- Checksums of heap and version-2 tree blocks are a function parameter: the reader skips them.
- HeapHeader.ParseOfHeader and HeapIdentifiers.ParseOfAnyHeader: headers with filters, and table sizes that are not powers of two.
- V2Tree.ReadOfWritten: trees of one leaf, the only ones written; deeper trees, fixed arrays and filtered heaps are read-only structures.
- ExtArray.PlaceOf: ends where the block address is known; paging inside data blocks and the bytes of the element are not modelled.
- TreeBytes.WalkTree and Paths.Resolve take a depth bound, because a damaged file or a cycle of soft links makes the recursion endless; the theorems hold for every sufficient bound.
- Collectives: links are unbounded queues that lose nothing; sockets, processes and the second transport are not part of this model, nor is a rank that fails in the middle of a call.
- CollectiveClose.LogWrite: all ranks hold the same objects and links, which collective metadata operations are meant to ensure; a hard link to a freed object, on which the merge would panic, counts as no dataset.
- WriteLogCodec.ReadLogBytes: the counts in a log are also used to reserve memory before anything is read, and a huge one panics there; reserving memory is not modelled.
- BloscLimits.FramesExactly: for LZ4, Snappy and zlib the condition is shown to suffice, not to be necessary, because which blocks these codecs shrink is up to them.
- ScaleOffsetFilter.Compress: not the floating-point path, and no cells of more than eight bytes or of none, on which the source panics once it has enough data.
- Names and paths in logs are bytes; turning invalid UTF-8 into replacement characters is not modelled.
- Debug-build panics on overflow: sizes and offsets are unbounded numbers unless a field of the file, a 32-bit sum or a 64-bit code cuts them; a negative row count in the doubling table is an error of its own.
- Reading datasets lazily from the file, resizing, attributes, links and their creation orders, handles and property lists.
