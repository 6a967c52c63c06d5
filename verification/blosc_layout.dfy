/** Blosc frames of any writer: split blocks, every kind of stream, every combination of filters. */
module BloscLayout {
  import opened Wrappers
  import opened Bytes
  import opened BloscFrame
  import BitshuffleBlock
  import Seqs
  import Shuffle

  function Bit(b: bool): (n: nat)
    ensures n <= 1 && (n == 1 <==> b)
  {
    if b then 1 else 0
  }

  /** What the header of a frame says, and the data. Bit 3 of the flags is ignored. */
  datatype Frame = Frame(codec: nat, split: bool, ignored: bool, bitshuffled: bool, copied: bool, shuffled: bool,
                         typesize: u8, blocksize: u32, data: seq<u8>) {
    function Flags(): nat {
      codec * 32 + Bit(!split) * 16 + Bit(ignored) * 8 + Bit(bitshuffled) * 4 + Bit(copied) * 2 + Bit(shuffled)
    }

    /** A full block is split into one stream for every byte of an element, if these get long enough. */
    function Parts(bsize: nat): (k: nat)
      ensures k >= 1
    {
      if split && 1 <= typesize <= 16 && blocksize as int >= 128 * typesize as int && bsize == blocksize then typesize as int else 1
    }

    /** The bytes in the streams of a block: shuffled last. */
    function Filtered(block: seq<u8>): (b: seq<u8>)
      ensures |b| == |block|
    {
      var b := if bitshuffled && typesize >= 1 then BitshuffleBlock.Bitshuffled(typesize as int, block) else block;
      if shuffled && typesize > 1 then Shuffle.Shuffled(typesize as int, b) else b
    }
  }

  /** A stream of zeros, of stored bytes, or of bytes some codec has packed. */
  datatype Stream = ZeroStream(n: nat) | StoredStream(bytes: seq<u8>) | PackedStream(payload: seq<u8>, bytes: seq<u8>)

  function StreamBytes(s: Stream): seq<u8> {
    match s
    case ZeroStream(n) => Zeroed(n)
    case StoredStream(bytes) => bytes
    case PackedStream(_, bytes) => bytes
  }

  function PrintStream(s: Stream): seq<u8> {
    match s
    case ZeroStream(_) => Le(0, 4)
    case StoredStream(bytes) => Le(|bytes|, 4) + bytes
    case PackedStream(payload, _) => Le(|payload|, 4) + payload
  }

  /** The stream holds n bytes, and its length tells its kind. */
  ghost predicate StreamFits(s: Stream, n: nat, codec: nat, ext: Decoder) {
    && |StreamBytes(s)| == n
    && (s.StoredStream? ==> 0 < n < 0x8000_0000)
    && (s.PackedStream? ==> 0 < |s.payload| < 0x8000_0000 && |s.payload| != n && Plain(codec, s.payload, n, ext) == Success(s.bytes))
  }

  function PrintStreams(streams: seq<Stream>): seq<u8> {
    if streams == [] then [] else PrintStream(streams[0]) + PrintStreams(streams[1..])
  }

  function AllBytes(streams: seq<Stream>): seq<u8> {
    if streams == [] then [] else StreamBytes(streams[0]) + AllBytes(streams[1..])
  }

  /** At `start` lie the streams of the block, equally long. */
  ghost predicate BlockAt(c: seq<u8>, start: nat, streams: seq<Stream>, block: seq<u8>, f: Frame, ext: Decoder) {
    && |streams| == f.Parts(|block|) && Seqs.At(c, start, PrintStreams(streams)) && AllBytes(streams) == f.Filtered(block)
    && exists n: nat :: EqualStreams(streams, n, f.codec, ext)
  }

  ghost predicate EqualStreams(streams: seq<Stream>, n: nat, codec: nat, ext: Decoder) {
    forall i :: 0 <= i < |streams| ==> StreamFits(streams[i], n, codec, ext)
  }

  /** Header, the starts of the blocks, and the blocks anywhere; or the data as they are. */
  ghost predicate Holds(c: seq<u8>, f: Frame, starts: seq<nat>, blocks: seq<seq<Stream>>, length: nat, ext: Decoder) {
    && f.codec < 8 && f.blocksize >= 1 && |f.data| < TWO_32 && length <= |c| && length < TWO_32 && |c| >= HEADER
    && c[2] as int == f.Flags() && c[3] == f.typesize
    && c[4..8] == Le(|f.data|, 4) && c[8..12] == Le(f.blocksize, 4) && c[12..16] == Le(length, 4)
    && if f.copied then Seqs.At(c, HEADER, f.data)
       else
         && |starts| == |blocks| == BlocksFor(|f.data|, f.blocksize) && |c| >= HEADER + 4 * |starts|
         && forall j :: 0 <= j < |blocks| ==>
              && starts[j] < TWO_32 && c[HEADER + 4 * j..HEADER + 4 * j + 4] == Le(starts[j], 4)
              && BlockAt(c, starts[j], blocks[j], BlockOf(f.data, f.blocksize, j), f, ext)
  }

  // ----- streams

  lemma StreamRead(c: seq<u8>, off: nat, s: Stream, n: nat, codec: nat, ext: Decoder)
    requires Seqs.At(c, off, PrintStream(s)) && StreamFits(s, n, codec, ext)
    ensures ReadStream(c, off, n, codec, ext) == Success((StreamBytes(s), off + |PrintStream(s)|))
  {
    hide Plain, FromLe, Le, Seqs.At;
    var payload := if s.ZeroStream? then [] else if s.StoredStream? then s.bytes else s.payload;
    Seqs.Empty(Le(0, 4));
    Seqs.AtSplit(c, off, Le(|payload|, 4), payload);
    FourBytes(|payload|);
    PieceAt(c, off, Le(|payload|, 4));
    PieceAt(c, off + 4, payload);
  }

  lemma PieceAt(c: seq<u8>, off: nat, s: seq<u8>)
    requires Seqs.At(c, off, s)
    ensures off + |s| <= |c| && c[off..off + |s|] == s
  {
  }

  lemma {:induction false} StreamsRead(c: seq<u8>, off: nat, streams: seq<Stream>, n: nat, codec: nat, ext: Decoder)
    requires Seqs.At(c, off, PrintStreams(streams)) && EqualStreams(streams, n, codec, ext)
    ensures ReadStreams(c, off, |streams|, n, codec, ext) == Success(AllBytes(streams))
    decreases |streams|
  {
    hide ReadStream, PrintStream, StreamBytes, StreamFits, Seqs.At;
    if streams != [] {
      assert StreamFits(streams[0], n, codec, ext);
      Seqs.AtSplit(c, off, PrintStream(streams[0]), PrintStreams(streams[1..]));
      StreamRead(c, off, streams[0], n, codec, ext);
      StreamsRead(c, off + |PrintStream(streams[0])|, streams[1..], n, codec, ext);
    }
  }

  lemma FitLength(s: Stream, n: nat, codec: nat, ext: Decoder)
    requires StreamFits(s, n, codec, ext)
    ensures |StreamBytes(s)| == n
  {
  }

  lemma {:induction false} BytesLength(streams: seq<Stream>, n: nat, codec: nat, ext: Decoder)
    requires EqualStreams(streams, n, codec, ext)
    ensures |AllBytes(streams)| == |streams| * n
  {
    hide StreamFits, StreamBytes;
    if streams != [] {
      assert StreamFits(streams[0], n, codec, ext);
      FitLength(streams[0], n, codec, ext);
      BytesLength(streams[1..], n, codec, ext);
      Distribute(n, |streams| - 1, 1);
    }
  }

  // ----- blocks

  ghost predicate SameHeader(h: Header, f: Frame) {
    && h.codec == f.codec && h.typesize == f.typesize as int && h.nbytes == |f.data| && h.blocksize == f.blocksize as int >= 1
    && h.shuffle == (f.shuffled && f.typesize > 1) && h.bitshuffle == (f.bitshuffled && f.typesize >= 1) && h.split == f.split
  }

  lemma PartsAreSplits(h: Header, f: Frame, bsize: nat)
    requires SameHeader(h, f)
    ensures Splits(h, bsize) == f.Parts(bsize)
  {
    if h.typesize >= 1 {
      DivisionFacts(h.blocksize, h.typesize);
      if h.blocksize / h.typesize >= 128 {
        MulMonotone(h.typesize, 128, h.blocksize / h.typesize);
      } else {
        MulMonotone(h.typesize, h.blocksize / h.typesize, 127);
      }
    }
  }

  lemma UnfilteredBlock(h: Header, f: Frame, block: seq<u8>)
    requires SameHeader(h, f)
    ensures Unfiltered(h, f.Filtered(block)) == block
  {
    hide Shuffle.Shuffled, Shuffle.Unshuffled, BitshuffleBlock.Bitshuffled, BitshuffleBlock.Bitunshuffled;
    if f.typesize >= 1 {
      BitshuffleBlock.UnshuffleOfShuffle(f.typesize as int, block);
      Shuffle.UnshuffleOfShuffle(f.typesize as int, block);
      Shuffle.UnshuffleOfShuffle(f.typesize as int, BitshuffleBlock.Bitshuffled(f.typesize as int, block));
    }
  }

  lemma BlockRead(c: seq<u8>, start: nat, streams: seq<Stream>, block: seq<u8>, h: Header, f: Frame, ext: Decoder)
    requires SameHeader(h, f) && BlockAt(c, start, streams, block, f, ext)
    ensures ReadBlock(c, start, |block|, h, ext) == Success(block)
  {
    hide Splits, Unfiltered, ReadStreams, StreamFits, Seqs.At;
    var n: nat :| EqualStreams(streams, n, f.codec, ext);
    PartsAreSplits(h, f, |block|);
    BytesLength(streams, n, f.codec, ext);
    DivUnique(|block|, |streams|, n, 0);
    StreamsRead(c, start, streams, n, f.codec, ext);
    UnfilteredBlock(h, f, block);
  }

  lemma {:induction false} BlocksRead(c: seq<u8>, j: nat, h: Header, f: Frame, starts: seq<nat>, blocks: seq<seq<Stream>>, length: nat, ext: Decoder)
    requires Holds(c, f, starts, blocks, length, ext) && !f.copied && SameHeader(h, f) && j <= |blocks|
    ensures var at := Min(Times(j, h.blocksize), |f.data|);
            && j + BlocksFor(|f.data| - at, h.blocksize) == |blocks|
            && ReadBlocks(c, j, |f.data| - at, h, ext) == Success(f.data[at..])
    decreases |blocks| - j
  {
    hide ReadBlock, BlockAt, BlockOf, Times, BlocksFor, FromLe, Le;
    if j < |blocks| {
      var block := BlockOf(f.data, h.blocksize, j);
      FirstBlock(f.data, h.blocksize, j);
      FourBytes(starts[j]);
      BlockRead(c, starts[j], blocks[j], block, h, f, ext);
      BlocksRead(c, j + 1, h, f, starts, blocks, length, ext);
    } else {
      LastBlock(f.data, h.blocksize);
    }
  }

  // ----- the frame

  lemma BitsOf(codec: nat, b4: nat, b3: nat, b2: nat, b1: nat, b0: nat)
    requires b4 <= 1 && b3 <= 1 && b2 <= 1 && b1 <= 1 && b0 <= 1
    ensures var b := codec * 32 + b4 * 16 + b3 * 8 + b2 * 4 + b1 * 2 + b0;
            b / 32 == codec && b / 16 % 2 == b4 && b / 4 % 2 == b2 && b / 2 % 2 == b1 && b % 2 == b0
  {
    var b := codec * 32 + b4 * 16 + b3 * 8 + b2 * 4 + b1 * 2 + b0;
    DivUnique(b, 32, codec, b4 * 16 + b3 * 8 + b2 * 4 + b1 * 2 + b0);
    DivUnique(b, 16, 2 * codec + b4, b3 * 8 + b2 * 4 + b1 * 2 + b0);
    DivUnique(b, 4, 8 * codec + 4 * b4 + 2 * b3 + b2, b1 * 2 + b0);
    DivUnique(b, 2, 16 * codec + 8 * b4 + 4 * b3 + 2 * b2 + b1, b0);
    LowBit(codec, b4);
    LowBit(4 * codec + 2 * b4 + b3, b2);
    LowBit(8 * codec + 4 * b4 + 2 * b3 + b2, b1);
  }

  lemma LowBit(x: nat, bit: nat)
    requires bit <= 1
    ensures (2 * x + bit) % 2 == bit
  {
  }

  lemma FlagBits(f: Frame)
    ensures var b := f.Flags();
            && b / 32 == f.codec && (b / 16 % 2 == 0 <==> f.split) && (b / 4 % 2 == 1 <==> f.bitshuffled)
            && (b / 2 % 2 == 1 <==> f.copied) && (b % 2 == 1 <==> f.shuffled)
  {
    hide Bit;
    BitsOf(f.codec, Bit(!f.split), Bit(f.ignored), Bit(f.bitshuffled), Bit(f.copied), Bit(f.shuffled));
  }

  /** Whatever writer made it: a frame that holds the data decompresses to the data. */
  lemma AnyFrameDecompresses(c: seq<u8>, f: Frame, starts: seq<nat>, blocks: seq<seq<Stream>>, length: nat, ext: Decoder)
    requires Holds(c, f, starts, blocks, length, ext)
    ensures Decompress(c, ext) == Success(f.data)
  {
    hide ReadBlocks, BlockAt, FromLe, Le, Seqs.At;
    FlagBits(f);
    FourBytes(|f.data|);
    FourBytes(f.blocksize);
    FourBytes(length);
    if f.copied {
      PieceAt(c, HEADER, f.data);
    } else if f.data != [] {
      assert SameHeader(HeaderOf(c), f);
      BlocksRead(c, 0, HeaderOf(c), f, starts, blocks, length, ext);
      Start(f.data, f.blocksize);
    }
  }

  lemma Start(data: seq<u8>, bs: nat)
    ensures Min(Times(0, bs), |data|) == 0 && data[0..] == data
  {
  }
}
