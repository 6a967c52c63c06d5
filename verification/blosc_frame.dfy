/** The blosc frame: what the decoder makes of any bytes, and what a well-formed frame is. */
module BloscFrame {
  import opened Wrappers
  import opened Bytes
  import Blosclz
  import BitshuffleBlock
  import Shuffle
  import Seqs

  datatype FrameError = FrameTooShort | BadLength | RawTooShort | TruncatedStarts | TruncatedSize | NegativeSize
                      | TruncatedStream | UnknownCodec | CodecFailed | WrongStreamSize | WrongBlockSize

  /** Third-party decompressors: codec, payload and expected size to bytes. */
  type Decoder = (nat, seq<u8>, nat) -> Option<seq<u8>>

  const BLOSCLZ: nat := 0
  const ZLIB: nat := 3
  const ZSTD: nat := 4
  const MAX_SPLITS: nat := 16
  const MIN_BUFFERSIZE: nat := 128
  const HEADER: nat := 16

  datatype Header = Header(codec: nat, typesize: nat, nbytes: nat, blocksize: nat, shuffle: bool, bitshuffle: bool, split: bool)

  function Raw(src: seq<u8>, at: nat): nat
    requires at + 4 <= |src|
  {
    FromLe(src[at..at + 4])
  }

  function HeaderOf(src: seq<u8>): (h: Header)
    requires |src| >= HEADER
    ensures h.blocksize >= 1
  {
    Header(src[2] as int / 32, src[3], Raw(src, 4), if Raw(src, 8) >= 1 then Raw(src, 8) else 1,
           src[2] as int % 2 == 1 && src[3] > 1, src[2] as int / 4 % 2 == 1 && src[3] >= 1, src[2] as int / 16 % 2 == 0)
  }

  // ----- decoder

  function Plain(codec: nat, payload: seq<u8>, n: nat, ext: Decoder): Result<seq<u8>, FrameError> {
    if codec == BLOSCLZ then
      match Blosclz.Decode(payload, n)
      case Failure(_) => Failure(CodecFailed)
      case Success(p) => Success(p)
    else if codec <= ZSTD then
      match ext(codec, payload, n)
      case None => Failure(CodecFailed)
      case Some(p) => Success(p)
    else Failure(UnknownCodec)
  }

  /** One stream of n plain bytes, and the position after it. */
  function ReadStream(src: seq<u8>, off: nat, n: nat, codec: nat, ext: Decoder): (r: Result<(seq<u8>, nat), FrameError>) {
    if off + 4 > |src| then Failure(TruncatedSize)
    else
      var csize := Raw(src, off);
      if csize >= 0x8000_0000 then Failure(NegativeSize)
      else if csize == 0 then Success((Zeroed(n), off + 4))
      else if off + 4 + csize > |src| then Failure(TruncatedStream)
      else
        var payload := src[off + 4..off + 4 + csize];
        if csize == n then Success((payload, off + 4 + csize))
        else
          var plain :- Plain(codec, payload, n, ext);
          if |plain| != n then Failure(WrongStreamSize) else Success((plain, off + 4 + csize))
  }

  /** The k streams of a block, joined. */
  function ReadStreams(src: seq<u8>, off: nat, k: nat, n: nat, codec: nat, ext: Decoder): Result<seq<u8>, FrameError>
    decreases k
  {
    if k == 0 then Success([])
    else
      var (s, off') :- ReadStream(src, off, n, codec, ext);
      var rest :- ReadStreams(src, off', k - 1, n, codec, ext);
      Success(s + rest)
  }

  function Splits(h: Header, bsize: nat): (k: nat)
    requires h.blocksize >= 1
    ensures k >= 1
  {
    if h.split && 1 <= h.typesize <= MAX_SPLITS && h.blocksize / h.typesize >= MIN_BUFFERSIZE && bsize == h.blocksize
    then h.typesize else 1
  }

  function Unfiltered(h: Header, block: seq<u8>): (b: seq<u8>)
    requires h.shuffle || h.bitshuffle ==> h.typesize >= 1
    ensures |b| == |block|
  {
    var b := if h.shuffle then Shuffle.Unshuffled(h.typesize, block) else block;
    if h.bitshuffle then BitshuffleBlock.Bitunshuffled(h.typesize, b) else b
  }

  function ReadBlock(src: seq<u8>, start: nat, bsize: nat, h: Header, ext: Decoder): (r: Result<seq<u8>, FrameError>)
    requires h.blocksize >= 1 && (h.shuffle || h.bitshuffle ==> h.typesize >= 1)
    ensures r.Success? ==> |r.value| == bsize
  {
    var k := Splits(h, bsize);
    DivNonNegative(bsize, k);
    var block :- ReadStreams(src, start, k, bsize / k, h.codec, ext);
    if |block| != bsize then Failure(WrongBlockSize) else Success(Unfiltered(h, block))
  }

  /** Blocks j, j + 1, ... when `left` bytes are still to come. */
  function ReadBlocks(src: seq<u8>, j: nat, left: nat, h: Header, ext: Decoder): Result<seq<u8>, FrameError>
    requires h.blocksize >= 1 && (h.shuffle || h.bitshuffle ==> h.typesize >= 1)
    requires HEADER + 4 * (j + BlocksFor(left, h.blocksize)) <= |src|
    decreases left
  {
    if left == 0 then Success([])
    else
      var bsize := Min(h.blocksize, left);
      var block :- ReadBlock(src, Raw(src, HEADER + 4 * j), bsize, h, ext);
      var rest :- ReadBlocks(src, j + 1, left - bsize, h, ext);
      Success(block + rest)
  }

  function Decompress(src: seq<u8>, ext: Decoder): Result<seq<u8>, FrameError> {
    if |src| < HEADER then Failure(FrameTooShort)
    else
      var h := HeaderOf(src);
      if Raw(src, 12) > |src| then Failure(BadLength)
      else if h.nbytes == 0 then Success([])
      else if src[2] as int / 2 % 2 == 1 then
        if HEADER + h.nbytes > |src| then Failure(RawTooShort) else Success(src[HEADER..HEADER + h.nbytes])
      else if HEADER + 4 * BlocksFor(h.nbytes, h.blocksize) > |src| then Failure(TruncatedStarts)
      else ReadBlocks(src, 0, h.nbytes, h, ext)
  }

  // ----- well-formed frames

  datatype Settings = Settings(codec: u8, shuffle: u8, typesize: nat) {
    /** The element size that goes into the header. */
    function Size(): (ts: nat)
      ensures 1 <= ts <= 255
    {
      if 1 <= typesize <= 255 then typesize else 1
    }

    predicate Shuffles() {
      shuffle == 1 && Size() > 1
    }

    predicate Bitshuffles() {
      shuffle == 2
    }

    function Flags(): u8 {
      codec % 8 * 32 + 16 + (if Shuffles() then 1 else 0) + if Bitshuffles() then 4 else 0
    }

    /** A multiple of the element size, close to 256 KiB. */
    function BlockSize(nbytes: nat): (b: nat)
      ensures 1 <= b <= 256 * 1024
    {
      var b := Min(256 * 1024, Max(nbytes, 1));
      if b % Size() != 0 then Max(b - b % Size(), Size()) else b
    }

    function Filtered(block: seq<u8>): (f: seq<u8>)
      ensures |f| == |block|
    {
      if Shuffles() then Shuffle.Shuffled(Size(), block)
      else if Bitshuffles() then BitshuffleBlock.Bitshuffled(Size(), block)
      else block
    }
  }

  /** Where the last block of n bytes starts if none before it shrinks. */
  function LastStart(s: Settings, n: nat): nat {
    var bs := s.BlockSize(n);
    var b := BlocksFor(n, bs);
    HEADER + 4 * b + if b == 0 then 0 else Times(b - 1, bs + 4)
  }

  /** The size of the data and the starts of all blocks fit their 32-bit fields, whatever the data. */
  predicate FitsFrame(s: Settings, n: nat) {
    n < TWO_32 && LastStart(s, n) < TWO_32
  }

  /** Block j of the data. */
  function BlockOf(x: seq<u8>, bs: nat, j: nat): (b: seq<u8>)
    requires bs > 0 && j < BlocksFor(|x|, bs)
    ensures 0 < |b| <= bs && |b| == Min(bs, |x| - Times(j, bs))
  {
    BlockBounds(|x|, bs, j);
    x[Times(j, bs)..Times(j, bs) + Min(bs, |x| - Times(j, bs))]
  }

  lemma {:induction false} BlockBounds(n: nat, bs: nat, j: nat)
    requires bs > 0 && j < BlocksFor(n, bs)
    ensures Times(j, bs) < n && BlocksFor(n - Times(j, bs), bs) == BlocksFor(n, bs) - j
  {
    if j > 0 {
      BlockBounds(n, bs, j - 1);
    }
  }

  /** At `off` lies a stream that the decoder reads as `block`. */
  ghost predicate StreamAt(c: seq<u8>, off: nat, block: seq<u8>, codec: nat, ext: Decoder) {
    ReadStream(c, off, |block|, codec, ext).Success? && ReadStream(c, off, |block|, codec, ext).value.0 == block
  }

  /** The header of a frame for x up to its last field, with sizes cut to 32 bits. */
  ghost predicate StartsAs(c: seq<u8>, s: Settings, x: seq<u8>) {
    && |c| >= HEADER && c[0..4] == [2, 1, s.Flags(), s.Size()]
    && c[4..8] == Le(|x|, 4) && c[8..12] == Le(s.BlockSize(|x|), 4)
  }

  ghost predicate HasHeader(c: seq<u8>, s: Settings, x: seq<u8>) {
    StartsAs(c, s, x) && c[12..16] == Le(|c|, 4)
  }

  ghost predicate IsFrame(c: seq<u8>, s: Settings, x: seq<u8>, ext: Decoder) {
    var bs := s.BlockSize(|x|);
    && HasHeader(c, s, x)
    && |c| >= HEADER + 4 * BlocksFor(|x|, bs)
    && forall j :: 0 <= j < BlocksFor(|x|, bs) ==>
         StreamAt(c, Raw(c, HEADER + 4 * j), s.Filtered(BlockOf(x, bs, j)), s.codec as int % 8, ext)
  }

  lemma FlagBits(s: Settings)
    ensures var f: int := s.Flags();
            && f / 32 == s.codec as int % 8 && f / 2 % 2 == 0 && f / 16 % 2 == 1
            && (f % 2 == 1 <==> s.Shuffles()) && (f / 4 % 2 == 1 <==> s.Bitshuffles())
  {
  }

  lemma HeaderRead(c: seq<u8>, s: Settings, x: seq<u8>)
    requires HasHeader(c, s, x)
    ensures Raw(c, 4) == |x| % TWO_32 && (|x| < TWO_32 ==> Raw(c, 4) == |x|)
    ensures Raw(c, 12) <= |c| && c[2] == s.Flags()
    ensures HeaderOf(c) == Header(s.codec as int % 8, s.Size(), |x| % TWO_32, s.BlockSize(|x|), s.Shuffles(), s.Bitshuffles(), false)
  {
    Pow2Constants();
    FromLeOfLe(|x|, 4);
    FromLeOfLe(s.BlockSize(|x|), 4);
    FromLeOfLe(|c|, 4);
    FlagBits(s);
    assert c[2] == c[0..4][2] && c[3] == c[0..4][3];
  }

  // ----- decoding a well-formed frame

  lemma UnfilteredOfFiltered(s: Settings, h: Header, block: seq<u8>)
    requires h.typesize == s.Size() && h.shuffle == s.Shuffles() && h.bitshuffle == s.Bitshuffles()
    ensures Unfiltered(h, s.Filtered(block)) == block
  {
    Shuffle.UnshuffleOfShuffle(s.Size(), block);
    BitshuffleBlock.UnshuffleOfShuffle(s.Size(), block);
  }

  lemma DecodeBlock(c: seq<u8>, start: nat, block: seq<u8>, s: Settings, h: Header, ext: Decoder)
    requires h.typesize == s.Size() && h.shuffle == s.Shuffles() && h.bitshuffle == s.Bitshuffles() && !h.split && h.blocksize >= 1
    requires StreamAt(c, start, s.Filtered(block), h.codec, ext)
    ensures ReadBlock(c, start, |block|, h, ext) == Success(block)
  {
    hide ReadStream, Unfiltered;
    UnfilteredOfFiltered(s, h, block);
    OneStream(c, start, s.Filtered(block), h.codec, ext);
    DivUnique(|block|, 1, |block|, 0);
  }

  lemma OneStream(c: seq<u8>, start: nat, block: seq<u8>, codec: nat, ext: Decoder)
    requires StreamAt(c, start, block, codec, ext)
    ensures ReadStreams(c, start, 1, |block|, codec, ext) == Success(block)
  {
    hide ReadStream;
    Seqs.Empty(block);
    assert ReadStreams(c, ReadStream(c, start, |block|, codec, ext).value.1, 0, |block|, codec, ext) == Success([]);
  }

  /** The settings that the header of a frame passes to the decoder. */
  ghost predicate Matches(h: Header, s: Settings, x: seq<u8>) {
    && h.codec == s.codec as int % 8 && h.typesize == s.Size() && h.blocksize == s.BlockSize(|x|)
    && h.shuffle == s.Shuffles() && h.bitshuffle == s.Bitshuffles() && !h.split
  }

  lemma DecodeBlockAt(c: seq<u8>, x: seq<u8>, j: nat, s: Settings, h: Header, ext: Decoder)
    requires IsFrame(c, s, x, ext) && Matches(h, s, x) && j < BlocksFor(|x|, h.blocksize)
    ensures ReadBlock(c, Raw(c, HEADER + 4 * j), |BlockOf(x, h.blocksize, j)|, h, ext) == Success(BlockOf(x, h.blocksize, j))
  {
    hide ReadBlock, StreamAt, HasHeader, BlockOf;
    DecodeBlock(c, Raw(c, HEADER + 4 * j), BlockOf(x, h.blocksize, j), s, h, ext);
  }

  lemma FirstBlock(x: seq<u8>, bs: nat, j: nat)
    requires bs > 0 && j < BlocksFor(|x|, bs)
    ensures var at := Times(j, bs);
            && at < |x| && BlocksFor(|x| - at, bs) == BlocksFor(|x|, bs) - j
            && |BlockOf(x, bs, j)| == Min(bs, |x| - at)
            && Min(Times(j + 1, bs), |x|) == at + |BlockOf(x, bs, j)|
            && x[at..] == BlockOf(x, bs, j) + x[at + |BlockOf(x, bs, j)|..]
  {
    BlockBounds(|x|, bs, j);
    Seqs.SliceOfDrop(x, Times(j, bs), |BlockOf(x, bs, j)|);
    Seqs.SplitAt(x[Times(j, bs)..], |BlockOf(x, bs, j)|);
  }

  lemma {:induction false} DecodeBlocks(c: seq<u8>, x: seq<u8>, j: nat, s: Settings, h: Header, ext: Decoder)
    requires IsFrame(c, s, x, ext) && Matches(h, s, x) && j <= BlocksFor(|x|, h.blocksize)
    requires h.blocksize >= 1 && h.typesize >= 1 && |c| >= HEADER + 4 * BlocksFor(|x|, h.blocksize)
    ensures var at := Min(Times(j, h.blocksize), |x|);
            && j + BlocksFor(|x| - at, h.blocksize) == BlocksFor(|x|, h.blocksize)
            && ReadBlocks(c, j, |x| - at, h, ext) == Success(x[at..])
    decreases BlocksFor(|x|, h.blocksize) - j
  {
    hide ReadBlock, IsFrame, Matches, BlockOf, Times, BlocksFor;
    if j < BlocksFor(|x|, h.blocksize) {
      FirstBlock(x, h.blocksize, j);
      DecodeBlockAt(c, x, j, s, h, ext);
      DecodeBlocks(c, x, j + 1, s, h, ext);
    } else {
      LastBlock(x, h.blocksize);
    }
  }

  lemma LastBlock(x: seq<u8>, bs: nat)
    requires bs > 0
    ensures Min(Times(BlocksFor(|x|, bs), bs), |x|) == |x| && x[|x|..] == [] && BlocksFor(0, bs) == 0
  {
  }

  /** A well-formed frame of fewer than 2^32 data bytes decodes to them. */
  lemma DecompressOfFrame(c: seq<u8>, s: Settings, x: seq<u8>, ext: Decoder)
    requires IsFrame(c, s, x, ext) && |x| < TWO_32
    ensures Decompress(c, ext) == Success(x)
  {
    hide ReadBlocks, HeaderOf, StreamAt;
    HeaderRead(c, s, x);
    FlagBits(s);
    DivUnique(|x|, TWO_32, 0, |x|);
    if x != [] {
      assert Matches(HeaderOf(c), s, x);
      DecodeBlocks(c, x, 0, s, HeaderOf(c), ext);
      assert x[0..] == x;
    }
  }

  lemma {:induction false} BlocksLength(c: seq<u8>, j: nat, left: nat, h: Header, ext: Decoder)
    requires h.blocksize >= 1 && (h.shuffle || h.bitshuffle ==> h.typesize >= 1)
    requires HEADER + 4 * (j + BlocksFor(left, h.blocksize)) <= |c|
    ensures var r := ReadBlocks(c, j, left, h, ext); r.Success? ==> |r.value| == left
    decreases left
  {
    hide ReadBlock;
    if left > 0 {
      BlocksLength(c, j + 1, left - Min(h.blocksize, left), h, ext);
    }
  }

  /** Whatever the decoder accepts has as many bytes as the header says. */
  lemma DecompressedLength(c: seq<u8>, ext: Decoder)
    ensures var r := Decompress(c, ext); r.Success? ==> |c| >= HEADER && |r.value| == Raw(c, 4)
  {
    hide ReadBlocks;
    if |c| >= HEADER {
      var h := HeaderOf(c);
      if HEADER + 4 * BlocksFor(h.nbytes, h.blocksize) <= |c| {
        BlocksLength(c, 0, h.nbytes, h, ext);
      }
    }
  }

  /** From 2^32 data bytes on, the 32-bit size field loses the data. */
  lemma TooLargeForFrame(c: seq<u8>, s: Settings, x: seq<u8>, ext: Decoder)
    requires HasHeader(c, s, x) && |x| >= TWO_32
    ensures Decompress(c, ext) != Success(x)
  {
    HeaderRead(c, s, x);
    DecompressedLength(c, ext);
  }
}
