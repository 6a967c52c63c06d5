/** The loops that write and read blosc frames. */
module BloscCodec {
  import opened Wrappers
  import opened Bytes
  import opened Continuing
  import opened BloscFrame
  import BitshuffleBlock
  import Blosclz
  import Shuffle
  import Seqs

  /** Third-party compressors: codec and block to bytes, if they can. */
  type Encoder = (nat, seq<u8>) -> Option<seq<u8>>

  /** What is asked of the third-party codecs: a shortened block is not empty and can be restored. */
  ghost predicate Inverse(enc: Encoder, ext: Decoder) {
    forall codec, b :: BLOSCLZ < codec <= ZLIB && enc(codec, b).Some? && |enc(codec, b).value| < |b| ==>
      enc(codec, b).value != [] && ext(codec, enc(codec, b).value, |b|) == Some(b)
  }

  // ----- writing 32-bit fields in place

  function Patched(out: seq<u8>, p: nat, v: nat): (r: seq<u8>)
    requires p + 4 <= |out|
    ensures |r| == |out| && r[p..p + 4] == Le(v, 4)
  {
    out[..p] + Le(v, 4) + out[p + 4..]
  }

  /** Everything outside the field stays. */
  lemma PatchedSlice(out: seq<u8>, p: nat, v: nat, a: nat, b: nat)
    requires p + 4 <= |out| && a <= b <= |out| && (b <= p || p + 4 <= a)
    ensures Patched(out, p, v)[a..b] == out[a..b]
  {
  }

  // ----- streams

  lemma StreamBytes(out: seq<u8>, payload: seq<u8>)
    requires |payload| < TWO_32
    ensures var c := out + Le(|payload|, 4) + payload;
            && |c| == |out| + 4 + |payload| && Raw(c, |out|) == |payload|
            && c[|out| + 4..|out| + 4 + |payload|] == payload
  {
    hide Le, FromLe;
    Pow2Constants();
    FromLeOfLe(|payload|, 4);
    MiddleAndEnd(out, Le(|payload|, 4), payload);
  }

  lemma MiddleAndEnd(a: seq<u8>, b: seq<u8>, c: seq<u8>)
    ensures var s := a + b + c;
            s[|a|..|a| + |b|] == b && s[|a| + |b|..|a| + |b| + |c|] == c
  {
  }

  lemma StoredStream(out: seq<u8>, block: seq<u8>, codec: nat, ext: Decoder)
    requires 0 < |block| < 0x8000_0000
    ensures StreamAt(out + Le(|block|, 4) + block, |out|, block, codec, ext)
  {
    hide StreamAt, Raw, Le;
    StreamBytes(out, block);
    StoredRead(out + Le(|block|, 4) + block, |out|, block, codec, ext);
  }

  lemma StoredRead(c: seq<u8>, off: nat, block: seq<u8>, codec: nat, ext: Decoder)
    requires 0 < |block| < 0x8000_0000 && off + 4 + |block| <= |c| && Raw(c, off) == |block|
    requires c[off + 4..off + 4 + |block|] == block
    ensures StreamAt(c, off, block, codec, ext)
  {
    hide Plain, Raw;
  }

  lemma CodedStream(out: seq<u8>, payload: seq<u8>, block: seq<u8>, codec: nat, ext: Decoder)
    requires 0 < |payload| < |block| < 0x8000_0000 && Plain(codec, payload, |block|, ext) == Success(block)
    ensures StreamAt(out + Le(|payload|, 4) + payload, |out|, block, codec, ext)
  {
    hide Plain, StreamAt, Raw, Le;
    var c := out + Le(|payload|, 4) + payload;
    StreamBytes(out, payload);
    CodedRead(c, |out|, |payload|, block, codec, ext);
  }

  lemma CodedRead(c: seq<u8>, off: nat, csize: nat, block: seq<u8>, codec: nat, ext: Decoder)
    requires 0 < csize < |block| < 0x8000_0000 && off + 4 + csize <= |c| && Raw(c, off) == csize
    requires Plain(codec, c[off + 4..off + 4 + csize], |block|, ext) == Success(block)
    ensures StreamAt(c, off, block, codec, ext)
  {
    hide Plain, Raw;
  }

  /** A stream stays readable when bytes before it are patched and bytes after it are added. */
  lemma StreamStays(c: seq<u8>, c': seq<u8>, lo: nat, off: nat, block: seq<u8>, codec: nat, ext: Decoder)
    requires lo <= off && lo <= |c| <= |c'| && c'[lo..|c|] == c[lo..] && StreamAt(c, off, block, codec, ext)
    ensures StreamAt(c', off, block, codec, ext)
  {
    hide Plain;
    var csize := Raw(c, off);
    SameSlice(c, c', lo, off, off + 4);
    SameSlice(c, c', lo, off + 4, off + 4 + csize);
  }

  lemma SameSlice(c: seq<u8>, c': seq<u8>, lo: nat, a: nat, b: nat)
    requires lo <= a <= b && lo <= |c| <= |c'| && c'[lo..|c|] == c[lo..]
    ensures b <= |c| ==> c'[a..b] == c[a..b]
  {
    if b <= |c| {
      Seqs.SliceOfSlice(c', lo, |c|, a - lo, b - lo);
      Seqs.SliceSlice(c, lo, a - lo, b - lo);
    }
  }

  // ----- compressing

  /** The start table leads to block i. */
  ghost predicate Entry(out: seq<u8>, s: Settings, x: seq<u8>, i: nat, lo: nat, ext: Decoder) {
    var bs := s.BlockSize(|x|);
    && i < BlocksFor(|x|, bs) && HEADER + 4 * i + 4 <= lo <= |out| && lo <= Raw(out, HEADER + 4 * i)
    && StreamAt(out, Raw(out, HEADER + 4 * i), s.Filtered(BlockOf(x, bs, i)), s.codec as int % 8, ext)
  }

  /** The header is in place and blocks 0 .. j are written; the start table leads to them as long as
      no start can be too large for it. */
  ghost predicate Written(out: seq<u8>, s: Settings, x: seq<u8>, j: nat, lo: nat, ext: Decoder) {
    && lo == HEADER + 4 * BlocksFor(|x|, s.BlockSize(|x|)) && HEADER + 4 * j <= lo <= |out|
    && StartsAs(out, s, x) && |out| <= lo + Times(j, s.BlockSize(|x|) + 4)
    && (LastStart(s, |x|) < TWO_32 ==> forall i :: 0 <= i < j ==> Entry(out, s, x, i, lo, ext))
  }

  lemma EntryStays(out: seq<u8>, c: seq<u8>, s: Settings, x: seq<u8>, i: nat, lo: nat, ext: Decoder)
    requires Entry(out, s, x, i, lo, ext) && |out| <= |c|
    requires c[HEADER + 4 * i..HEADER + 4 * i + 4] == out[HEADER + 4 * i..HEADER + 4 * i + 4] && c[lo..|out|] == out[lo..]
    ensures Entry(c, s, x, i, lo, ext)
  {
    hide StreamAt, BlockOf, Settings.Filtered, Settings.BlockSize, FromLe, BlocksFor;
    StreamStays(out, c, lo, Raw(out, HEADER + 4 * i), s.Filtered(BlockOf(x, s.BlockSize(|x|), i)), s.codec as int % 8, ext);
  }

  /** One more stream, with its position in the start table. */
  function Appended(out: seq<u8>, payload: seq<u8>, p: nat): seq<u8>
    requires p + 4 <= |out|
  {
    Patched(out, p, |out|) + Le(|payload|, 4) + payload
  }

  /** Adding block j keeps what was written and adds one stream. */
  lemma WriteOne(out: seq<u8>, payload: seq<u8>, s: Settings, x: seq<u8>, j: nat, lo: nat, ext: Decoder)
    requires Written(out, s, x, j, lo, ext) && HEADER + 4 * j + 4 <= lo
    requires j < BlocksFor(|x|, s.BlockSize(|x|)) && |payload| <= s.BlockSize(|x|)
    requires StreamAt(Appended(out, payload, HEADER + 4 * j), |out|,
                      s.Filtered(BlockOf(x, s.BlockSize(|x|), j)), s.codec as int % 8, ext)
    ensures Written(Appended(out, payload, HEADER + 4 * j), s, x, j + 1, lo, ext)
  {
    hide StreamAt, BlockOf, Settings.Filtered, Settings.BlockSize, FromLe, BlocksFor, Entry, Appended, StartsAs, LastStart;
    var p := HEADER + 4 * j;
    var c := Appended(out, payload, p);
    StartKept(out, payload, s, x, p);
    NewField(out, payload, p);
    if LastStart(s, |x|) < TWO_32 {
      StartsFit(s, |x|, j);
      NewEntry(c, s, x, j, lo, |out|, ext);
      OldEntries(out, payload, s, x, j, lo, ext);
    }
  }

  lemma StartKept(out: seq<u8>, payload: seq<u8>, s: Settings, x: seq<u8>, p: nat)
    requires StartsAs(out, s, x) && HEADER <= p && p + 4 <= |out|
    ensures StartsAs(Appended(out, payload, p), s, x)
  {
    hide Appended, StartsAs;
    KeptSlice(out, payload, p, 0, 4);
    KeptSlice(out, payload, p, 4, 8);
    KeptSlice(out, payload, p, 8, 12);
    StartStays(out, Appended(out, payload, p), s, x);
  }

  lemma OldEntries(out: seq<u8>, payload: seq<u8>, s: Settings, x: seq<u8>, j: nat, lo: nat, ext: Decoder)
    requires HEADER + 4 * j + 4 <= lo <= |out| && forall i :: 0 <= i < j ==> Entry(out, s, x, i, lo, ext)
    ensures var c := Appended(out, payload, HEADER + 4 * j);
            forall i :: 0 <= i < j ==> Entry(c, s, x, i, lo, ext)
  {
    hide Entry, Appended;
    var p := HEADER + 4 * j;
    KeptSlice(out, payload, p, lo, |out|);
    forall i | 0 <= i < j
      ensures Entry(Appended(out, payload, p), s, x, i, lo, ext)
    {
      KeptSlice(out, payload, p, HEADER + 4 * i, HEADER + 4 * i + 4);
      EntryStays(out, Appended(out, payload, p), s, x, i, lo, ext);
    }
  }

  lemma NewEntry(c: seq<u8>, s: Settings, x: seq<u8>, j: nat, lo: nat, off: nat, ext: Decoder)
    requires j < BlocksFor(|x|, s.BlockSize(|x|)) && HEADER + 4 * j + 4 <= lo <= off <= |c| && Raw(c, HEADER + 4 * j) == off
    requires StreamAt(c, off, s.Filtered(BlockOf(x, s.BlockSize(|x|), j)), s.codec as int % 8, ext)
    ensures Entry(c, s, x, j, lo, ext)
  {
    hide StreamAt;
  }

  lemma KeptSlice(out: seq<u8>, payload: seq<u8>, p: nat, a: nat, b: nat)
    requires p + 4 <= |out| && a <= b <= |out| && (b <= p || p + 4 <= a)
    ensures var c := Appended(out, payload, p);
            |c| >= |out| && c[a..b] == out[a..b]
  {
    var patched := Patched(out, p, |out|);
    PatchedSlice(out, p, |out|, a, b);
    Seqs.Assoc(patched, Le(|payload|, 4), payload);
    Seqs.SliceInto(patched, Le(|payload|, 4) + payload, a, b);
  }

  lemma NewField(out: seq<u8>, payload: seq<u8>, p: nat)
    requires p + 4 <= |out|
    ensures var c := Appended(out, payload, p);
            && |c| == |out| + 4 + |payload| && Raw(c, p) == |out| % TWO_32
            && (|out| < TWO_32 ==> Raw(c, p) == |out|)
  {
    var patched := Patched(out, p, |out|);
    Seqs.Assoc(patched, Le(|payload|, 4), payload);
    Seqs.SliceInto(patched, Le(|payload|, 4) + payload, p, p + 4);
    Pow2Constants();
    FromLeOfLe(|out|, 4);
    if |out| < TWO_32 {
      DivUnique(|out|, TWO_32, 0, |out|);
    }
  }

  /** No block can start behind the last. */
  lemma StartsFit(s: Settings, n: nat, j: nat)
    requires j < BlocksFor(n, s.BlockSize(n))
    ensures HEADER + 4 * BlocksFor(n, s.BlockSize(n)) + Times(j, s.BlockSize(n) + 4) <= LastStart(s, n)
  {
    TimesMonotone(j, BlocksFor(n, s.BlockSize(n)) - 1, s.BlockSize(n) + 4);
  }

  method FilterBlock(s: Settings, raw: seq<u8>) returns (block: seq<u8>)
    ensures block == s.Filtered(raw)
  {
    if s.Shuffles() {
      block := Shuffle.ShuffleBytes(s.Size(), raw);
    } else if s.Bitshuffles() {
      block := BitshuffleBlock.BitshuffleBytes(s.Size(), raw);
    } else {
      block := raw;
    }
  }

  /** Blocks for which no shorter form is found. */
  ghost predicate Unshortened(s: Settings, block: seq<u8>, enc: Encoder) {
    if s.codec == BLOSCLZ then Blosclz.Unrepeating(block)
    else s.codec <= ZLIB ==> enc(s.codec, block).None? || |enc(s.codec, block).value| >= |block|
  }

  /** A shorter form of the block that the decoder can restore, if the codec finds one. */
  method Shorten(s: Settings, block: seq<u8>, enc: Encoder, ghost ext: Decoder) returns (r: Option<seq<u8>>)
    requires Inverse(enc, ext)
    ensures Unshortened(s, block, enc) ==> r.None?
    ensures r.Some? ==> 0 < |r.value| < |block| && Plain(s.codec as int % 8, r.value, |block|, ext) == Success(block)
  {
    if s.codec == BLOSCLZ {
      r := Blosclz.Compress(block);
    } else if s.codec <= ZLIB {
      r := enc(s.codec, block);
      if r.Some? && |r.value| >= |block| {
        r := None;
      }
    } else {
      r := None;
    }
  }

  method AddBlock(out: seq<u8>, s: Settings, x: seq<u8>, j: nat, ghost lo: nat, enc: Encoder, ghost ext: Decoder) returns (c: seq<u8>)
    requires Inverse(enc, ext) && Written(out, s, x, j, lo, ext) && j < BlocksFor(|x|, s.BlockSize(|x|))
    ensures Written(c, s, x, j + 1, lo, ext)
    ensures var block := s.Filtered(BlockOf(x, s.BlockSize(|x|), j));
            Unshortened(s, block, enc) ==> c == Appended(out, block, HEADER + 4 * j)
  {
    hide Plain, StreamAt, BlockOf, Settings.Filtered, Settings.Flags, Settings.Size, Le, Inverse, Entry, BlocksFor, StartsAs, Unshortened;
    var raw := BlockOf(x, s.BlockSize(|x|), j);
    var block := FilterBlock(s, raw);
    var patched := Patched(out, HEADER + 4 * j, |out|);
    var shorter := Shorten(s, block, enc, ext);
    var payload := if shorter.Some? then shorter.value else block;
    if shorter.Some? {
      CodedStream(patched, payload, block, s.codec as int % 8, ext);
    } else {
      StoredStream(patched, block, s.codec as int % 8, ext);
    }
    WriteOne(out, payload, s, x, j, lo, ext);
    c := patched + Le(|payload|, 4) + payload;
  }

  /** The frame of blocks stored as they are, before its length is filled in. */
  function Built(s: Settings, x: seq<u8>, j: nat): (out: seq<u8>)
    requires j <= BlocksFor(|x|, s.BlockSize(|x|))
    ensures |out| >= HEADER + 4 * BlocksFor(|x|, s.BlockSize(|x|))
  {
    var bs := s.BlockSize(|x|);
    if j == 0 then FrameStart(s, |x|, bs, BlocksFor(|x|, bs))
    else Appended(Built(s, x, j - 1), s.Filtered(BlockOf(x, bs, j - 1)), HEADER + 4 * (j - 1))
  }

  function StoredFrame(s: Settings, x: seq<u8>): seq<u8> {
    var out := Built(s, x, BlocksFor(|x|, s.BlockSize(|x|)));
    Patched(out, 12, |out|)
  }

  ghost predicate AllUnshortened(s: Settings, x: seq<u8>, enc: Encoder) {
    var bs := s.BlockSize(|x|);
    forall j :: 0 <= j < BlocksFor(|x|, bs) ==> Unshortened(s, s.Filtered(BlockOf(x, bs, j)), enc)
  }

  /** Compression: the frame decodes to the data as long as all starts fit the start table; BloscLimits
      shows that this is the condition. Blocks that do not shrink are stored as they are. */
  method Compress(s: Settings, x: seq<u8>, enc: Encoder, ghost ext: Decoder) returns (c: seq<u8>)
    requires Inverse(enc, ext)
    ensures HasHeader(c, s, x)
    ensures LastStart(s, |x|) < TWO_32 ==> IsFrame(c, s, x, ext)
    ensures FitsFrame(s, |x|) ==> Decompress(c, ext) == Success(x)
    ensures |x| >= TWO_32 ==> Decompress(c, ext) != Success(x)
    ensures AllUnshortened(s, x, enc) ==> c == StoredFrame(s, x)
  {
    hide Inverse, Decompress, StreamAt, Written, HasHeader, IsFrame, BlocksFor, Patched, Settings.BlockSize,
         Appended, Unshortened, LastStart, FrameStart;
    var bs := s.BlockSize(|x|);
    var n := BlocksFor(|x|, bs);
    var out := FrameStart(s, |x|, bs, n);
    NothingWritten(s, x, ext);
    for j := 0 to n
      invariant Written(out, s, x, j, HEADER + 4 * n, ext)
      invariant AllUnshortened(s, x, enc) ==> out == Built(s, x, j)
    {
      out := AddBlock(out, s, x, j, HEADER + 4 * n, enc, ext);
    }
    LengthWritten(out, s, x, HEADER + 4 * n, ext);
    c := Patched(out, 12, |out|);
    if |x| >= TWO_32 {
      TooLargeForFrame(c, s, x, ext);
    } else if LastStart(s, |x|) < TWO_32 {
      DecompressOfFrame(c, s, x, ext);
    }
  }

  function FrameStart(s: Settings, nbytes: nat, bs: nat, n: nat): (c: seq<u8>)
    ensures |c| == HEADER + 4 * n
  {
    [2, 1, s.Flags(), s.Size()] + Le(nbytes, 4) + Le(bs, 4) + Le(0, 4) + Zeroed(4 * n)
  }

  lemma NothingWritten(s: Settings, x: seq<u8>, ext: Decoder)
    ensures var bs := s.BlockSize(|x|); var n := BlocksFor(|x|, bs);
            Written(FrameStart(s, |x|, bs, n), s, x, 0, HEADER + 4 * n, ext)
  {
    hide StartsAs, FrameStart, Settings.BlockSize, BlocksFor, Entry;
    var bs := s.BlockSize(|x|);
    StartFields(s, x, BlocksFor(|x|, bs));
  }

  lemma StartFields(s: Settings, x: seq<u8>, n: nat)
    ensures var c := FrameStart(s, |x|, s.BlockSize(|x|), n);
            |c| == HEADER + 4 * n && StartsAs(c, s, x)
  {
    hide Settings.Flags, Settings.Size, Settings.BlockSize, Le, Zeroed;
    FourFields([2, 1, s.Flags(), s.Size()], Le(|x|, 4), Le(s.BlockSize(|x|), 4), Le(0, 4), Zeroed(4 * n));
  }

  lemma StartStays(c: seq<u8>, c': seq<u8>, s: Settings, x: seq<u8>)
    requires StartsAs(c, s, x) && |c| <= |c'|
    requires c'[0..4] == c[0..4] && c'[4..8] == c[4..8] && c'[8..12] == c[8..12]
    ensures StartsAs(c', s, x)
  {
    hide Settings.Flags, Settings.Size, Settings.BlockSize, Le;
  }

  lemma FourFields(a: seq<u8>, b: seq<u8>, c: seq<u8>, d: seq<u8>, rest: seq<u8>)
    requires |a| == |b| == |c| == |d| == 4
    ensures var out := a + b + c + d + rest; out[0..4] == a && out[4..8] == b && out[8..12] == c
  {
  }

  lemma LengthWritten(out: seq<u8>, s: Settings, x: seq<u8>, lo: nat, ext: Decoder)
    requires Written(out, s, x, BlocksFor(|x|, s.BlockSize(|x|)), lo, ext)
    ensures |out| >= HEADER
    ensures var c := Patched(out, 12, |out|); HasHeader(c, s, x) && (LastStart(s, |x|) < TWO_32 ==> IsFrame(c, s, x, ext))
  {
    hide Entry, Settings.BlockSize, BlocksFor, Patched, StartsAs, IsFrame, Le, LastStart;
    var c := Patched(out, 12, |out|);
    PatchedSlice(out, 12, |out|, 0, 4);
    PatchedSlice(out, 12, |out|, 4, 8);
    PatchedSlice(out, 12, |out|, 8, 12);
    StartStays(out, c, s, x);
    if LastStart(s, |x|) < TWO_32 {
      EntriesKept(out, s, x, BlocksFor(|x|, s.BlockSize(|x|)), lo, ext);
      FrameComplete(c, s, x, lo, ext);
    }
  }

  lemma EntriesKept(out: seq<u8>, s: Settings, x: seq<u8>, n: nat, lo: nat, ext: Decoder)
    requires HEADER + 4 * n <= lo <= |out| && forall i :: 0 <= i < n ==> Entry(out, s, x, i, lo, ext)
    ensures forall i :: 0 <= i < n ==> Entry(Patched(out, 12, |out|), s, x, i, lo, ext)
  {
    hide Entry, Patched;
    var c := Patched(out, 12, |out|);
    PatchedSlice(out, 12, |out|, lo, |out|);
    forall i | 0 <= i < n ensures Entry(c, s, x, i, lo, ext) {
      PatchedSlice(out, 12, |out|, HEADER + 4 * i, HEADER + 4 * i + 4);
      EntryStays(out, c, s, x, i, lo, ext);
    }
  }

  lemma FrameComplete(c: seq<u8>, s: Settings, x: seq<u8>, lo: nat, ext: Decoder)
    requires HasHeader(c, s, x) && lo == HEADER + 4 * BlocksFor(|x|, s.BlockSize(|x|)) <= |c|
    requires forall i :: 0 <= i < BlocksFor(|x|, s.BlockSize(|x|)) ==> Entry(c, s, x, i, lo, ext)
    ensures IsFrame(c, s, x, ext)
  {
    hide StreamAt, BlockOf, Settings.Filtered, Settings.BlockSize, BlocksFor, HasHeader, Raw;
    forall i | 0 <= i < BlocksFor(|x|, s.BlockSize(|x|))
      ensures StreamAt(c, Raw(c, HEADER + 4 * i), s.Filtered(BlockOf(x, s.BlockSize(|x|), i)), s.codec as int % 8, ext)
    {
      assert Entry(c, s, x, i, lo, ext);
    }
  }

  // ----- decompressing

  method Expand(codec: nat, payload: seq<u8>, n: nat, ext: Decoder) returns (r: Result<seq<u8>, FrameError>)
    ensures r == Plain(codec, payload, n, ext)
  {
    if codec == BLOSCLZ {
      var p := Blosclz.Decompress(payload, n);
      return if p.Success? then Success(p.value) else Failure(CodecFailed);
    }
    r := Plain(codec, payload, n, ext);
  }

  method NextStream(src: seq<u8>, off: nat, n: nat, codec: nat, ext: Decoder) returns (r: Result<(seq<u8>, nat), FrameError>)
    ensures r == ReadStream(src, off, n, codec, ext)
  {
    hide Plain;
    if off + 4 > |src| {
      return Failure(TruncatedSize);
    }
    var csize := Raw(src, off);
    if csize >= 0x8000_0000 {
      return Failure(NegativeSize);
    }
    if csize == 0 {
      return Success((Zeroed(n), off + 4));
    }
    if off + 4 + csize > |src| {
      return Failure(TruncatedStream);
    }
    var payload := src[off + 4..off + 4 + csize];
    if csize == n {
      return Success((payload, off + 4 + csize));
    }
    var plain := Expand(codec, payload, n, ext);
    if plain.Failure? {
      return Failure(plain.error);
    }
    if |plain.value| != n {
      return Failure(WrongStreamSize);
    }
    r := Success((plain.value, off + 4 + csize));
  }

  method JoinStreams(src: seq<u8>, start: nat, k: nat, n: nat, codec: nat, ext: Decoder) returns (r: Result<seq<u8>, FrameError>)
    ensures r == ReadStreams(src, start, k, n, codec, ext)
  {
    hide ReadStream, Continues;
    ghost var total := ReadStreams(src, start, k, n, codec, ext);
    var block: seq<u8>, off := [], start;
    ContinuesFirst(total);
    for i := 0 to k
      invariant Continues(total, block, ReadStreams(src, off, k - i, n, codec, ext))
    {
      var s := NextStream(src, off, n, codec, ext);
      if s.Failure? {
        ContinuesFailed(total, block, s.error);
        return Failure(s.error);
      }
      ContinuesNext(total, block, s.value.0, ReadStreams(src, s.value.1, k - i - 1, n, codec, ext));
      block, off := block + s.value.0, s.value.1;
    }
    ContinuesLast(total, block);
    r := Success(block);
  }

  method NextBlock(src: seq<u8>, start: nat, bsize: nat, h: Header, ext: Decoder) returns (r: Result<seq<u8>, FrameError>)
    requires h.blocksize >= 1 && (h.shuffle || h.bitshuffle ==> h.typesize >= 1)
    ensures r == ReadBlock(src, start, bsize, h, ext)
  {
    hide ReadStreams;
    var k := Splits(h, bsize);
    DivNonNegative(bsize, k);
    var streams := JoinStreams(src, start, k, bsize / k, h.codec, ext);
    if streams.Failure? {
      return Failure(streams.error);
    }
    var block := streams.value;
    if |block| != bsize {
      return Failure(WrongBlockSize);
    }
    if h.shuffle {
      block := Shuffle.UnshuffleBytes(h.typesize, block);
    }
    if h.bitshuffle {
      block := BitshuffleBlock.BitunshuffleBytes(h.typesize, block);
    }
    r := Success(block);
  }

  method DecompressFrame(src: seq<u8>, ext: Decoder) returns (r: Result<seq<u8>, FrameError>)
    ensures r == Decompress(src, ext)
  {
    hide ReadBlocks, HeaderOf, BlocksFor;
    if |src| < HEADER {
      return Failure(FrameTooShort);
    }
    var h := HeaderOf(src);
    if Raw(src, 12) > |src| {
      return Failure(BadLength);
    }
    if h.nbytes == 0 {
      return Success([]);
    }
    if src[2] as int / 2 % 2 == 1 {
      if HEADER + h.nbytes > |src| {
        return Failure(RawTooShort);
      }
      return Success(src[HEADER..HEADER + h.nbytes]);
    }
    if HEADER + 4 * BlocksFor(h.nbytes, h.blocksize) > |src| {
      return Failure(TruncatedStarts);
    }
    ShufflesHaveSize(src);
    r := JoinBlocks(src, h, ext);
  }

  lemma ShufflesHaveSize(src: seq<u8>)
    requires |src| >= HEADER
    ensures HeaderOf(src).shuffle || HeaderOf(src).bitshuffle ==> HeaderOf(src).typesize >= 1
  {
  }

  method JoinBlocks(src: seq<u8>, h: Header, ext: Decoder) returns (r: Result<seq<u8>, FrameError>)
    requires h.blocksize >= 1 && (h.shuffle || h.bitshuffle ==> h.typesize >= 1)
    requires HEADER + 4 * BlocksFor(h.nbytes, h.blocksize) <= |src|
    ensures r == ReadBlocks(src, 0, h.nbytes, h, ext)
  {
    hide ReadBlock, Continues;
    ghost var total := ReadBlocks(src, 0, h.nbytes, h, ext);
    var out: seq<u8>, j: nat, left: nat := [], 0, h.nbytes;
    ContinuesFirst(total);
    while left > 0
      invariant HEADER + 4 * (j + BlocksFor(left, h.blocksize)) <= |src|
      invariant Continues(total, out, ReadBlocks(src, j, left, h, ext))
    {
      var bsize := Min(h.blocksize, left);
      var block := NextBlock(src, Raw(src, HEADER + 4 * j), bsize, h, ext);
      if block.Failure? {
        ContinuesFailed(total, out, block.error);
        return Failure(block.error);
      }
      ContinuesNext(total, out, block.value, ReadBlocks(src, j + 1, left - bsize, h, ext));
      out, j, left := out + block.value, j + 1, left - bsize;
    }
    ContinuesLast(total, out);
    r := Success(out);
  }
}
