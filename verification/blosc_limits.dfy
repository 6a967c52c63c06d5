/** Which amounts of data every blosc frame can hold. */
module BloscLimits {
  import opened Wrappers
  import opened Bytes
  import opened BloscFrame
  import opened BloscCodec
  import BitshuffleBlock
  import Blosclz
  import Lz
  import Seqs
  import Shuffle

  lemma BlocksUnique(n: nat, b: nat, k: nat)
    requires b > 0 && n <= Times(k, b) && (k > 0 ==> Times(k - 1, b) < n) && (k == 0 ==> n == 0)
    ensures BlocksFor(n, b) == k
  {
    var c := BlocksFor(n, b);
    if c < k {
      TimesMonotone(c, k - 1, b);
    } else if k < c {
      TimesMonotone(k, c, b);
    }
  }

  // ----- frames of stored blocks are frames

  lemma BuiltStep(s: Settings, x: seq<u8>, j: nat)
    requires 0 < j <= BlocksFor(|x|, s.BlockSize(|x|))
    ensures Built(s, x, j) == Appended(Built(s, x, j - 1), s.Filtered(BlockOf(x, s.BlockSize(|x|), j - 1)), HEADER + 4 * (j - 1))
  {
  }

  lemma StreamAppended(out: seq<u8>, block: seq<u8>, p: nat, codec: nat, ext: Decoder)
    requires p + 4 <= |out| && 0 < |block| < 0x8000_0000
    ensures StreamAt(Appended(out, block, p), |out|, block, codec, ext)
  {
    hide StreamAt, Le;
    StoredStream(Patched(out, p, |out|), block, codec, ext);
  }

  lemma {:induction false} BuiltWritten(s: Settings, x: seq<u8>, j: nat, ext: Decoder)
    requires j <= BlocksFor(|x|, s.BlockSize(|x|))
    ensures Written(Built(s, x, j), s, x, j, HEADER + 4 * BlocksFor(|x|, s.BlockSize(|x|)), ext)
  {
    hide Written, BlockOf, Settings.Filtered, Settings.BlockSize, StreamAt, BlocksFor, Built, Appended, FrameStart;
    if j == 0 {
      BuiltNothing(s, x);
      NothingWritten(s, x, ext);
    } else {
      var block := s.Filtered(BlockOf(x, s.BlockSize(|x|), j - 1));
      BuiltWritten(s, x, j - 1, ext);
      BuiltStep(s, x, j);
      StreamAppended(Built(s, x, j - 1), block, HEADER + 4 * (j - 1), s.codec as int % 8, ext);
      WriteOne(Built(s, x, j - 1), block, s, x, j - 1, HEADER + 4 * BlocksFor(|x|, s.BlockSize(|x|)), ext);
    }
  }

  lemma BuiltNothing(s: Settings, x: seq<u8>)
    ensures Built(s, x, 0) == FrameStart(s, |x|, s.BlockSize(|x|), BlocksFor(|x|, s.BlockSize(|x|)))
  {
  }

  lemma StoredIsFrame(s: Settings, x: seq<u8>, ext: Decoder)
    ensures HasHeader(StoredFrame(s, x), s, x)
    ensures LastStart(s, |x|) < TWO_32 ==> IsFrame(StoredFrame(s, x), s, x, ext)
  {
    hide Written, Built, HasHeader, IsFrame, LastStart;
    BuiltWritten(s, x, BlocksFor(|x|, s.BlockSize(|x|)), ext);
    LengthWritten(Built(s, x, BlocksFor(|x|, s.BlockSize(|x|))), s, x, HEADER + 4 * BlocksFor(|x|, s.BlockSize(|x|)), ext);
  }

  // ----- two data that differ in the last block only

  lemma {:induction false} BuiltLength(s: Settings, x: seq<u8>, j: nat)
    requires j < BlocksFor(|x|, s.BlockSize(|x|))
    ensures |Built(s, x, j)| == HEADER + 4 * BlocksFor(|x|, s.BlockSize(|x|)) + Times(j, s.BlockSize(|x|) + 4)
  {
    hide BlocksFor, FrameStart, Settings.BlockSize, BlockOf, Settings.Filtered, Built, Appended;
    if j == 0 {
      BuiltNothing(s, x);
    } else {
      BuiltLength(s, x, j - 1);
      WholeBlock(x, s.BlockSize(|x|), j - 1);
      BuiltStep(s, x, j);
      NewField(Built(s, x, j - 1), s.Filtered(BlockOf(x, s.BlockSize(|x|), j - 1)), HEADER + 4 * (j - 1));
    }
  }

  /** All blocks but the last are full. */
  lemma WholeBlock(x: seq<u8>, bs: nat, j: nat)
    requires bs > 0 && j + 1 < BlocksFor(|x|, bs)
    ensures Times(j, bs) + bs == Times(j + 1, bs) < |x|
    ensures BlockOf(x, bs, j) == x[Times(j, bs)..Times(j + 1, bs)]
  {
    hide BlocksFor;
    BlockBounds(|x|, bs, j + 1);
  }

  lemma {:induction false} BuiltSame(s: Settings, x: seq<u8>, y: seq<u8>, j: nat)
    requires |x| == |y| && j < BlocksFor(|x|, s.BlockSize(|x|)) && Times(j, s.BlockSize(|x|)) <= |x|
    requires x[..Times(j, s.BlockSize(|x|))] == y[..Times(j, s.BlockSize(|x|))]
    ensures Built(s, x, j) == Built(s, y, j)
  {
    hide BlocksFor, FrameStart, Settings.BlockSize, BlockOf, Settings.Filtered, Appended;
    if j > 0 {
      var bs := s.BlockSize(|x|);
      WholeBlock(x, bs, j - 1);
      WholeBlock(y, bs, j - 1);
      SamePrefix(x, y, Times(j - 1, bs), Times(j, bs));
      BuiltSame(s, x, y, j - 1);
    }
  }

  lemma SamePrefix(x: seq<u8>, y: seq<u8>, a: nat, b: nat)
    requires a <= b <= |x| == |y| && x[..b] == y[..b]
    ensures x[..a] == y[..a] && x[a..b] == y[a..b]
  {
    assert x[..b][..a] == x[..a] && y[..b][..a] == y[..a];
    assert x[..b][a..b] == x[a..b] && y[..b][a..b] == y[a..b];
  }

  /** A finished frame up to its last stream. */
  lemma FramePrefix(out: seq<u8>, payload: seq<u8>, p: nat)
    requires 16 <= p && p + 4 <= |out|
    ensures var a := Appended(out, payload, p); var c := Patched(a, 12, |a|);
            && |c| == |out| + 4 + |payload| && Raw(c, p) == |out| % TWO_32
            && c[..|out|] == Patched(Patched(out, p, |out|), 12, |out| + 4 + |payload|)
  {
    hide Raw, Le;
    var a := Appended(out, payload, p);
    var c := Patched(a, 12, |a|);
    NewField(out, payload, p);
    PatchedSlice(a, 12, |a|, p, p + 4);
    SameRaw(a, c, p);
    PrefixOfPatched(a, |out|, |a|);
    Seqs.Assoc(Patched(out, p, |out|), Le(|payload|, 4), payload);
    Seqs.DropAppended(Patched(out, p, |out|), Le(|payload|, 4) + payload);
  }

  lemma SameRaw(a: seq<u8>, c: seq<u8>, p: nat)
    requires p + 4 <= |a| && p + 4 <= |c| && a[p..p + 4] == c[p..p + 4]
    ensures Raw(a, p) == Raw(c, p)
  {
  }

  lemma PrefixOfPatched(a: seq<u8>, m: nat, v: nat)
    requires 16 <= m <= |a|
    ensures Patched(a, 12, v)[..m] == Patched(a[..m], 12, v)
  {
    hide Le;
  }

  lemma SameStream(c: seq<u8>, d: seq<u8>, m: nat, off: nat, n: nat, codec: nat, ext: Decoder)
    requires m <= |c| && m <= |d| && c[..m] == d[..m] && off + 4 + 0x8000_0000 <= m
    ensures ReadStream(c, off, n, codec, ext) == ReadStream(d, off, n, codec, ext)
  {
    hide Plain, Raw;
    Between(c, d, m, off, off + 4);
    SameRaw(c, d, off);
    var csize := Raw(c, off);
    if csize < 0x8000_0000 {
      Between(c, d, m, off + 4, off + 4 + csize);
    }
  }

  lemma Between(c: seq<u8>, d: seq<u8>, m: nat, a: nat, b: nat)
    requires m <= |c| && m <= |d| && c[..m] == d[..m] && a <= b <= m
    ensures c[a..b] == d[a..b]
  {
    assert c[..m][a..b] == c[a..b] && d[..m][a..b] == d[a..b];
  }

  /** A block is read from the bytes behind its start only, so frames that agree there give the same block. */
  lemma SameBlock(c: seq<u8>, d: seq<u8>, m: nat, start: nat, bsize: nat, h: Header, ext: Decoder)
    requires m <= |c| && m <= |d| && c[..m] == d[..m] && start + 4 + 0x8000_0000 <= m
    requires h.blocksize >= 1 && (h.shuffle || h.bitshuffle ==> h.typesize >= 1) && !h.split
    ensures ReadBlock(c, start, bsize, h, ext) == ReadBlock(d, start, bsize, h, ext)
  {
    hide ReadStream, Unfiltered;
    DivUnique(bsize, 1, bsize, 0);
    SameStream(c, d, m, start, bsize, h.codec, ext);
    OneOnly(c, start, bsize, h.codec, ext);
    OneOnly(d, start, bsize, h.codec, ext);
  }

  lemma OneOnly(c: seq<u8>, start: nat, n: nat, codec: nat, ext: Decoder)
    ensures ReadStreams(c, start, 1, n, codec, ext) ==
            match ReadStream(c, start, n, codec, ext) { case Failure(e) => Failure(e) case Success((p, _)) => Success(p) }
  {
    hide ReadStream;
    var r := ReadStream(c, start, n, codec, ext);
    if r.Success? {
      assert ReadStreams(c, r.value.1, 0, n, codec, ext) == Success([]);
      Seqs.Empty(r.value.0);
    }
  }

  /** A successful reading, one block on. */
  lemma NextRead(c: seq<u8>, j: nat, left: nat, h: Header, ext: Decoder)
    requires h.blocksize >= 1 && (h.shuffle || h.bitshuffle ==> h.typesize >= 1)
    requires HEADER + 4 * (j + BlocksFor(left, h.blocksize)) <= |c| && left > 0
    requires ReadBlocks(c, j, left, h, ext).Success?
    ensures var y := ReadBlocks(c, j, left, h, ext).value; var start := Raw(c, HEADER + 4 * j);
            if left <= h.blocksize then ReadBlock(c, start, left, h, ext) == Success(y)
            else
              && HEADER + 4 * (j + 1 + BlocksFor(left - h.blocksize, h.blocksize)) <= |c|
              && ReadBlocks(c, j + 1, left - h.blocksize, h, ext).Success?
              && |y| >= h.blocksize && y[h.blocksize..] == ReadBlocks(c, j + 1, left - h.blocksize, h, ext).value
  {
    hide ReadBlock, Raw;
    var block := ReadBlock(c, Raw(c, HEADER + 4 * j), Min(h.blocksize, left), h, ext).value;
    if left <= h.blocksize {
      Seqs.Empty(block);
    } else {
      Seqs.DropAppended(block, ReadBlocks(c, j + 1, left - h.blocksize, h, ext).value);
    }
  }

  /** Where the last of the blocks of n bytes begins. */
  function LastOffset(n: nat, bs: nat): (at: nat)
    requires bs > 0 && n > 0
    ensures at < n && BlocksFor(n, bs) > 0
  {
    BlocksPositive(n, bs);
    BlockBounds(n, bs, BlocksFor(n, bs) - 1);
    Times(BlocksFor(n, bs) - 1, bs)
  }

  lemma FewerBlocks(left: nat, bs: nat)
    requires bs > 0 && left > 0
    ensures left <= bs ==> LastOffset(left, bs) == 0 && BlocksFor(left, bs) == 1
    ensures left > bs ==> BlocksFor(left, bs) == BlocksFor(left - bs, bs) + 1
    ensures left > bs ==> LastOffset(left, bs) == LastOffset(left - bs, bs) + bs
  {
  }

  /** What a successful reading says about the last block. */
  lemma {:induction false} LastBlockRead(c: seq<u8>, j: nat, left: nat, h: Header, ext: Decoder)
    requires h.blocksize >= 1 && (h.shuffle || h.bitshuffle ==> h.typesize >= 1)
    requires HEADER + 4 * (j + BlocksFor(left, h.blocksize)) <= |c| && left > 0
    requires ReadBlocks(c, j, left, h, ext).Success?
    ensures var at, y := LastOffset(left, h.blocksize), ReadBlocks(c, j, left, h, ext).value;
            && |y| == left
            && ReadBlock(c, Raw(c, HEADER + 4 * (j + BlocksFor(left, h.blocksize) - 1)), left - at, h, ext) == Success(y[at..])
    decreases left
  {
    hide ReadBlock, ReadBlocks, BlocksFor, LastOffset, Raw;
    var y := ReadBlocks(c, j, left, h, ext).value;
    FewerBlocks(left, h.blocksize);
    NextRead(c, j, left, h, ext);
    if left <= h.blocksize {
      BlocksLength(c, j, left, h, ext);
      assert y[0..] == y;
    } else {
      LastBlockRead(c, j + 1, left - h.blocksize, h, ext);
      DropDrop(y, h.blocksize, LastOffset(left - h.blocksize, h.blocksize));
    }
  }

  lemma DropDrop(y: seq<u8>, a: nat, b: nat)
    requires a + b <= |y|
    ensures y[a..][b..] == y[a + b..]
  {
  }

  /** The header of a stored frame, as it is read. */
  lemma StoredHeader(s: Settings, x: seq<u8>, ext: Decoder)
    requires 0 < |x| < TWO_32 && Decompress(StoredFrame(s, x), ext) == Success(x)
    ensures var c := StoredFrame(s, x); var bs := s.BlockSize(|x|);
            && |c| >= HEADER && HeaderOf(c) == Header(s.codec as int % 8, s.Size(), |x|, bs, s.Shuffles(), s.Bitshuffles(), false)
            && HEADER + 4 * BlocksFor(|x|, bs) <= |c| && ReadBlocks(c, 0, |x|, HeaderOf(c), ext) == Success(x)
  {
    hide StoredFrame, ReadBlocks, HasHeader, HeaderOf;
    var c := StoredFrame(s, x);
    StoredIsFrame(s, x, ext);
    assert |c| >= HEADER by {
      HasHeaderLong(c, s, x);
    }
    HeaderRead(c, s, x);
    FlagBits(s);
    DivUnique(|x|, TWO_32, 0, |x|);
  }

  lemma HasHeaderLong(c: seq<u8>, s: Settings, x: seq<u8>)
    requires HasHeader(c, s, x)
    ensures |c| >= HEADER
  {
  }

  /** Where the last block begins in the data. */
  function LastAt(s: Settings, n: nat): (at: nat)
    requires n > 0
    ensures at < n
  {
    LastOffset(n, s.BlockSize(n))
  }

  /** When the last start is cut to 32 bits, the last block is read from bytes that do not depend on it:
      of two data that differ there only, one is lost. */
  lemma OneOfTwoFails(s: Settings, x: seq<u8>, y: seq<u8>, ext: Decoder)
    requires 0 < |x| == |y| < TWO_32 <= LastStart(s, |x|) && x != y
    requires x[..LastAt(s, |x|)] == y[..LastAt(s, |x|)]
    ensures !(Decompress(StoredFrame(s, x), ext) == Success(x) && Decompress(StoredFrame(s, y), ext) == Success(y))
  {
    hide Decompress, StoredFrame, LastAt, LastStart;
    if Decompress(StoredFrame(s, x), ext) == Success(x) && Decompress(StoredFrame(s, y), ext) == Success(y) {
      StoredTail(s, x, ext);
      StoredTail(s, y, ext);
      SamePlace(s, x, y, ext);
      Seqs.SplitAt(x, LastAt(s, |x|));
      Seqs.SplitAt(y, LastAt(s, |x|));
    }
  }

  function StoredHeaderOf(s: Settings, n: nat): (h: Header)
    ensures h.blocksize >= 1 && (h.shuffle || h.bitshuffle ==> h.typesize >= 1) && !h.split
  {
    Header(s.codec as int % 8, s.Size(), n, s.BlockSize(n), s.Shuffles(), s.Bitshuffles(), false)
  }

  /** Of a frame that is restored, the last block was read from where its start table points. */
  lemma StoredTail(s: Settings, x: seq<u8>, ext: Decoder)
    requires 0 < |x| < TWO_32 && Decompress(StoredFrame(s, x), ext) == Success(x)
    ensures var at := LastAt(s, |x|);
            ReadBlock(StoredFrame(s, x), LastStart(s, |x|) % TWO_32, |x| - at, StoredHeaderOf(s, |x|), ext) == Success(x[at..])
  {
    hide Decompress, Built, Settings.BlockSize, BlocksFor, ReadBlocks, ReadBlock, Appended, Patched, HeaderOf, BlockOf, Settings.Filtered,
         StoredFrame, Raw, LastStart;
    StoredHeader(s, x, ext);
    StoredSplit(s, x);
    LastBlockRead(StoredFrame(s, x), 0, |x|, StoredHeaderOf(s, |x|), ext);
  }

  lemma SamePlace(s: Settings, x: seq<u8>, y: seq<u8>, ext: Decoder)
    requires 0 < |x| == |y| && TWO_32 <= LastStart(s, |x|)
    requires x[..LastAt(s, |x|)] == y[..LastAt(s, |x|)]
    ensures var h, m, n := StoredHeaderOf(s, |x|), LastStart(s, |x|) % TWO_32, |x| - LastAt(s, |x|);
            ReadBlock(StoredFrame(s, x), m, n, h, ext) == ReadBlock(StoredFrame(s, y), m, n, h, ext)
  {
    hide Built, Settings.BlockSize, BlocksFor, ReadBlock, Appended, Patched, BlockOf, Settings.Filtered, StoredFrame, Raw, LastStart;
    StoredSplit(s, x);
    StoredSplit(s, y);
    BuiltSame(s, x, y, BlocksFor(|x|, s.BlockSize(|x|)) - 1);
    Wrapped(LastStart(s, |x|));
    SameBlock(StoredFrame(s, x), StoredFrame(s, y), LastStart(s, |x|), LastStart(s, |x|) % TWO_32, |x| - LastAt(s, |x|),
              StoredHeaderOf(s, |x|), ext);
  }

  lemma Wrapped(m: nat)
    requires m >= TWO_32
    ensures m % TWO_32 + 4 + 0x8000_0000 <= m
  {
  }

  /** A stored frame by its last stream. */
  lemma StoredSplit(s: Settings, x: seq<u8>)
    requires x != []
    ensures var b := BlocksFor(|x|, s.BlockSize(|x|)); var c := StoredFrame(s, x);
            && b > 0 && |Built(s, x, b - 1)| == LastStart(s, |x|) <= |c| && HEADER + 4 * b <= |c|
            && Raw(c, HEADER + 4 * (b - 1)) == LastStart(s, |x|) % TWO_32
            && c[..LastStart(s, |x|)] == Patched(Patched(Built(s, x, b - 1), HEADER + 4 * (b - 1), LastStart(s, |x|)), 12,
                                                 LastStart(s, |x|) + 4 + |x| - Times(b - 1, s.BlockSize(|x|)))
  {
    hide Settings.BlockSize, BlocksFor, BlockOf, Settings.Filtered, Appended, Patched, FrameStart, Raw;
    var bs := s.BlockSize(|x|);
    var b := BlocksFor(|x|, bs);
    BlocksPositive(|x|, bs);
    BlockBounds(|x|, bs, b - 1);
    BuiltLength(s, x, b - 1);
    FramePrefix(Built(s, x, b - 1), s.Filtered(BlockOf(x, bs, b - 1)), HEADER + 4 * (b - 1));
    LastBlockLength(|x|, bs);
  }

  lemma BlocksPositive(n: nat, b: nat)
    requires b > 0 && n > 0
    ensures BlocksFor(n, b) > 0
  {
  }

  lemma LastBlockLength(n: nat, bs: nat)
    requires bs > 0 && n > 0
    ensures BlocksFor(n, bs) > 0 && 0 < n - Times(BlocksFor(n, bs) - 1, bs) <= bs
  {
    BlocksPositive(n, bs);
    BlockBounds(n, bs, BlocksFor(n, bs) - 1);
  }

  // ----- data of any length that no block of shrinks

  /** Bytes in which no three in a row occur twice: groups of three digits, the first marked. */
  function Digit(v: nat, p: nat): (d: u8)
    requires v <= 1 && p < 0x4_0000
    ensures d >= 128 <==> p % 3 == 0
    ensures p == 0 ==> d == 128 + 64 * v
  {
    var q := p / 3;
    if p % 3 == 0 then 128 + 64 * v + q / 16384 else if p % 3 == 1 then q % 128 else q / 128 % 128
  }

  function Varied(v: nat, n: nat): (s: seq<u8>)
    requires v <= 1 && n <= 0x4_0000
    ensures |s| == n
  {
    seq(n, p requires 0 <= p < n => Digit(v, p))
  }

  /** The low two digits of a group number. */
  function LowDigits(q: nat): (m: nat)
    ensures m < 16384
  {
    q / 128 % 128 * 128 + q % 128
  }

  lemma GroupDigits(q: nat)
    ensures q == 16384 * (q / 16384) + LowDigits(q)
    ensures (q + 1) / 16384 == q / 16384 + if LowDigits(q) == 16383 then 1 else 0
  {
    var h := q / 128;
    assert h == 128 * (h / 128) + h % 128 && h / 128 == q / 16384;
  }

  lemma GroupNumber(q: nat, r: nat)
    requires q % 128 == r % 128 && q / 128 % 128 == r / 128 % 128
    requires q / 16384 == r / 16384 || (q + 1) / 16384 == (r + 1) / 16384
    ensures q == r
  {
    assert LowDigits(q) == LowDigits(r);
    hide LowDigits;
    GroupDigits(q);
    GroupDigits(r);
  }

  lemma NextDigit(q: nat, r: nat)
    requires (q + 1) % 128 == (r + 1) % 128
    ensures q % 128 == r % 128
  {
  }

  lemma DigitOf(v: nat, q: nat, k: nat)
    requires v <= 1 && k < 3 && 3 * q + k < 0x4_0000
    ensures Digit(v, 3 * q + k) == if k == 0 then 128 + 64 * v + q / 16384 else if k == 1 then q % 128 else q / 128 % 128
  {
    assert (3 * q + k) / 3 == q && (3 * q + k) % 3 == k;
  }

  lemma GroupsDiffer(v: nat, q: nat, r: nat, k: nat)
    requires v <= 1 && k < 3 && q < r && 3 * r + k + 3 <= 0x4_0000
    ensures !(Digit(v, 3 * q + k) == Digit(v, 3 * r + k) && Digit(v, 3 * q + k + 1) == Digit(v, 3 * r + k + 1)
              && Digit(v, 3 * q + k + 2) == Digit(v, 3 * r + k + 2))
  {
    hide Digit;
    DigitOf(v, q, k);
    DigitOf(v, r, k);
    if k == 0 {
      DigitOf(v, q, 1);
      DigitOf(v, r, 1);
      DigitOf(v, q, 2);
      DigitOf(v, r, 2);
    } else if k == 1 {
      DigitOf(v, q, 2);
      DigitOf(v, r, 2);
      DigitOf(v, q + 1, 0);
      DigitOf(v, r + 1, 0);
    } else {
      DigitOf(v, q + 1, 0);
      DigitOf(v, r + 1, 0);
      DigitOf(v, q + 1, 1);
      DigitOf(v, r + 1, 1);
    }
    DifferentGroups(q, r);
  }

  lemma DifferentGroups(q: nat, r: nat)
    requires q < r
    ensures q % 128 != r % 128 || q / 128 % 128 != r / 128 % 128 || q / 16384 != r / 16384
    ensures q % 128 != r % 128 || q / 128 % 128 != r / 128 % 128 || (q + 1) / 16384 != (r + 1) / 16384
    ensures (q + 1) % 128 != (r + 1) % 128 || q / 128 % 128 != r / 128 % 128 || (q + 1) / 16384 != (r + 1) / 16384
  {
    if (q + 1) % 128 == (r + 1) % 128 {
      NextDigit(q, r);
    }
    if q % 128 == r % 128 && q / 128 % 128 == r / 128 % 128 {
      if q / 16384 == r / 16384 || (q + 1) / 16384 == (r + 1) / 16384 {
        GroupNumber(q, r);
      }
    }
  }

  lemma TriplesDiffer(v: nat, i: nat, j: nat)
    requires v <= 1 && i < j && j + 3 <= 0x4_0000
    ensures !(Digit(v, i) == Digit(v, j) && Digit(v, i + 1) == Digit(v, j + 1) && Digit(v, i + 2) == Digit(v, j + 2))
  {
    hide Digit;
    var q, r, k := i / 3, j / 3, i % 3;
    if j % 3 == k {
      assert i == 3 * q + k && j == 3 * r + k;
      GroupsDiffer(v, q, r, k);
    } else {
      Marks(v, i);
      Marks(v, j);
    }
  }

  /** Which of three digits in a row is marked. */
  lemma Marks(v: nat, i: nat)
    requires v <= 1 && i + 3 <= 0x4_0000
    ensures Digit(v, i) >= 128 <==> i % 3 == 0
    ensures Digit(v, i + 1) >= 128 <==> i % 3 == 2
    ensures Digit(v, i + 2) >= 128 <==> i % 3 == 1
  {
    hide Digit;
  }

  lemma VariedUnrepeating(v: nat, n: nat)
    requires v <= 1 && n <= 0x4_0000
    ensures Blosclz.Unrepeating(Varied(v, n))
  {
    hide Digit;
    var s := Varied(v, n);
    forall i, j | 0 <= i < j && j + 3 <= n ensures !Lz.SameTriple(s, i, j) {
      TriplesDiffer(v, i, j);
    }
  }

  /** The block that the filter turns into t. */
  function Undone(s: Settings, t: seq<u8>): (b: seq<u8>)
    ensures |b| == |t|
  {
    if s.Shuffles() then Shuffle.Unshuffled(s.Size(), t)
    else if s.Bitshuffles() then BitshuffleBlock.Bitunshuffled(s.Size(), t)
    else t
  }

  lemma FilteredOfUndone(s: Settings, t: seq<u8>)
    ensures s.Filtered(Undone(s, t)) == t
  {
    hide Shuffle.Shuffled, Shuffle.Unshuffled, BitshuffleBlock.Bitshuffled, BitshuffleBlock.Bitunshuffled;
    Shuffle.ShuffleOfUnshuffle(s.Size(), t);
    BitshuffleBlock.ShuffleOfUnshuffle(s.Size(), t);
  }

  function Repeated(block: seq<u8>, k: nat): (x: seq<u8>)
    ensures |x| == Times(k, |block|)
  {
    if k == 0 then [] else Repeated(block, k - 1) + block
  }

  lemma {:induction false} RepeatedAt(block: seq<u8>, k: nat, rest: seq<u8>, j: nat)
    requires j < k
    ensures Times(j, |block|) + |block| <= Times(k, |block|)
    ensures (Repeated(block, k) + rest)[Times(j, |block|)..Times(j, |block|) + |block|] == block
  {
    if j == k - 1 {
      Middle(Repeated(block, k - 1), block, rest);
    } else {
      RepeatedAt(block, k - 1, block + rest, j);
      Seqs.Assoc(Repeated(block, k - 1), block, rest);
    }
  }

  lemma Middle(a: seq<u8>, b: seq<u8>, c: seq<u8>)
    ensures (a + b + c)[|a|..|a| + |b|] == b
  {
  }

  /** n bytes whose filtered blocks are varied; v appears in the last block only. */
  function Sample(s: Settings, n: nat, v: nat): (x: seq<u8>)
    requires v <= 1 && n > 0
    ensures |x| == n
  {
    var bs := s.BlockSize(n);
    LastBlockLength(n, bs);
    var b := BlocksFor(n, bs);
    Repeated(Undone(s, Varied(0, bs)), b - 1) + Undone(s, Varied(v, n - Times(b - 1, bs)))
  }

  lemma SampleBlock(s: Settings, n: nat, v: nat, j: nat)
    requires v <= 1 && n > 0 && j < BlocksFor(n, s.BlockSize(n))
    ensures exists w: nat, len: nat :: w <= 1 && len <= 0x4_0000 && s.Filtered(BlockOf(Sample(s, n, v), s.BlockSize(n), j)) == Varied(w, len)
  {
    hide Settings.BlockSize, BlocksFor, Settings.Filtered, Undone, Varied, Times;
    var bs := s.BlockSize(n);
    var b, x := BlocksFor(n, bs), Sample(s, n, v);
    LastBlockLength(n, bs);
    var block, last := Undone(s, Varied(0, bs)), Undone(s, Varied(v, n - Times(b - 1, bs)));
    FilteredOfUndone(s, Varied(0, bs));
    FilteredOfUndone(s, Varied(v, n - Times(b - 1, bs)));
    if j < b - 1 {
      WholeBlock(x, bs, j);
      RepeatedAt(block, b - 1, last, j);
    } else {
      Seqs.DropAppended(Repeated(block, b - 1), last);
      assert BlockOf(x, bs, j) == last;
    }
  }

  lemma SampleUnshortened(s: Settings, n: nat, v: nat, enc: Encoder)
    requires v <= 1 && n > 0 && (s.codec == BLOSCLZ || s.codec > ZLIB)
    ensures AllUnshortened(s, Sample(s, n, v), enc)
  {
    hide Settings.BlockSize, BlocksFor, Settings.Filtered, Sample, Varied, BlockOf, Blosclz.Unrepeating;
    var x, bs := Sample(s, n, v), s.BlockSize(n);
    forall j | 0 <= j < BlocksFor(n, bs) ensures Unshortened(s, s.Filtered(BlockOf(x, bs, j)), enc) {
      SampleBlock(s, n, v, j);
      var w: nat, len: nat :| w <= 1 && len <= 0x4_0000 && s.Filtered(BlockOf(x, bs, j)) == Varied(w, len);
      VariedUnrepeating(w, len);
    }
  }

  lemma SamplesDiffer(s: Settings, n: nat)
    requires n > 0
    ensures Sample(s, n, 0) != Sample(s, n, 1)
    ensures Sample(s, n, 0)[..LastAt(s, n)] == Sample(s, n, 1)[..LastAt(s, n)]
  {
    hide Settings.BlockSize, BlocksFor, Undone, Varied, Times, Settings.Filtered;
    var bs := s.BlockSize(n);
    LastBlockLength(n, bs);
    var front, len := Repeated(Undone(s, Varied(0, bs)), BlocksFor(n, bs) - 1), n - LastAt(s, n);
    var last0, last1 := Undone(s, Varied(0, len)), Undone(s, Varied(1, len));
    FilteredOfUndone(s, Varied(0, len));
    FilteredOfUndone(s, Varied(1, len));
    VariedDiffer(len);
    Seqs.DropAppended(front, last0);
    Seqs.DropAppended(front, last1);
  }

  lemma VariedDiffer(n: nat)
    requires 0 < n <= 0x4_0000
    ensures Varied(0, n) != Varied(1, n)
  {
    hide Digit;
    assert Varied(0, n)[0] != Varied(1, n)[0];
  }

  // ----- the condition

  ghost predicate ComesBack(s: Settings, x: seq<u8>, ext: Decoder) {
    Decompress(StoredFrame(s, x), ext) == Success(x)
  }

  lemma StoredComesBack(s: Settings, x: seq<u8>, ext: Decoder)
    requires FitsFrame(s, |x|)
    ensures ComesBack(s, x, ext)
  {
    hide StoredFrame, IsFrame, LastStart, Decompress;
    StoredIsFrame(s, x, ext);
    DecompressOfFrame(StoredFrame(s, x), s, x, ext);
  }

  /** For every amount of data that does not fit there is data of that size whose frame is lost. */
  lemma LostFrame(s: Settings, n: nat, enc: Encoder, ext: Decoder) returns (x: seq<u8>)
    requires !FitsFrame(s, n) && (s.codec == BLOSCLZ || s.codec > ZLIB)
    ensures |x| == n && AllUnshortened(s, x, enc) && !ComesBack(s, x, ext)
  {
    hide Sample, StoredFrame, AllUnshortened, LastStart, LastAt, HasHeader, Decompress;
    EmptyFits(s);
    var y := Sample(s, n, 1);
    x := Sample(s, n, 0);
    SampleUnshortened(s, n, 0, enc);
    SampleUnshortened(s, n, 1, enc);
    StoredIsFrame(s, x, ext);
    SamplesDiffer(s, n);
    if n >= TWO_32 {
      TooLargeForFrame(StoredFrame(s, x), s, x, ext);
    } else {
      OneOfTwoFails(s, x, y, ext);
      if ComesBack(s, x, ext) {
        x := y;
      }
    }
  }

  lemma EmptyFits(s: Settings)
    ensures FitsFrame(s, 0)
  {
  }

  /** With blosclz, and with the codecs that store every block, all data of a size come back if and only
      if the size and the last start fit their fields. */
  lemma FramesExactly(s: Settings, n: nat, enc: Encoder, ext: Decoder)
    requires s.codec == BLOSCLZ || s.codec > ZLIB
    ensures FitsFrame(s, n) <==> forall x :: |x| == n && AllUnshortened(s, x, enc) ==> ComesBack(s, x, ext)
  {
    hide FitsFrame, AllUnshortened, ComesBack;
    if FitsFrame(s, n) {
      forall x: seq<u8> | |x| == n ensures ComesBack(s, x, ext) {
        StoredComesBack(s, x, ext);
      }
    } else {
      var x := LostFrame(s, n, enc, ext);
    }
  }

  /** For element sizes that divide 256 KiB only the size of the data counts. */
  lemma WholeBlocksFit(s: Settings, n: nat)
    requires 0x4_0000 % s.Size() == 0
    ensures FitsFrame(s, n) <==> n < TWO_32
  {
    if n < TWO_32 {
      var bs := s.BlockSize(n);
      var b := BlocksFor(n, bs);
      hide BlocksFor;
      TimesIsProduct(b, bs);
      if b > 0 {
        TimesIsProduct(b - 1, bs + 4);
        if n >= 0x4_0000 {
          assert bs == 0x4_0000;
        } else {
          FewBlocks(s, n);
        }
      }
    }
  }

  lemma FewBlocks(s: Settings, n: nat)
    requires n < 0x4_0000
    ensures BlocksFor(n, s.BlockSize(n)) <= 2
  {
    var bs := s.BlockSize(n);
    assert n <= 2 * bs by {
      if 0 < n && n % s.Size() != 0 {
        DivisionFacts(n, s.Size());
      }
    }
    if n > bs {
      assert n - bs <= bs;
    }
  }

  // ----- an example

  lemma {:induction false} FirstBlockStays(s: Settings, x: seq<u8>, j: nat, a: nat, b: nat)
    requires 1 <= j <= BlocksFor(|x|, s.BlockSize(|x|))
    requires HEADER + 4 * BlocksFor(|x|, s.BlockSize(|x|)) <= a <= b <= |Built(s, x, 1)|
    ensures |Built(s, x, j)| >= b && Built(s, x, j)[a..b] == Built(s, x, 1)[a..b]
  {
    hide BlocksFor, BlockOf, Settings.Filtered, Settings.BlockSize, Appended, Built;
    if j > 1 {
      FirstBlockStays(s, x, j - 1, a, b);
      BuiltStep(s, x, j);
      KeptSlice(Built(s, x, j - 1), s.Filtered(BlockOf(x, s.BlockSize(|x|), j - 1)), HEADER + 4 * (j - 1), a, b);
    }
  }

  /** The size field of the last stream of this frame is read from inside the first block. */
  const EXAMPLE := Settings(4, 0, 3)

  lemma ExampleStarts()
    ensures var n := TWO_32 - 1; var bs := EXAMPLE.BlockSize(n);
            && bs == 262143 && BlocksFor(n, bs) == 16385 && LastStart(EXAMPLE, n) == 4295082004
  {
    var n, bs, b := TWO_32 - 1, 262143, 16385;
    assert EXAMPLE.BlockSize(n) == bs;
    TimesIsProduct(b, bs);
    TimesIsProduct(b - 1, bs);
    TimesIsProduct(b - 1, bs + 4);
    BlocksUnique(n, bs, b);
  }

  lemma FirstStream(s: Settings, x: seq<u8>)
    requires x != []
    ensures var lo := HEADER + 4 * BlocksFor(|x|, s.BlockSize(|x|)); var block := s.Filtered(BlockOf(x, s.BlockSize(|x|), 0));
            |Built(s, x, 1)| == lo + 4 + |block| && Built(s, x, 1)[lo + 4..] == block
  {
    hide BlocksFor, BlockOf, Settings.Filtered, Settings.BlockSize, FrameStart, Le;
    BlocksPositive(|x|, s.BlockSize(|x|));
    BuiltStep(s, x, 1);
    var out := Patched(Built(s, x, 0), HEADER, |Built(s, x, 0)|);
    var block := s.Filtered(BlockOf(x, s.BlockSize(|x|), 0));
    Seqs.DropAppended(out + Le(|block|, 4), block);
  }

  /** 2^32 - 1 bytes of 255 in elements of three bytes: the last start is cut to a position among them. */
  lemma ExampleLost(x: seq<u8>, ext: Decoder)
    requires |x| == TWO_32 - 1 && forall p :: 0 <= p < |x| ==> x[p] == 255
    ensures Decompress(StoredFrame(EXAMPLE, x), ext) != Success(x)
  {
    hide Decompress, StoredFrame, LastStart, Raw;
    ExampleStarts();
    ExampleSize(x);
    if Decompress(StoredFrame(EXAMPLE, x), ext) == Success(x) {
      SizeNotNegative(EXAMPLE, x, 114708, ext);
    }
  }

  lemma SizeNotNegative(s: Settings, x: seq<u8>, start: nat, ext: Decoder)
    requires 0 < |x| < TWO_32 && Decompress(StoredFrame(s, x), ext) == Success(x)
    requires start == LastStart(s, |x|) % TWO_32 && start + 4 <= |StoredFrame(s, x)|
    ensures Raw(StoredFrame(s, x), start) < 0x8000_0000
  {
    hide Decompress, StoredFrame, LastStart, Raw, ReadBlock, LastAt, StoredHeaderOf;
    StoredTail(s, x, ext);
    if Raw(StoredFrame(s, x), start) >= 0x8000_0000 {
      NegativeSizeFails(StoredFrame(s, x), start, |x| - LastAt(s, |x|), StoredHeaderOf(s, |x|), ext);
    }
  }

  lemma NegativeSizeFails(c: seq<u8>, start: nat, bsize: nat, h: Header, ext: Decoder)
    requires h.blocksize >= 1 && (h.shuffle || h.bitshuffle ==> h.typesize >= 1) && !h.split
    requires start + 4 <= |c| && Raw(c, start) >= 0x8000_0000
    ensures ReadBlock(c, start, bsize, h, ext) == Failure(NegativeSize)
  {
    hide Raw, Unfiltered;
    OneOnly(c, start, bsize, h.codec, ext);
    DivUnique(bsize, 1, bsize, 0);
  }

  lemma ExampleSize(x: seq<u8>)
    requires |x| == TWO_32 - 1 && forall p :: 0 <= p < |x| ==> x[p] == 255
    ensures |StoredFrame(EXAMPLE, x)| >= 114712 && Raw(StoredFrame(EXAMPLE, x), 114708) == 0xFFFF_FFFF
  {
    hide Built, BlocksFor, Settings.BlockSize, FromLe;
    ExampleStarts();
    FirstStream(EXAMPLE, x);
    var out := Built(EXAMPLE, x, 16385);
    FirstBlockStays(EXAMPLE, x, 16385, 114708, 114712);
    PatchedSlice(out, 12, |out|, 114708, 114712);
    var b1 := Built(EXAMPLE, x, 1);
    assert BlockOf(x, 262143, 0) == x[0..262143];
    assert forall k :: 0 <= k < 4 ==> b1[114708..114712][k] == b1[65556 + 4..][49148 + k];
    assert b1[114708..114712] == [255, 255, 255, 255];
    FourOnes();
  }

  lemma FourOnes()
    ensures FromLe([255, 255, 255, 255]) == 0xFFFF_FFFF
  {
    assert [255, 255, 255, 255][1..] == [255, 255, 255] && [255, 255, 255][1..] == [255, 255] && [255, 255][1..] == [255] && [255][1..] == [];
  }
}
