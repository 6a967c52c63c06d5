/** `bitshuffle_block` and `bitunshuffle_block`. */
module BitshuffleBlock {
  import opened Bytes
  import opened Transpose
  import opened Bitshuffle
  import opened ByteBits
  import Seqs
  import Shuffle

  /** Every one of the n groups of 8 bytes, transposed as a bit matrix. */
  function TransWords(a: seq<u8>, n: nat): (c: seq<u8>)
    requires |a| == 8 * n
    ensures |c| == |a|
  {
    if n == 0 then [] else TransWord(a[..8]) + TransWords(a[8..], n - 1)
  }

  lemma {:induction false} TransWordsTwice(a: seq<u8>, n: nat)
    requires |a| == 8 * n
    ensures TransWords(TransWords(a, n), n) == a
  {
    hide TransWord;
    if n > 0 {
      var c, d := TransWord(a[..8]), TransWords(a[8..], n - 1);
      TransWordTwice(a[..8]);
      TransWordsTwice(a[8..], n - 1);
      Seqs.DropAppended(c, d);
      Seqs.SplitAt(a, 8);
    }
  }

  lemma {:induction false} TransWordsAt(a: seq<u8>, n: nat, i: nat)
    requires |a| == 8 * n && i < n
    ensures TransWords(a[..8 * i], i) == TransWords(a, n)[..8 * i]
    ensures TransWords(a, n)[8 * i..8 * i + 8] == TransWord(a[8 * i..8 * i + 8])
    decreases i
  {
    hide TransWord;
    var c, d := TransWord(a[..8]), TransWords(a[8..], n - 1);
    if i == 0 {
      Seqs.DropAppended(c, d);
    } else {
      TransWordsAt(a[8..], n - 1, i - 1);
      Seqs.SliceSlice(a, 8, 8 * i - 8, 8 * i);
      Seqs.SliceSlice(TransWords(a, n), 8, 8 * i - 8, 8 * i);
      Seqs.DropAppended(c, d);
      assert a[..8 * i][..8] == a[..8] && a[..8 * i][8..] == a[8..][..8 * i - 8];
      assert TransWords(a, n)[..8 * i] == c + d[..8 * i - 8];
    }
  }

  // ----- blocks of equal size

  function Blocks(s: seq<u8>, n: nat, blk: nat): (bs: seq<seq<u8>>)
    requires |s| == n * blk
    ensures |bs| == n && Sized(bs, blk)
  {
    if n == 0 then [] else
      OneBlockLess(n, blk);
      Blocks(s[..|s| - blk], n - 1, blk) + [s[|s| - blk..]]
  }

  lemma OneBlockLess(n: nat, blk: nat)
    requires n > 0
    ensures (n - 1) * blk == n * blk - blk && 0 <= (n - 1) * blk
  {
    Distribute(blk, n - 1, 1);
    MulMonotone(blk, 0, n - 1);
  }

  function Concat(bs: seq<seq<u8>>): seq<u8> {
    if bs == [] then [] else Concat(bs[..|bs| - 1]) + bs[|bs| - 1]
  }

  ghost predicate Sized(bs: seq<seq<u8>>, blk: nat) {
    forall i :: 0 <= i < |bs| ==> |bs[i]| == blk
  }

  lemma {:induction false} ConcatLength(bs: seq<seq<u8>>, blk: nat)
    requires Sized(bs, blk)
    ensures |Concat(bs)| == |bs| * blk
  {
    if bs != [] {
      ConcatLength(bs[..|bs| - 1], blk);
      Distribute(blk, |bs| - 1, 1);
    }
  }

  lemma {:induction false} ConcatAt(bs: seq<seq<u8>>, blk: nat, i: nat)
    requires Sized(bs, blk) && i < |bs|
    ensures 0 <= i * blk && i * blk + blk <= |Concat(bs)| && Concat(bs)[i * blk..i * blk + blk] == bs[i]
  {
    var last := |bs| - 1;
    ConcatLength(bs, blk);
    ConcatLength(bs[..last], blk);
    LastCell(|bs|, blk, i);
    if i < last {
      ConcatAt(bs[..last], blk, i);
      Seqs.SliceInto(Concat(bs[..last]), bs[last], i * blk, i * blk + blk);
    } else {
      Seqs.DropAppended(Concat(bs[..last]), bs[last]);
    }
  }

  lemma {:induction false} BlocksOfConcat(bs: seq<seq<u8>>, blk: nat)
    requires Sized(bs, blk)
    ensures |Concat(bs)| == |bs| * blk && Blocks(Concat(bs), |bs|, blk) == bs
  {
    ConcatLength(bs, blk);
    if bs != [] {
      var init, last := bs[..|bs| - 1], bs[|bs| - 1];
      OneBlockLess(|bs|, blk);
      BlocksOfConcat(init, blk);
      Seqs.DropAppended(Concat(init), last);
      Seqs.SplitAt(bs, |bs| - 1);
    }
  }

  lemma {:induction false} ConcatOfBlocks(s: seq<u8>, n: nat, blk: nat)
    requires |s| == n * blk
    ensures Concat(Blocks(s, n, blk)) == s
  {
    if n > 0 {
      OneBlockLess(n, blk);
      ConcatOfBlocks(s[..|s| - blk], n - 1, blk);
      Seqs.DropAppended(Blocks(s[..|s| - blk], n - 1, blk), [s[|s| - blk..]]);
      Seqs.SplitAt(s, |s| - blk);
    } else {
      assert s == [];
    }
  }

  /** Block i starts at byte i * blk. */
  lemma BlockAt(s: seq<u8>, n: nat, blk: nat, i: nat)
    requires |s| == n * blk && i < n
    ensures 0 <= i * blk && i * blk + blk <= |s| && Blocks(s, n, blk)[i] == s[i * blk..i * blk + blk]
  {
    ConcatOfBlocks(s, n, blk);
    ConcatAt(Blocks(s, n, blk), blk, i);
  }

  /** The bytes of 8 * blk elements, counted in the ways the three steps need. */
  lemma Sizes(ts: nat, blk: nat)
    ensures 0 <= blk * ts && 8 * blk * ts == 8 * (blk * ts) && 8 * ts * blk == 8 * (blk * ts)
    ensures blk * ts * 8 == 8 * (blk * ts) && ts * (8 * blk) == 8 * (blk * ts) && ts * 8 * blk == 8 * (blk * ts)
  {
    MulMonotone(blk, 0, ts);
    MulAssociative(8, blk, ts);
    MulAssociative(8, ts, blk);
    assert ts * (8 * blk) == 8 * blk * ts;
  }

  // ----- the transformation of 8 * blk elements

  /** The rows x cols matrix of blocks, transposed. */
  function MovedBlocks(b: seq<u8>, rows: nat, cols: nat, blk: nat): (bs: seq<seq<u8>>)
    requires 0 <= rows * cols && |b| == rows * cols * blk
    ensures |bs| == rows * cols && Sized(bs, blk)
  {
    SizedTransposed(Blocks(b, rows * cols, blk), rows, cols, blk);
    Transposed(Blocks(b, rows * cols, blk), rows, cols)
  }

  lemma SizedTransposed(bs: seq<seq<u8>>, rows: nat, cols: nat, blk: nat)
    requires |bs| == rows * cols && Sized(bs, blk)
    ensures Sized(Transposed(bs, rows, cols), blk)
  {
    forall p | 0 <= p < |bs| ensures |Transposed(bs, rows, cols)[p]| == blk {
      TransposedIndex(rows, cols, p);
    }
  }

  function Moved(b: seq<u8>, rows: nat, cols: nat, blk: nat): (m: seq<u8>)
    requires 0 <= rows * cols && |b| == rows * cols * blk
    ensures |m| == |b|
  {
    ConcatLength(MovedBlocks(b, rows, cols, blk), blk);
    Concat(MovedBlocks(b, rows, cols, blk))
  }

  lemma MovedTwice(b: seq<u8>, rows: nat, cols: nat, blk: nat)
    requires 0 <= rows * cols && |b| == rows * cols * blk
    ensures rows * cols == cols * rows
    ensures Moved(Moved(b, rows, cols, blk), cols, rows, blk) == b
  {
    hide Transposed, Blocks, Concat;
    assert rows * cols == cols * rows;
    var bs := MovedBlocks(b, rows, cols, blk);
    ConcatOfBlocks(b, rows * cols, blk);
    TransposedTwice(Blocks(b, rows * cols, blk), rows, cols);
    BlocksOfConcat(bs, blk);
  }

  function Forward(ts: nat, blk: nat, s: seq<u8>): (t: seq<u8>)
    requires |s| == 8 * (blk * ts)
    ensures |t| == |s|
  {
    Sizes(ts, blk);
    var a := Transposed(s, 8 * blk, ts);
    Moved(Transposed(TransWords(a, blk * ts), blk * ts, 8), 8, ts, blk)
  }

  function Backward(ts: nat, blk: nat, s: seq<u8>): (t: seq<u8>)
    requires |s| == 8 * (blk * ts)
    ensures |t| == |s|
  {
    Sizes(ts, blk);
    var b := Moved(s, ts, 8, blk);
    var a := TransWords(Transposed(b, 8, blk * ts), blk * ts);
    Transposed(a, ts, 8 * blk)
  }

  lemma BackwardOfForward(ts: nat, blk: nat, s: seq<u8>)
    requires |s| == 8 * (blk * ts)
    ensures Backward(ts, blk, Forward(ts, blk, s)) == s
  {
    hide Transposed, TransWords, Moved;
    Sizes(ts, blk);
    var a := Transposed(s, 8 * blk, ts);
    TransposedTwice(s, 8 * blk, ts);
    var c := TransWords(a, blk * ts);
    TransWordsTwice(a, blk * ts);
    var b := Transposed(c, blk * ts, 8);
    TransposedTwice(c, blk * ts, 8);
    MovedTwice(b, 8, ts, blk);
  }

  lemma ForwardOfBackward(ts: nat, blk: nat, s: seq<u8>)
    requires |s| == 8 * (blk * ts)
    ensures Forward(ts, blk, Backward(ts, blk, s)) == s
  {
    hide Transposed, TransWords, Moved;
    Sizes(ts, blk);
    var b := Moved(s, ts, 8, blk);
    MovedTwice(s, ts, 8, blk);
    var c := Transposed(b, 8, blk * ts);
    TransposedTwice(b, 8, blk * ts);
    TransWordsTwice(c, blk * ts);
    TransposedTwice(TransWords(c, blk * ts), ts, 8 * blk);
  }

  /** Only a number of elements that 8 divides is transformed, and bytes past them are kept. */
  function Bitshuffled(ts: nat, data: seq<u8>): (s: seq<u8>)
    requires ts > 0
    ensures |s| == |data|
  {
    var size := |data| / ts;
    if size % 8 != 0 || size == 0 then data
    else
      WholeEighths(|data|, ts);
      var n: nat := size / 8 * ts * 8;
      Forward(ts, size / 8, data[..n]) + data[n..]
  }

  function Bitunshuffled(ts: nat, data: seq<u8>): (s: seq<u8>)
    requires ts > 0
    ensures |s| == |data|
  {
    var size := |data| / ts;
    if size % 8 != 0 || size == 0 then data
    else
      WholeEighths(|data|, ts);
      var n: nat := size / 8 * ts * 8;
      Backward(ts, size / 8, data[..n]) + data[n..]
  }

  lemma WholeEighths(len: nat, ts: nat)
    requires ts > 0 && len / ts % 8 == 0
    ensures var size := len / ts;
            0 <= size / 8 && 0 <= size / 8 * ts && size / 8 * ts * 8 == size * ts <= len && size == 8 * (size / 8)
  {
    DivisionFacts(len, ts);
    Sizes(ts, len / ts / 8);
  }

  /** Bit-unshuffling gives the bytes back, whatever the element size and length. */
  lemma UnshuffleOfShuffle(ts: nat, data: seq<u8>)
    requires ts > 0
    ensures Bitunshuffled(ts, Bitshuffled(ts, data)) == data
  {
    hide Forward, Backward;
    var size := |data| / ts;
    if size % 8 == 0 && size != 0 {
      WholeEighths(|data|, ts);
      var n: nat := size / 8 * ts * 8;
      BackwardOfForward(ts, size / 8, data[..n]);
      Seqs.DropAppended(Forward(ts, size / 8, data[..n]), data[n..]);
      Seqs.SplitAt(data, n);
    }
  }

  /** And bit-shuffling undoes bit-unshuffling: every buffer is a bit-shuffled one. */
  lemma ShuffleOfUnshuffle(ts: nat, data: seq<u8>)
    requires ts > 0
    ensures Bitshuffled(ts, Bitunshuffled(ts, data)) == data
  {
    hide Forward, Backward;
    var size := |data| / ts;
    if size % 8 == 0 && size != 0 {
      WholeEighths(|data|, ts);
      var n: nat := size / 8 * ts * 8;
      ForwardOfBackward(ts, size / 8, data[..n]);
      Seqs.DropAppended(Backward(ts, size / 8, data[..n]), data[n..]);
      Seqs.SplitAt(data, n);
    }
  }

  // ----- where every bit goes

  /** Element e of byte plane j sits in word j * blk + e / 8. */
  lemma WordOfElement(ts: nat, blk: nat, e: nat, j: nat)
    requires e < 8 * blk && j < ts
    ensures 0 <= Cell(j, e / 8, blk) < blk * ts && Cell(j, e, 8 * blk) == 8 * Cell(j, e / 8, blk) + e % 8
  {
    CellBounds(ts, blk, j, e / 8);
    MulAssociative(8, j, blk);
    assert j * (8 * blk) == 8 * j * blk;
  }

  lemma BitInWords(ts: nat, blk: nat, s: seq<u8>, e: nat, j: nat, k: nat)
    requires |s| == 8 * (blk * ts) && e < 8 * blk && j < ts && k < 8
    ensures 0 <= Cell(j, e / 8, blk) < blk * ts && 0 <= Cell(e, j, ts) < |s| && 8 * blk * ts == |s|
    ensures var c := TransWords(Transposed(s, 8 * blk, ts), blk * ts);
            Bit(c[8 * Cell(j, e / 8, blk) + k], e % 8) == Bit(s[Cell(e, j, ts)], k)
  {
    hide TransWords, Transposed, Bit, TransWord, Cell;
    Sizes(ts, blk);
    var a := Transposed(s, 8 * blk, ts);
    MovedCell(s, 8 * blk, ts, e, j);
    WordOfElement(ts, blk, e, j);
    var ii: nat := Cell(j, e / 8, blk);
    TransWordsAt(a, blk * ts, ii);
    TransWordBits(a[8 * ii..8 * ii + 8], e % 8, k);
    OffsetInSlice(TransWords(a, blk * ts), 8 * ii, 8, k);
    OffsetInSlice(a, 8 * ii, 8, e % 8);
  }

  lemma MovedByte(b: seq<u8>, ts: nat, blk: nat, k: nat, j: nat, o: nat)
    requires 0 <= 8 * ts && |b| == 8 * ts * blk && k < 8 && j < ts && o < blk
    ensures 0 <= Cell(k * ts + j, o, blk) < |b| && 0 <= Cell(j * 8 + k, o, blk)
    ensures var moved := Moved(b, 8, ts, blk);
            Cell(j * 8 + k, o, blk) < |moved| && moved[Cell(j * 8 + k, o, blk)] == b[Cell(k * ts + j, o, blk)]
  {
    hide Transposed, Concat, Blocks;
    var bs := MovedBlocks(b, 8, ts, blk);
    TransposedAt(Blocks(b, 8 * ts, blk), 8, ts, k, j);
    ConcatAt(bs, blk, j * 8 + k);
    BlockAt(b, 8 * ts, blk, k * ts + j);
    OffsetInSlice(Concat(bs), (j * 8 + k) * blk, blk, o);
    OffsetInSlice(b, (k * ts + j) * blk, blk, o);
  }

  lemma OffsetInSlice(s: seq<u8>, at: int, n: nat, i: nat)
    requires 0 <= at && at + n <= |s| && i < n
    ensures s[at..at + n][i] == s[at + i]
  {
  }

  lemma ForwardBits(ts: nat, blk: nat, s: seq<u8>, e: nat, j: nat, k: nat)
    requires |s| == 8 * (blk * ts) && e < 8 * blk && j < ts && k < 8
    ensures 0 <= Cell(j * 8 + k, e / 8, blk) < |s| && 0 <= Cell(e, j, ts) < |s|
    ensures Bit(Forward(ts, blk, s)[Cell(j * 8 + k, e / 8, blk)], e % 8) == Bit(s[Cell(e, j, ts)], k)
  {
    hide TransWords, Transposed, Bit, Moved, Cell;
    Sizes(ts, blk);
    var c := TransWords(Transposed(s, 8 * blk, ts), blk * ts);
    var b := Transposed(c, blk * ts, 8);
    BitInWords(ts, blk, s, e, j, k);
    var ii: nat := Cell(j, e / 8, blk);
    MovedCell(c, blk * ts, 8, ii, k);
    MovedByte(b, ts, blk, k, j, e / 8);
    RowOfBlocks(ts, blk, k, j, e / 8);
    assert Forward(ts, blk, s) == Moved(b, 8, ts, blk);
  }

  lemma RowOfBlocks(ts: nat, blk: nat, k: nat, j: nat, o: nat)
    ensures 0 <= Cell(j, o, blk) && Cell(k, Cell(j, o, blk), blk * ts) == Cell(k * ts + j, o, blk)
    ensures Cell(Cell(j, o, blk), k, 8) == 8 * Cell(j, o, blk) + k
  {
    Distribute(blk, k * ts, j);
    MulAssociative(k, ts, blk);
    MulMonotone(blk, 0, j);
    assert blk * ts == ts * blk;
  }

  /** Bit k of byte j of element e ends up as bit e % 8 of byte e / 8 of row k of byte plane j. */
  lemma BitshuffledBits(ts: nat, data: seq<u8>, e: nat, j: nat, k: nat)
    requires ts > 0 && |data| / ts % 8 == 0 && e < |data| / ts && j < ts && k < 8
    ensures var blk := |data| / ts / 8;
            && 0 <= blk && 0 <= Cell(j * 8 + k, e / 8, blk) < |data| && 0 <= Cell(e, j, ts) < |data|
            && Bit(Bitshuffled(ts, data)[Cell(j * 8 + k, e / 8, blk)], e % 8) == Bit(data[Cell(e, j, ts)], k)
  {
    hide Forward, Bit, Cell;
    WholeEighths(|data|, ts);
    var blk: nat := |data| / ts / 8;
    ForwardBits(ts, blk, data[..blk * ts * 8], e, j, k);
  }

  // ----- the loops

  /** The words of `a` before word ii, bit-transposed, have reached their rows. */
  ghost predicate WordsScattered(out: seq<u8>, a: seq<u8>, n: nat, ii: nat)
    requires |a| == n * 8
  {
    Scattered(out, Transposed(TransWords(a, n), n, 8), n, 8, ii, 0)
  }

  lemma NothingScattered(out: seq<u8>, a: seq<u8>, n: nat)
    requires |out| == |a| == n * 8
    ensures WordsScattered(out, a, n, 0)
  {
    hide Transposed, TransWords;
  }

  lemma AllWordsScattered(out: seq<u8>, a: seq<u8>, n: nat)
    requires |out| == |a| == n * 8 && WordsScattered(out, a, n, n)
    ensures out == Transposed(TransWords(a, n), n, 8)
  {
    hide Transposed, TransWords, Scattered;
    AllScattered(out, Transposed(TransWords(a, n), n, 8), n, 8);
  }

  /** Bit-transposes every word of `a` and writes byte kk of word ii to row kk, column ii. */
  method ScatterWords(a: seq<u8>, n: nat) returns (b: seq<u8>)
    requires |a| == n * 8
    ensures b == Transposed(TransWords(a, n), n, 8)
  {
    hide *;
    var out := new u8[n * 8];
    NothingScattered(out[..], a, n);
    for ii := 0 to n
      invariant WordsScattered(out[..], a, n, ii)
    {
      ScatterWord(a, n, ii, out);
    }
    AllWordsScattered(out[..], a, n);
    b := out[..];
  }

  method ScatterWord(a: seq<u8>, n: nat, ii: nat, out: array<u8>)
    requires |a| == n * 8 == out.Length && ii < n && WordsScattered(out[..], a, n, ii)
    modifies out
    ensures WordsScattered(out[..], a, n, ii + 1)
  {
    hide Transposed, Cell, Scattered, TransWords, TransWord;
    ghost var c := TransWords(a, n);
    ghost var goal := Transposed(c, n, 8);
    var bytes := TransBytes(a[8 * ii..8 * ii + 8]);
    TransWordsAt(a, n, ii);
    for kk := 0 to 8
      invariant Scattered(out[..], goal, n, 8, ii, kk)
      invariant kk == 8 ==> Scattered(out[..], goal, n, 8, ii + 1, 0)
    {
      MovedCell(c, n, 8, ii, kk);
      WordByte(c, ii, kk);
      ghost var before := out[..];
      out[Cell(kk, ii, n)] := bytes[kk];
      assert out[..] == before[Cell(kk, ii, n) := goal[Cell(kk, ii, n)]];
      ScatterOne(before, goal, n, 8, ii, kk);
    }
  }

  lemma WordByte(c: seq<u8>, ii: nat, kk: nat)
    requires 8 * ii + 8 <= |c| && kk < 8
    ensures c[8 * ii..8 * ii + 8][kk] == c[Cell(ii, kk, 8)]
  {
  }

  /** Collects word ii from column ii of the eight rows, and bit-transposes it. */
  method GatherWords(b: seq<u8>, n: nat) returns (a: seq<u8>)
    requires |b| == 8 * n
    ensures a == TransWords(Transposed(b, 8, n), n)
  {
    hide TransWords, TransWord, Transposed, Column;
    a := [];
    ghost var c := Transposed(b, 8, n);
    NoWords();
    for ii := 0 to n
      invariant |a| == 8 * ii && a == TransWords(c[..8 * ii], ii)
    {
      var word := seq(8, kk requires 0 <= kk < 8 => Column(b, n, ii, kk));
      ColumnIsWord(b, n, ii, word);
      MoreWords(c, n, ii);
      word := TransBytes(word);
      a := a + word;
    }
    Seqs.TakeAll(c, 8 * n);
  }

  /** Byte ii of row kk. */
  function Column(b: seq<u8>, n: nat, ii: nat, kk: nat): u8
    requires |b| == 8 * n && ii < n && kk < 8
  {
    CellBounds(8, n, kk, ii);
    b[kk * n + ii]
  }

  lemma ColumnIsWord(b: seq<u8>, n: nat, ii: nat, word: seq<u8>)
    requires |b| == 8 * n && ii < n
    requires |word| == 8 && forall kk :: 0 <= kk < 8 ==> word[kk] == Column(b, n, ii, kk)
    ensures word == Transposed(b, 8, n)[8 * ii..8 * ii + 8]
  {
    forall kk | 0 <= kk < 8 ensures word[kk] == Transposed(b, 8, n)[8 * ii..8 * ii + 8][kk] {
      TransposedAt(b, 8, n, kk, ii);
    }
  }

  lemma NoWords()
    ensures TransWords([], 0) == []
  {
  }

  lemma MoreWords(c: seq<u8>, n: nat, ii: nat)
    requires |c| == 8 * n && ii < n
    ensures TransWords(c[..8 * ii], ii) + TransWord(c[8 * ii..8 * ii + 8]) == TransWords(c[..8 * (ii + 1)], ii + 1)
  {
    hide TransWords, TransWord;
    TransWordsAt(c, n, ii);
    if ii + 1 == n {
      Seqs.TakeAll(c, |c|);
      Seqs.TakeAll(TransWords(c, n), |c|);
    } else {
      TransWordsAt(c, n, ii + 1);
    }
    Seqs.JoinSlices(TransWords(c, n), 8 * ii, 8 * ii + 8);
  }

  /** Splits a buffer into blocks, moves each as a whole and joins them again. */
  method MoveBlocksOut(b: seq<u8>, ts: nat, blk: nat) returns (out: seq<u8>)
    requires 0 <= 8 * ts && |b| == 8 * ts * blk
    ensures out == Moved(b, 8, ts, blk)
  {
    hide Transposed;
    var src := Blocks(b, 8 * ts, blk);
    var moved := new seq<u8>[8 * ts];
    ReadInOrder(src, 8, ts, moved);
    Seqs.TakeAll(src, 8 * ts);
    Seqs.TakeAll(moved[..], 8 * ts);
    out := Concat(moved[..]);
  }

  method MoveBlocksBack(s: seq<u8>, ts: nat, blk: nat) returns (b: seq<u8>)
    requires 0 <= ts * 8 && |s| == ts * 8 * blk
    ensures b == Moved(s, ts, 8, blk)
  {
    hide Transposed;
    var src := Blocks(s, ts * 8, blk);
    var moved := new seq<u8>[ts * 8];
    WriteInOrder(src, ts, 8, moved);
    Seqs.TakeAll(src, ts * 8);
    Seqs.TakeAll(moved[..], ts * 8);
    b := Concat(moved[..]);
  }

  method BitshuffleBytes(ts: nat, data: seq<u8>) returns (out: seq<u8>)
    requires ts > 0
    ensures out == Bitshuffled(ts, data)
  {
    hide Transposed, TransWords, Moved;
    var size := |data| / ts;
    if size % 8 != 0 || size == 0 {
      return data;
    }
    WholeEighths(|data|, ts);
    var blk: nat, n: nat := size / 8, size / 8 * ts * 8;
    Sizes(ts, blk);
    var a := new u8[n];
    WriteInOrder(data[..n], size, ts, a);
    Seqs.TakeAll(a[..], n);
    Seqs.TakeAll(data[..n], n);
    var b := ScatterWords(a[..], blk * ts);
    out := MoveBlocksOut(b, ts, blk);
    out := out + data[n..];
  }

  method BitunshuffleBytes(ts: nat, data: seq<u8>) returns (out: seq<u8>)
    requires ts > 0
    ensures out == Bitunshuffled(ts, data)
  {
    hide Transposed, TransWords, Moved;
    var size := |data| / ts;
    if size % 8 != 0 || size == 0 {
      return data;
    }
    WholeEighths(|data|, ts);
    var blk: nat, n: nat := size / 8, size / 8 * ts * 8;
    Sizes(ts, blk);
    var b := MoveBlocksBack(data[..n], ts, blk);
    var a := GatherWords(b, blk * ts);
    var plain := new u8[n];
    ReadInOrder(a, ts, size, plain);
    Seqs.TakeAll(plain[..], n);
    Seqs.TakeAll(a, n);
    out := plain[..] + data[n..];
  }
}
