/** Streams of any coder: every block option of CCSDS 121.0-B section 3, and what decoding gives. */
module AecOptions {
  import opened Wrappers
  import opened Bytes
  import opened Bits
  import opened Predictor
  import opened Aec
  import opened AecRoundTrip
  import Seqs

  /** One coded piece of an interval. In an interval that starts with a reference sample, that sample is
      the first of the first piece. */
  datatype Piece =
    | SplitPiece(block: seq<u32>, k: nat)
    | PlainPiece(block: seq<u32>)
    | PairsPiece(block: seq<u32>, first: nat)
    | ZerosPiece(reference: u32, count: nat, toEnd: bool)

  function Triangle(n: nat): nat {
    if n == 0 then 0 else Triangle(n - 1) + n
  }

  /** The number of a pair in the second extension: pairs by their sum, then by their second value. */
  function PairCode(a: nat, b: nat): nat {
    Triangle(a + b) + b
  }

  function PrintPairs(vals: seq<u32>): seq<bool> {
    if |vals| < 2 then [] else Unary(PairCode(vals[0], vals[1])) + PrintPairs(vals[2..])
  }

  /** Lengths of runs of zero blocks; 4 is the run to the end of the segment. */
  function RunCode(count: nat, toEnd: bool): nat {
    if toEnd then 4 else if count <= 4 then Pred(count) else count
  }

  function Pred(n: nat): nat {
    if n == 0 then 0 else n - 1
  }

  /** The bits of a piece: the identifier of the option, the reference sample, and the coded values. */
  function PrintPiece(piece: Piece, refFlag: bool, p: Params): seq<bool>
    requires piece.ZerosPiece? || |piece.block| == p.blockSize >= 2
  {
    match piece
    case SplitPiece(block, k) =>
      SplitCode(if refFlag then block[..1] else [], if refFlag then block[1..] else block, k, p)
    case PlainPiece(block) => RawCode(block, p)
    case PairsPiece(block, first) =>
      ToBits(0, p.IdLen()) + ([true]
      + (if refFlag then Words(block[..1], p.bps) + (Unary(PairCode(first, block[1])) + PrintPairs(block[2..])) else PrintPairs(block)))
    case ZerosPiece(reference, count, toEnd) =>
      ToBits(0, p.IdLen()) + ([false] + (Words(if refFlag then [reference] else [], p.bps) + Unary(RunCode(count, toEnd))))
  }

  /** The values a piece stands for. */
  function PieceValues(piece: Piece, refFlag: bool, p: Params): (vals: seq<u32>) {
    match piece
    case ZerosPiece(reference, count, _) =>
      if refFlag then [reference] + ZeroSamples(Pred(Times(count, p.blockSize))) else ZeroSamples(Times(count, p.blockSize))
    case _ => piece.block
  }

  function Blocks(piece: Piece): nat {
    if piece.ZerosPiece? then piece.count else 1
  }

  /** Segments are 64 blocks long, and the last one of an interval ends with it. */
  predicate SegmentEnd(b: nat, p: Params) {
    b == p.rsi || b % 64 == 0
  }

  /** What a coder may do with the piece that begins at block b of an interval. */
  ghost predicate PieceFits(piece: Piece, b: nat, p: Params) {
    var refFlag := p.pp && b == 0;
    match piece
    case SplitPiece(block, k) =>
      && |block| == p.blockSize >= 1 && k <= p.Modi() - 3
      && (refFlag ==> Sample(block[0], p.bps)) && ShortRuns(if refFlag then block[1..] else block, k)
    case PlainPiece(block) => |block| == p.blockSize && Samples(block, p.bps)
    case PairsPiece(block, first) =>
      && |block| == p.blockSize >= 2 && (refFlag ==> Sample(block[0], p.bps))
      && (if refFlag then SmallPair(first, block[1]) && SmallPairs(block[2..]) else SmallPairs(block))
    case ZerosPiece(reference, count, toEnd) =>
      && count >= 1 && count <= MAX_FS && (refFlag ==> Sample(reference, p.bps))
      && (toEnd ==> SegmentEnd(b + count, p) && forall e :: b < e < b + count ==> !SegmentEnd(e, p))
  }

  predicate SmallPair(a: nat, b: nat) {
    a + b <= 12
  }

  predicate SmallPairs(vals: seq<u32>) {
    |vals| >= 2 ==> SmallPair(vals[0], vals[1]) && SmallPairs(vals[2..])
  }

  // ----- one piece

  lemma {:induction false} PairFound(i: nat, g: nat, b: nat)
    requires i <= g && b <= g
    ensures Triangle(i) <= Triangle(g) + b && SePair(Triangle(g) + b, i, Triangle(i)) == (g, b)
    decreases g - i
  {
    TriangleGrows(i, g);
    if i < g {
      TriangleGrows(i + 1, g);
      PairFound(i + 1, g, b);
    }
  }

  lemma {:induction false} TriangleGrows(i: nat, g: nat)
    requires i <= g
    ensures Triangle(i) <= Triangle(g)
    decreases g - i
  {
    if i < g {
      TriangleGrows(i, g - 1);
    }
  }

  /** The table has exactly the pairs of sums up to 12. */
  lemma PairInTable(a: nat, b: nat)
    ensures PairCode(a, b) < 91 <==> a + b <= 12
    ensures SePair(PairCode(a, b), 0, 0) == (a + b, b)
  {
    assert Triangle(13) == 91 by {
      assert Triangle(3) == 6;
      assert Triangle(5) == 15;
      assert Triangle(7) == 28;
      assert Triangle(9) == 45;
      assert Triangle(11) == 66;
    }
    PairFound(0, a + b, b);
    if a + b <= 12 {
      TriangleGrows(a + b + 1, 13);
    } else {
      TriangleGrows(13, a + b);
    }
  }

  lemma CodeRead(a: nat, b: nat, more: seq<bool>)
    requires SmallPair(a, b)
    ensures var m := PairCode(a, b);
            m < 91 && SePair(m, 0, 0) == (a + b, b) && ReadUnary(Unary(m) + more, 0) == Success((m, more))
  {
    hide Unary, SePair, PairCode, ReadUnary;
    PairInTable(a, b);
    ReadUnaryOfUnary(PairCode(a, b), 0, more);
  }

  lemma PairStep(s: seq<bool>, count: nat, blockSize: nat, raw: seq<u32>, a: nat, b: nat, m: nat, more: seq<bool>)
    requires count < blockSize && ReadUnary(s, 0) == Success((m, more)) && m < 91 && SePair(m, 0, 0) == (a + b, b) && SmallPair(a, b)
    ensures ReadPairs(s, count, blockSize, raw) ==
            if count % 2 == 0 then ReadPairs(more, count + 2, blockSize, raw + [a] + [b])
            else ReadPairs(more, count + 1, blockSize, raw + [b])
  {
    hide ReadUnary, SePair;
  }

  lemma {:induction false} ReadPairsOf(vals: seq<u32>, count: nat, blockSize: nat, raw: seq<u32>, rest: seq<bool>)
    requires SmallPairs(vals) && count % 2 == 0 && |vals| % 2 == 0 && count + |vals| == blockSize
    ensures ReadPairs(PrintPairs(vals) + rest, count, blockSize, raw) == Success((raw + vals, rest))
    decreases |vals|
  {
    hide Unary, PairCode, SePair, ReadUnary, ReadPairs;
    if vals == [] {
      Seqs.Empty(rest);
      Seqs.Empty(raw);
      NoPairsLeft(rest, count, blockSize, raw);
    } else {
      var more := PrintPairs(vals[2..]) + rest;
      Seqs.Assoc(Unary(PairCode(vals[0], vals[1])), PrintPairs(vals[2..]), rest);
      CodeRead(vals[0], vals[1], more);
      PairStep(PrintPairs(vals) + rest, count, blockSize, raw, vals[0], vals[1], PairCode(vals[0], vals[1]), more);
      ReadPairsOf(vals[2..], count + 2, blockSize, raw + [vals[0]] + [vals[1]], rest);
      assert vals == [vals[0]] + [vals[1]] + vals[2..];
      Seqs.Assoc(raw, [vals[0]], [vals[1]]);
      Seqs.Assoc(raw, [vals[0]] + [vals[1]], vals[2..]);
    }
  }

  lemma NoPairsLeft(s: seq<bool>, count: nat, blockSize: nat, raw: seq<u32>)
    requires count >= blockSize
    ensures ReadPairs(s, count, blockSize, raw) == Success((raw, s))
  {
  }

  function ZerosAfter(fs: nat, raw: seq<u32>, ref: seq<u32>, p: Params): seq<u32>
    requires p.Valid() && |raw| < p.RsiSamples() && |ref| <= 1 && (ref != [] ==> raw == [])
  {
    var blocks := ZeroBlocks(fs, |raw|, ref != [], p);
    TimesMonotone(1, blocks, p.blockSize);
    ZeroSamples(Times(blocks, p.blockSize) - |ref|)
  }

  /** The low-entropy options: identifier 0, one more bit, and the reference sample. */
  lemma LowEntropyHead(ref: seq<u32>, pairs: bool, raw: seq<u32>, body: seq<bool>, p: Params)
    requires p.Valid() && |raw| < p.RsiSamples() && |ref| == (if p.pp && raw == [] then 1 else 0) && Samples(ref, p.bps)
    ensures var r := DecodeBlock(ToBits(0, p.IdLen()) + ([pairs] + (Words(ref, p.bps) + body)), raw, p);
            && (pairs ==> r == ReadPairs(body, |ref|, p.blockSize, raw + ref))
            && (!pairs && ReadUnary(body, 0).Success? ==>
                  var (fs, rest) := ReadUnary(body, 0).value;
                  r == Success((raw + ref + ZerosAfter(fs, raw, ref, p), rest)))
  {
    hide ToBits, ReadPairs, ReadUnary, Words, ReadWords, ReadBits, DecodeBlock, ZerosAfter, Samples;
    var s1 := [pairs] + (Words(ref, p.bps) + body);
    ReadBitsOfToBits(0, p.IdLen(), s1);
    OneBit(pairs, Words(ref, p.bps) + body);
    ReadWordsOfWords(ref, p.bps, raw, body);
    LowEntropyStep(ToBits(0, p.IdLen()) + s1, s1, Words(ref, p.bps) + body, body, ref, pairs, raw, p);
  }

  lemma LowEntropyStep(s: seq<bool>, s1: seq<bool>, s2: seq<bool>, body: seq<bool>, ref: seq<u32>, pairs: bool, raw: seq<u32>, p: Params)
    requires p.Valid() && |raw| < p.RsiSamples() && |ref| == (if p.pp && raw == [] then 1 else 0)
    requires ReadBits(s, p.IdLen()) == Success((0, s1)) && ReadBits(s1, 1) == Success((if pairs then 1 else 0, s2))
    requires ReadWords(s2, |ref|, p.bps, raw) == Success((raw + ref, body))
    ensures var r := DecodeBlock(s, raw, p);
            && (pairs ==> r == ReadPairs(body, |ref|, p.blockSize, raw + ref))
            && (!pairs && ReadUnary(body, 0).Success? ==>
                  var (fs, rest) := ReadUnary(body, 0).value;
                  r == Success((raw + ref + ZerosAfter(fs, raw, ref, p), rest)))
  {
    hide ReadPairs, ReadUnary, ReadWords, ReadBits, ReadHighs, ReadLows, ZeroBlocks, Times;
  }

  lemma OneBit(bit: bool, rest: seq<bool>)
    ensures ReadBits([bit] + rest, 1) == Success((if bit then 1 else 0, rest))
  {
    assert ([bit] + rest)[..1] == [bit] && ([bit] + rest)[1..] == rest;
    assert [bit][..0] == [];
    assert FromBits([bit]) == 2 * FromBits([]) + (if bit then 1 else 0);
  }

  lemma {:induction false} WholeBlocksOf(b: nat, size: nat, more: nat)
    requires size > more
    ensures WholeBlocks(Times(b, size) + more, size) == b
  {
    if b > 0 {
      WholeBlocksOf(b - 1, size, more);
    }
  }

  /** The first end of a segment behind block b. */
  lemma SegmentRun(b: nat, count: nat, p: Params)
    requires b < p.rsi && count >= 1 && b + count <= p.rsi
    requires SegmentEnd(b + count, p) && forall e :: b < e < b + count ==> !SegmentEnd(e, p)
    ensures count == Min(p.rsi - b, 64 - b % 64)
  {
    var n := Min(p.rsi - b, 64 - b % 64);
    assert (b + 64 - b % 64) % 64 == 0;
    assert SegmentEnd(b + n, p);
    WithinSegment(b, count);
  }

  lemma WithinSegment(b: nat, count: nat)
    ensures b % 64 + count < 64 ==> (b + count) % 64 == b % 64 + count
  {
  }

  lemma RunOfCode(b: nat, count: nat, toEnd: bool, refFlag: bool, p: Params)
    requires p.Valid() && b < p.rsi && count >= 1 && b + count <= p.rsi && (refFlag ==> b == 0)
    requires Times(b, p.blockSize) < p.RsiSamples()
    requires toEnd ==> SegmentEnd(b + count, p) && forall e :: b < e < b + count ==> !SegmentEnd(e, p)
    ensures ZeroBlocks(RunCode(count, toEnd), Times(b, p.blockSize), refFlag, p) == count
  {
    hide SegmentEnd, WholeBlocks, Times;
    WholeBlocksOf(b, p.blockSize, if refFlag then 1 else 0);
    if toEnd {
      SegmentRun(b, count, p);
    }
  }

  lemma ZerosRead(piece: Piece, b: nat, raw: seq<u32>, rest: seq<bool>, p: Params)
    requires p.Valid() && b < p.rsi && |raw| == Times(b, p.blockSize) < p.RsiSamples()
    requires piece.ZerosPiece? && PieceFits(piece, b, p) && b + piece.count <= p.rsi && (raw == [] <==> b == 0)
    ensures DecodeBlock(PrintPiece(piece, p.pp && b == 0, p) + rest, raw, p)
            == Success((raw + PieceValues(piece, p.pp && b == 0, p), rest))
  {
    hide DecodeBlock, ToBits, Words, Unary, ReadUnary, ZeroBlocks, SegmentEnd, Times;
    var refFlag := p.pp && b == 0;
    var ref: seq<u32> := if refFlag then [piece.reference] else [];
    var fs := RunCode(piece.count, piece.toEnd);
    Seqs.Assoc(ToBits(0, p.IdLen()), [false] + (Words(ref, p.bps) + Unary(fs)), rest);
    Seqs.Assoc([false], Words(ref, p.bps) + Unary(fs), rest);
    Seqs.Assoc(Words(ref, p.bps), Unary(fs), rest);
    LowEntropyHead(ref, false, raw, Unary(fs) + rest, p);
    ReadUnaryOfUnary(fs, 0, rest);
    RunOfCode(b, piece.count, piece.toEnd, refFlag, p);
    Seqs.Assoc(raw, ref, ZerosAfter(fs, raw, ref, p));
    TimesMonotone(1, piece.count, p.blockSize);
    Seqs.Empty(ZerosAfter(fs, raw, ref, p));
  }

  lemma PairsRead(piece: Piece, b: nat, raw: seq<u32>, rest: seq<bool>, p: Params)
    requires p.Valid() && b < p.rsi && |raw| == Times(b, p.blockSize) < p.RsiSamples()
    requires piece.PairsPiece? && PieceFits(piece, b, p) && (raw == [] <==> b == 0)
    ensures DecodeBlock(PrintPiece(piece, p.pp && b == 0, p) + rest, raw, p)
            == Success((raw + PieceValues(piece, p.pp && b == 0, p), rest))
  {
    hide DecodeBlock, ToBits, Words, Unary, ReadUnary, ReadPairs, PairCode, SePair, PrintPairs, SmallPairs, Times;
    var block, refFlag := piece.block, p.pp && b == 0;
    var ref: seq<u32> := if refFlag then block[..1] else [];
    var code := if refFlag then Unary(PairCode(piece.first, block[1])) + PrintPairs(block[2..]) else PrintPairs(block);
    Seqs.Assoc(ToBits(0, p.IdLen()), [true] + (Words(ref, p.bps) + code), rest);
    Seqs.Assoc([true], Words(ref, p.bps) + code, rest);
    Seqs.Assoc(Words(ref, p.bps), code, rest);
    LowEntropyHead(ref, true, raw, code + rest, p);
    if refFlag {
      var more := PrintPairs(block[2..]) + rest;
      Seqs.Assoc(Unary(PairCode(piece.first, block[1])), PrintPairs(block[2..]), rest);
      CodeRead(piece.first, block[1], more);
      PairStep(code + rest, 1, p.blockSize, raw + ref, piece.first, block[1], PairCode(piece.first, block[1]), more);
      ReadPairsOf(block[2..], 2, p.blockSize, raw + ref + [block[1]], rest);
      assert block == ref + [block[1]] + block[2..];
      Seqs.Assoc(raw, ref, [block[1]]);
      Seqs.Assoc(raw, ref + [block[1]], block[2..]);
    } else {
      ReadPairsOf(block, 0, p.blockSize, raw + ref, rest);
      Seqs.Empty(raw);
      NoWords(p.bps, PrintPairs(block));
    }
  }

  lemma NoWords(n: nat, s: seq<bool>)
    ensures Words([], n) + s == s
  {
  }

  lemma PieceRead(piece: Piece, b: nat, raw: seq<u32>, rest: seq<bool>, p: Params)
    requires p.Valid() && b < p.rsi && |raw| == Times(b, p.blockSize) && PieceFits(piece, b, p) && b + Blocks(piece) <= p.rsi
    ensures |raw| < p.RsiSamples()
    ensures DecodeBlock(PrintPiece(piece, p.pp && b == 0, p) + rest, raw, p)
            == Success((raw + PieceValues(piece, p.pp && b == 0, p), rest))
  {
    hide DecodeBlock, SplitCode, RawCode, PrintPairs, ToBits, Words, Unary, SmallPairs, ShortRuns, SegmentEnd;
    TimesMonotone(b, p.rsi, p.blockSize);
    TimesMonotone(0, b, p.blockSize);
    match piece {
      case SplitPiece(block, k) =>
        var ref, vals := if p.pp && b == 0 then block[..1] else [], if p.pp && b == 0 then block[1..] else block;
        Seqs.SplitAt(block, |ref|);
        SplitBlockRoundTrip(ref, vals, k, raw, rest, p);
      case PlainPiece(block) => RawBlockRoundTrip(block, raw, rest, p);
      case PairsPiece(_, _) => PairsRead(piece, b, raw, rest, p);
      case ZerosPiece(_, _, _) => ZerosRead(piece, b, raw, rest, p);
    }
  }

  // ----- intervals and streams

  /** Pieces that fill an interval from block b on. */
  ghost predicate IntervalFits(pieces: seq<Piece>, b: nat, p: Params) {
    if pieces == [] then b == p.rsi
    else b + Blocks(pieces[0]) <= p.rsi && PieceFits(pieces[0], b, p) && IntervalFits(pieces[1..], b + Blocks(pieces[0]), p)
  }

  function PrintInterval(pieces: seq<Piece>, b: nat, p: Params): seq<bool>
    requires p.Valid() && IntervalFits(pieces, b, p)
  {
    if pieces == [] then []
    else PrintPiece(pieces[0], p.pp && b == 0, p) + PrintInterval(pieces[1..], b + Blocks(pieces[0]), p)
  }

  function IntervalValues(pieces: seq<Piece>, b: nat, p: Params): seq<u32> {
    if pieces == [] then []
    else PieceValues(pieces[0], p.pp && b == 0, p) + IntervalValues(pieces[1..], b + Blocks(pieces[0]), p)
  }

  lemma PieceLength(piece: Piece, b: nat, p: Params)
    requires p.Valid() && PieceFits(piece, b, p)
    ensures |PieceValues(piece, p.pp && b == 0, p)| == Times(b + Blocks(piece), p.blockSize) - Times(b, p.blockSize)
    ensures Blocks(piece) >= 1 && (piece.ZerosPiece? || |piece.block| == p.blockSize)
  {
    hide SegmentEnd, ShortRuns, SmallPairs;
    TimesMonotone(1, Blocks(piece), p.blockSize);
    TimesAdd(b, Blocks(piece), p.blockSize);
  }

  lemma {:induction false} TimesAdd(a: nat, b: nat, n: nat)
    ensures Times(a + b, n) == Times(a, n) + Times(b, n)
    decreases b
  {
    if b > 0 {
      TimesAdd(a, b - 1, n);
    }
  }

  lemma LoopStep(s: seq<bool>, rest: seq<bool>, raw: seq<u32>, vals: seq<u32>, out: seq<u32>, n: nat, p: Params)
    requires p.Valid() && |raw| < p.RsiSamples() && |out| < n && vals != []
    requires DecodeBlock(s, raw, p) == Success((raw + vals, rest))
    ensures DecodeLoop(s, raw, out, n, p) ==
            if |raw + vals| >= p.RsiSamples() then DecodeLoop(rest, [], out + UnmapRsi(raw + vals, p), n, p)
            else DecodeLoop(rest, raw + vals, out, n, p)
  {
    hide DecodeBlock, UnmapRsi;
  }

  lemma {:induction false} IntervalRead(pieces: seq<Piece>, b: nat, raw: seq<u32>, out: seq<u32>, rest: seq<bool>, n: nat, p: Params)
    requires p.Valid() && pieces != [] && IntervalFits(pieces, b, p) && |raw| == Times(b, p.blockSize) && |out| < n
    ensures p.RsiSamples() > 0 && |raw| < p.RsiSamples()
    ensures |raw + IntervalValues(pieces, b, p)| == p.RsiSamples()
    ensures DecodeLoop(PrintInterval(pieces, b, p) + rest, raw, out, n, p)
            == DecodeLoop(rest, [], out + UnmapRsi(raw + IntervalValues(pieces, b, p), p), n, p)
    decreases |pieces|
  {
    hide DecodeLoop, DecodeBlock, UnmapRsi, PrintPiece, PieceValues, PieceFits, Times;
    var piece, vals := pieces[0], PieceValues(pieces[0], p.pp && b == 0, p);
    var next := b + Blocks(piece);
    PieceLength(piece, b, p);
    TimesMonotone(next, p.rsi, p.blockSize);
    TimesMonotone(b, p.rsi, p.blockSize);
    TimesMonotone(b, next, p.blockSize);
    var more := PrintInterval(pieces[1..], next, p) + rest;
    Seqs.Assoc(PrintPiece(piece, p.pp && b == 0, p), PrintInterval(pieces[1..], next, p), rest);
    PieceRead(piece, b, raw, more, p);
    LoopStep(PrintInterval(pieces, b, p) + rest, more, raw, vals, out, n, p);
    Seqs.Assoc(raw, vals, IntervalValues(pieces[1..], next, p));
    if |pieces| == 1 {
      Seqs.Empty(rest);
      Seqs.Empty(vals);
    } else {
      IntervalRead(pieces[1..], next, raw + vals, out, rest, n, p);
    }
  }

  /** An interval as some coder wrote it, and the samples it stands for. */
  datatype Interval = Interval(pieces: seq<Piece>, samples: seq<u32>)

  /** The pieces code the samples: reference sample and residuals, or the samples themselves. */
  ghost predicate Codes(i: Interval, p: Params)
    requires p.Valid()
  {
    && IntervalFits(i.pieces, 0, p) && Samples(i.samples, p.bps) && |i.samples| == p.RsiSamples()
    && i.samples != [] && IntervalValues(i.pieces, 0, p) == Preprocess(i.samples, p)
  }

  ghost predicate AllCode(stream: seq<Interval>, p: Params)
    requires p.Valid()
  {
    forall i :: 0 <= i < |stream| ==> Codes(stream[i], p)
  }

  function PrintStream(stream: seq<Interval>, p: Params): seq<bool>
    requires p.Valid() && AllCode(stream, p)
  {
    if stream == [] then [] else PrintInterval(stream[0].pieces, 0, p) + PrintStream(stream[1..], p)
  }

  function AllSamples(stream: seq<Interval>): seq<u32> {
    if stream == [] then [] else stream[0].samples + AllSamples(stream[1..])
  }

  lemma IntervalDecodes(i: Interval, out: seq<u32>, rest: seq<bool>, n: nat, p: Params)
    requires p.Valid() && Codes(i, p) && |out| < n
    ensures p.RsiSamples() > 0
    ensures DecodeLoop(PrintInterval(i.pieces, 0, p) + rest, [], out, n, p) == DecodeLoop(rest, [], out + i.samples, n, p)
  {
    hide DecodeLoop, UnmapRsi, Preprocess, PrintInterval, IntervalFits, IntervalValues;
    NotWithoutPieces(i, p);
    IntervalRead(i.pieces, 0, [], out, rest, n, p);
    Seqs.Empty(IntervalValues(i.pieces, 0, p));
    UnmapOfPreprocess(i.samples, p);
    Seqs.TakeAll(UnmapRsi(Preprocess(i.samples, p), p), |i.samples|);
  }

  lemma NotWithoutPieces(i: Interval, p: Params)
    requires p.Valid() && Codes(i, p)
    ensures i.pieces != []
  {
  }

  lemma {:induction false} StreamDecodes(stream: seq<Interval>, out: seq<u32>, rest: seq<bool>, n: nat, p: Params)
    requires p.Valid() && p.RsiSamples() > 0 && AllCode(stream, p)
    requires |out| + Times(|stream|, p.RsiSamples()) >= n
    requires stream != [] ==> |out| + Times(|stream| - 1, p.RsiSamples()) < n
    ensures var r := DecodeLoop(PrintStream(stream, p) + rest, [], out, n, p);
            |out + AllSamples(stream)| >= n && r == Success((out + AllSamples(stream))[..n])
    decreases |stream|
  {
    hide DecodeLoop, PrintInterval, Codes, Times;
    if stream == [] {
      NoTimes(p.RsiSamples());
      Seqs.Empty(out);
      LoopEnds(PrintStream(stream, p) + rest, out, n, p);
    } else {
      var i := stream[0];
      var more := PrintStream(stream[1..], p) + rest;
      assert Codes(i, p);
      CodedLength(i, p);
      Seqs.Assoc(PrintInterval(i.pieces, 0, p), PrintStream(stream[1..], p), rest);
      TimesStep(|stream|, p.RsiSamples());
      IntervalDecodes(i, out, more, n, p);
      StreamDecodes(stream[1..], out + i.samples, rest, n, p);
      Seqs.Assoc(out, i.samples, AllSamples(stream[1..]));
    }
  }

  lemma CodedLength(i: Interval, p: Params)
    requires p.Valid() && Codes(i, p)
    ensures |i.samples| == p.RsiSamples() && IntervalFits(i.pieces, 0, p)
  {
  }

  lemma NoTimes(b: nat)
    ensures Times(0, b) == 0
  {
  }

  lemma TimesStep(a: nat, b: nat)
    requires a > 0
    ensures Times(a, b) == Times(a - 1, b) + b && (a > 1 ==> Times(a - 1, b) == Times(a - 2, b) + b) && Times(0, b) == 0
  {
  }

  /** Whatever options a coder chose, decoding as many samples as end in the last interval gives the
      samples, and what follows the stream does not matter. */
  lemma AnyCoderDecodes(stream: seq<Interval>, rest: seq<bool>, n: nat, p: Params)
    requires p.Valid() && AllCode(stream, p) && n <= Times(|stream|, p.RsiSamples())
    requires stream != [] ==> n > Times(|stream| - 1, p.RsiSamples())
    ensures |AllSamples(stream)| >= n && Decode(PrintStream(stream, p) + rest, n, p) == Success(AllSamples(stream)[..n])
  {
    hide DecodeLoop, PrintStream, Codes;
    TimesMonotone(1, p.rsi, p.blockSize);
    StreamDecodes(stream, [], rest, n, p);
    assert [] + AllSamples(stream) == AllSamples(stream);
  }
}
