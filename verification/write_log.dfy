/** The write log a rank sends to rank 0 when a shared file closes. */
module WriteLog {
  import opened Wrappers
  import opened Bytes
  import Seqs

  type Range = (u64, u64)

  /** One dataset write: (offset, length) runs, and the bytes of all runs in order. */
  datatype Entry = Entry(path: seq<u8>, ranges: seq<Range>, bytes: seq<u8>)

  datatype LogError = Truncated

  type Parsed<T> = Result<(T, seq<u8>), LogError>

  // ----- writing

  function EncodeRanges(ranges: seq<Range>): seq<u8> {
    if ranges == [] then [] else Le(ranges[0].0, 8) + (Le(ranges[0].1, 8) + EncodeRanges(ranges[1..]))
  }

  /** The path length is cut to 32 bits. */
  function EncodeEntry(e: Entry): seq<u8> {
    Le(|e.path|, 4) + (e.path + (Le(|e.ranges|, 8) + (EncodeRanges(e.ranges) + (Le(|e.bytes|, 8) + e.bytes))))
  }

  function EncodeEntries(log: seq<Entry>): seq<u8> {
    if log == [] then [] else EncodeEntry(log[0]) + EncodeEntries(log[1..])
  }

  function EncodeLog(log: seq<Entry>): seq<u8> {
    Le(|log|, 8) + EncodeEntries(log)
  }

  // ----- reading

  function Take(c: seq<u8>, n: nat): Parsed<seq<u8>> {
    if |c| < n then Failure(Truncated) else Success((c[..n], c[n..]))
  }

  function TakeInt(c: seq<u8>, n: nat): (r: Parsed<nat>)
    ensures r.Success? ==> r.value.0 < Pow2(8 * n)
  {
    if |c| < n then Failure(Truncated) else
      FromLeBound(c[..n]);
      Success((FromLe(c[..n]), c[n..]))
  }

  function DecodeRanges(c: seq<u8>, n: nat): Parsed<seq<Range>> {
    if n == 0 then Success(([], c))
    else
      Pow2Constants();
      var (o, c1) :- TakeInt(c, 8);
      var (l, c2) :- TakeInt(c1, 8);
      var (more, c3) :- DecodeRanges(c2, n - 1);
      Success(([(o, l)] + more, c3))
  }

  function DecodeEntry(c: seq<u8>): Parsed<Entry> {
    var (pl, c1) :- TakeInt(c, 4);
    var (path, c2) :- Take(c1, pl);
    var (nr, c3) :- TakeInt(c2, 8);
    var (ranges, c4) :- DecodeRanges(c3, nr);
    var (bl, c5) :- TakeInt(c4, 8);
    var (bytes, c6) :- Take(c5, bl);
    Success((Entry(path, ranges, bytes), c6))
  }

  function DecodeEntries(c: seq<u8>, n: nat): Result<seq<Entry>, LogError>
    decreases n
  {
    if n == 0 then Success([])
    else
      var (e, rest) :- DecodeEntry(c);
      var more :- DecodeEntries(rest, n - 1);
      Success([e] + more)
  }

  function DecodeLog(c: seq<u8>): Result<seq<Entry>, LogError> {
    var (n, rest) :- TakeInt(c, 8);
    DecodeEntries(rest, n)
  }

  // ----- round trip

  /** What a 64-bit machine can hold. */
  ghost predicate Fits(e: Entry) {
    |e.ranges| < TWO_64 && |e.bytes| < TWO_64
  }

  predicate ShortPath(e: Entry) {
    |e.path| < TWO_32
  }

  lemma TakeIntOf(v: nat, n: nat, rest: seq<u8>)
    ensures TakeInt(Le(v, n) + rest, n) == Success((FromLe(Le(v, n)), rest))
  {
    Seqs.DropAppended(Le(v, n), rest);
  }

  lemma TakeLength(v: nat, rest: seq<u8>)
    requires v < TWO_64
    ensures TakeInt(Le(v, 8) + rest, 8) == Success((v, rest))
  {
    TakeIntOf(v, 8, rest);
    Pow2Constants();
    FromLeOfLe(v, 8);
  }

  lemma TakeOf(a: seq<u8>, rest: seq<u8>)
    ensures Take(a + rest, |a|) == Success((a, rest))
  {
    Seqs.DropAppended(a, rest);
  }

  lemma {:induction false} RangesRoundTrip(ranges: seq<Range>, rest: seq<u8>)
    ensures DecodeRanges(EncodeRanges(ranges) + rest, |ranges|) == Success((ranges, rest))
  {
    if ranges == [] {
      Seqs.Empty(rest);
    } else {
      hide TakeInt;
      var more := EncodeRanges(ranges[1..]);
      RangesRoundTrip(ranges[1..], rest);
      Seqs.Assoc(Le(ranges[0].0, 8), Le(ranges[0].1, 8) + more, rest);
      Seqs.Assoc(Le(ranges[0].1, 8), more, rest);
      TakeLength(ranges[0].0, Le(ranges[0].1, 8) + (more + rest));
      TakeLength(ranges[0].1, more + rest);
      Seqs.HeadAndTail(ranges);
    }
  }

  /** The fields of an encoded entry, one after the other. */
  lemma EntryFields(e: Entry, rest: seq<u8>)
    ensures var ranges := EncodeRanges(e.ranges);
            EncodeEntry(e) + rest ==
            Le(|e.path|, 4) + (e.path + (Le(|e.ranges|, 8) + (ranges + (Le(|e.bytes|, 8) + (e.bytes + rest)))))
  {
    hide EncodeRanges, Le;
    var b := Le(|e.bytes|, 8) + e.bytes;
    var r := EncodeRanges(e.ranges) + b;
    var n := Le(|e.ranges|, 8) + r;
    Seqs.Assoc(Le(|e.path|, 4), e.path + n, rest);
    Seqs.Assoc(e.path, n, rest);
    Seqs.Assoc(Le(|e.ranges|, 8), r, rest);
    Seqs.Assoc(EncodeRanges(e.ranges), b, rest);
    Seqs.Assoc(Le(|e.bytes|, 8), e.bytes, rest);
  }

  lemma EntryRoundTrip(e: Entry, rest: seq<u8>)
    requires Fits(e)
    ensures ShortPath(e) ==> DecodeEntry(EncodeEntry(e) + rest) == Success((e, rest))
    ensures !ShortPath(e) ==>
              var r := DecodeEntry(EncodeEntry(e) + rest);
              r.Success? ==> |r.value.0.path| < |e.path|
  {
    hide TakeInt, Take, EncodeRanges, DecodeRanges, EncodeEntry, Le, FromLe;
    var ranges := EncodeRanges(e.ranges);
    var afterPath := Le(|e.ranges|, 8) + (ranges + (Le(|e.bytes|, 8) + (e.bytes + rest)));
    EntryFields(e, rest);
    TakeIntOf(|e.path|, 4, e.path + afterPath);
    PathLength(|e.path|);
    if ShortPath(e) {
      TakeOf(e.path, afterPath);
      TakeLength(|e.ranges|, ranges + (Le(|e.bytes|, 8) + (e.bytes + rest)));
      RangesRoundTrip(e.ranges, Le(|e.bytes|, 8) + (e.bytes + rest));
      TakeLength(|e.bytes|, e.bytes + rest);
      TakeOf(e.bytes, rest);
    } else {
      TakenLength(e.path + afterPath, FromLe(Le(|e.path|, 4)));
    }
  }

  lemma PathLength(n: nat)
    ensures FromLe(Le(n, 4)) == if n < TWO_32 then n else n % TWO_32
  {
    Pow2Constants();
    FromLeOfLe(n, 4);
  }

  lemma TakenLength(c: seq<u8>, n: nat)
    ensures Take(c, n).Success? ==> |Take(c, n).value.0| == n
  {
  }

  predicate ShortPaths(log: seq<Entry>) {
    forall i :: 0 <= i < |log| ==> ShortPath(log[i])
  }

  lemma ShortPathsSplit(log: seq<Entry>)
    requires log != []
    ensures ShortPaths(log) <==> ShortPath(log[0]) && ShortPaths(log[1..])
  {
    assert forall i :: 0 < i < |log| ==> log[i] == log[1..][i - 1];
  }

  lemma FirstEntry(e: Entry, tail: seq<Entry>, rest: seq<u8>, n: nat)
    requires Fits(e)
    ensures DecodeEntries(EncodeEntry(e) + rest, n + 1) == Success([e] + tail)
            <==> ShortPath(e) && DecodeEntries(rest, n) == Success(tail)
  {
    hide DecodeEntry, EncodeEntry, ShortPath;
    EntryRoundTrip(e, rest);
    var all := DecodeEntries(EncodeEntry(e) + rest, n + 1);
    var r := DecodeEntries(rest, n);
    if ShortPath(e) {
      assert all.Success? <==> r.Success?;
      assert all.Success? ==> all.value == [e] + r.value;
    } else if all.Success? {
      assert all.value[0] == DecodeEntry(EncodeEntry(e) + rest).value.0 != ([e] + tail)[0];
    }
    if r.Success? {
      Seqs.HeadOf(e, r.value);
      Seqs.HeadOf(e, tail);
    }
  }

  lemma EmptyRoundTrip()
    ensures DecodeEntries(EncodeEntries([]), 0) == Success([]) && ShortPaths([])
  {
  }

  lemma {:induction false} EntriesRoundTrip(log: seq<Entry>)
    requires forall i :: 0 <= i < |log| ==> Fits(log[i])
    ensures DecodeEntries(EncodeEntries(log), |log|) == Success(log) <==> ShortPaths(log)
  {
    hide DecodeEntries, EncodeEntry, ShortPaths, ShortPath;
    if log == [] {
      EmptyRoundTrip();
    } else {
      var tail := log[1..];
      FirstEntry(log[0], tail, EncodeEntries(tail), |tail|);
      EntriesRoundTrip(tail);
      ShortPathsSplit(log);
      Seqs.HeadAndTail(log);
    }
  }

  /** A log survives the trip exactly when every path length fits its 32-bit field. */
  lemma LogRoundTrip(log: seq<Entry>)
    requires |log| < TWO_64 && forall i :: 0 <= i < |log| ==> Fits(log[i])
    ensures DecodeLog(EncodeLog(log)) == Success(log) <==> ShortPaths(log)
  {
    hide DecodeEntries, EncodeEntries, ShortPaths;
    TakeLength(|log|, EncodeEntries(log));
    EntriesRoundTrip(log);
  }
}
