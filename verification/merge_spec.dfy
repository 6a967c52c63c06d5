/** What replaying write logs into the datasets of a file means. */
module MergeSpec {
  import opened Wrappers
  import opened Bytes
  import opened WriteLog
  import Seqs

  /** What a path in a log stands for on rank 0. */
  datatype Target = Missing | NotDataset | Dataset(id: nat)

  type Targets = seq<u8> -> Target

  datatype MergeError = BadLog | NoDataset | NotADataset | OutOfBounds

  /** One copy into a dataset, or the reason why the log stops here. */
  datatype Write = Write(id: nat, at: nat, bytes: seq<u8>) | Bad(error: MergeError)

  /** The data of every dataset, by object. */
  type Store = map<nat, seq<u8>>

  /** Bytes of all runs. */
  function TotalLength(ranges: seq<Range>): nat {
    if ranges == [] then 0 else ranges[0].1 + TotalLength(ranges[1..])
  }

  function RangeWrites(id: nat, ranges: seq<Range>, bytes: seq<u8>, src: nat): seq<Write> {
    if ranges == [] then []
    else if src + ranges[0].1 > |bytes| then [Bad(OutOfBounds)]
    else [Write(id, ranges[0].0, bytes[src..src + ranges[0].1])] + RangeWrites(id, ranges[1..], bytes, src + ranges[0].1)
  }

  function EntryWrites(e: Entry, targets: Targets): seq<Write> {
    match targets(e.path)
    case Missing => [Bad(NoDataset)]
    case NotDataset => [Bad(NotADataset)]
    case Dataset(id) => RangeWrites(id, e.ranges, e.bytes, 0)
  }

  function LogWrites(log: seq<Entry>, targets: Targets): seq<Write> {
    if log == [] then [] else EntryWrites(log[0], targets) + LogWrites(log[1..], targets)
  }

  function BlobWrites(blob: seq<u8>, targets: Targets): seq<Write> {
    match DecodeLog(blob)
    case Failure(_) => [Bad(BadLog)]
    case Success(log) => LogWrites(log, targets)
  }

  function BlobsWrites(blobs: seq<seq<u8>>, targets: Targets): seq<seq<Write>> {
    seq(|blobs|, i requires 0 <= i < |blobs| => BlobWrites(blobs[i], targets))
  }

  function Flatten(blocks: seq<seq<Write>>): seq<Write> {
    if blocks == [] then [] else blocks[0] + Flatten(blocks[1..])
  }

  function Patch(s: seq<u8>, at: nat, b: seq<u8>): (r: seq<u8>)
    requires at + |b| <= |s|
    ensures |r| == |s|
    ensures forall p :: 0 <= p < |s| ==> r[p] == if at <= p < at + |b| then b[p - at] else s[p]
  {
    s[..at] + b + s[at + |b|..]
  }

  predicate InBounds(d: Store, w: Write) {
    w.Write? && w.id in d && w.at + |w.bytes| <= |d[w.id]|
  }

  /** The writes one after the other, up to the first that fails. */
  function Replay(d: Store, ws: seq<Write>): (Store, Option<MergeError>)
    decreases |ws|
  {
    if ws == [] then (d, None)
    else if ws[0].Bad? then (d, Some(ws[0].error))
    else if !InBounds(d, ws[0]) then (d, Some(OutOfBounds))
    else Replay(d[ws[0].id := Patch(d[ws[0].id], ws[0].at, ws[0].bytes)], ws[1..])
  }

  lemma {:induction false} ReplayConcat(d: Store, a: seq<Write>, b: seq<Write>)
    ensures Replay(d, a + b) == if Replay(d, a).1.Some? then Replay(d, a) else Replay(Replay(d, a).0, b)
    decreases |a|
  {
    if a == [] {
      Seqs.Empty(b);
    } else {
      assert (a + b)[1..] == a[1..] + b;
      if InBounds(d, a[0]) {
        ReplayConcat(d[a[0].id := Patch(d[a[0].id], a[0].at, a[0].bytes)], a[1..], b);
      }
    }
  }

  lemma CopyFails(d: Store, id: nat, ranges: seq<Range>, bytes: seq<u8>, src: nat)
    requires id in d && ranges != [] && (ranges[0].0 + ranges[0].1 > |d[id]| || src + ranges[0].1 > |bytes|)
    ensures Replay(d, RangeWrites(id, ranges, bytes, src)) == (d, Some(OutOfBounds))
  {
  }

  lemma ReplayNothing(d: Store)
    ensures Replay(d, []) == (d, None)
  {
  }

  lemma ReplayBad(d: Store, e: MergeError)
    ensures Replay(d, [Bad(e)]) == (d, Some(e))
  {
  }

  lemma {:induction false} ReplayKeepsShape(d: Store, ws: seq<Write>)
    ensures Replay(d, ws).0.Keys == d.Keys
    ensures forall id :: id in d ==> |Replay(d, ws).0[id]| == |d[id]|
    decreases |ws|
  {
    if ws != [] && InBounds(d, ws[0]) {
      var d' := d[ws[0].id := Patch(d[ws[0].id], ws[0].at, ws[0].bytes)];
      assert d'.Keys == d.Keys;
      ReplayKeepsShape(d', ws[1..]);
    }
  }
}
