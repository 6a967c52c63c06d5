/** What a collective merge leaves in every byte, in terms of the logged entries. */
module MergeBytes {
  import opened Wrappers
  import opened Bytes
  import opened WriteLog
  import opened MergeSpec
  import Seqs

  predicate Covers(w: Write, id: nat, p: nat) {
    w.Write? && w.id == id && w.at <= p < w.at + |w.bytes|
  }

  /** The byte at p of dataset id after the writes, if it was `v` before. */
  function ByteAfter(ws: seq<Write>, id: nat, p: nat, v: u8): u8 {
    if ws == [] then v else ByteAfter(ws[1..], id, p, if Covers(ws[0], id, p) then ws[0].bytes[p - ws[0].at] else v)
  }

  lemma {:induction false} ReplayIsByteAfter(d: Store, ws: seq<Write>, id: nat, p: nat)
    requires Replay(d, ws).1.None? && id in d && p < |d[id]|
    ensures var t := Replay(d, ws).0;
            id in t && |t[id]| == |d[id]| && t[id][p] == ByteAfter(ws, id, p, d[id][p])
    decreases |ws|
  {
    if ws != [] {
      ReplayIsByteAfter(d[ws[0].id := Patch(d[ws[0].id], ws[0].at, ws[0].bytes)], ws[1..], id, p);
    }
  }

  lemma {:induction false} ByteAfterUncovered(ws: seq<Write>, id: nat, p: nat, v: u8)
    requires forall i :: 0 <= i < |ws| ==> !Covers(ws[i], id, p)
    ensures ByteAfter(ws, id, p, v) == v
  {
    if ws != [] {
      assert !Covers(ws[0], id, p);
      ByteAfterUncovered(ws[1..], id, p, v);
    }
  }

  lemma {:induction false} ByteAfterLast(ws: seq<Write>, id: nat, p: nat, v: u8, j: nat)
    requires j < |ws| && Covers(ws[j], id, p)
    requires forall i :: j < i < |ws| ==> !Covers(ws[i], id, p)
    ensures ByteAfter(ws, id, p, v) == ws[j].bytes[p - ws[j].at]
    decreases j
  {
    if j == 0 {
      forall i | 0 <= i < |ws[1..]| ensures !Covers(ws[1..][i], id, p) {
        assert ws[1..][i] == ws[i + 1];
      }
      ByteAfterUncovered(ws[1..], id, p, ws[0].bytes[p - ws[0].at]);
    } else {
      ByteAfterLast(ws[1..], id, p, if Covers(ws[0], id, p) then ws[0].bytes[p - ws[0].at] else v, j - 1);
    }
  }

  /** A replay succeeds exactly when every write stays inside an existing dataset. */
  lemma {:induction false} SucceedsExactly(d: Store, ws: seq<Write>)
    ensures Replay(d, ws).1.None? <==> forall i :: 0 <= i < |ws| ==> InBounds(d, ws[i])
    decreases |ws|
  {
    if ws != [] {
      if InBounds(d, ws[0]) {
        var d' := d[ws[0].id := Patch(d[ws[0].id], ws[0].at, ws[0].bytes)];
        SucceedsExactly(d', ws[1..]);
        assert forall w :: InBounds(d', w) <==> InBounds(d, w);
        assert forall i :: 0 < i < |ws| ==> ws[i] == ws[1..][i - 1];
      }
    }
  }

  lemma {:induction false} ByteAfterConcat(a: seq<Write>, b: seq<Write>, id: nat, p: nat, v: u8)
    ensures ByteAfter(a + b, id, p, v) == ByteAfter(b, id, p, ByteAfter(a, id, p, v))
  {
    if a == [] {
      Seqs.Empty(b);
    } else {
      assert (a + b)[1..] == a[1..] + b;
      ByteAfterConcat(a[1..], b, id, p, if Covers(a[0], id, p) then a[0].bytes[p - a[0].at] else v);
    }
  }

  // ----- entries

  /** Run i of the entry holds the byte at p of dataset id. */
  predicate Holds(e: Entry, targets: Targets, i: nat, id: nat, p: nat)
    requires i < |e.ranges|
  {
    targets(e.path) == Dataset(id) && e.ranges[i].0 <= p && p - e.ranges[i].0 < e.ranges[i].1
  }

  /** Run i logs byte x for p: the bytes of the runs are stored one run after the other. */
  predicate Logged(e: Entry, i: nat, p: nat, x: u8) {
    && i < |e.ranges| && e.ranges[i].0 <= p
    && var at: nat := TotalLength(e.ranges[..i]) + (p - e.ranges[i].0);
       at < |e.bytes| && e.bytes[at] == x
  }

  ghost predicate EntryHolds(e: Entry, targets: Targets, id: nat, p: nat) {
    exists i :: 0 <= i < |e.ranges| && Holds(e, targets, i, id, p)
  }

  ghost predicate LogHolds(log: seq<Entry>, targets: Targets, id: nat, p: nat) {
    exists k :: 0 <= k < |log| && EntryHolds(log[k], targets, id, p)
  }

  /** The path leads to a dataset, all runs lie inside it, and there are bytes for all of them. */
  predicate Sound(e: Entry, targets: Targets, d: Store) {
    && targets(e.path).Dataset? && targets(e.path).id in d && TotalLength(e.ranges) <= |e.bytes|
    && forall i :: 0 <= i < |e.ranges| ==> e.ranges[i].0 + e.ranges[i].1 <= |d[targets(e.path).id]|
  }

  predicate SoundLog(log: seq<Entry>, targets: Targets, d: Store) {
    forall k :: 0 <= k < |log| ==> Sound(log[k], targets, d)
  }

  ghost predicate SoundLogs(logs: seq<seq<Entry>>, targets: Targets, d: Store) {
    forall r :: 0 <= r < |logs| ==> SoundLog(logs[r], targets, d)
  }

  /** What stops the merge at an entry that is not sound. */
  function Fault(e: Entry, targets: Targets): MergeError {
    match targets(e.path)
    case Missing => NoDataset
    case NotDataset => NotADataset
    case Dataset(_) => OutOfBounds
  }

  /** Run i is the last of the entry to hold the byte. */
  ghost predicate LastRun(e: Entry, targets: Targets, id: nat, p: nat, i: nat) {
    && i < |e.ranges| && Holds(e, targets, i, id, p)
    && forall j :: i < j < |e.ranges| ==> !Holds(e, targets, j, id, p)
  }

  /** Run i of entry k is the last of the log to hold the byte. */
  ghost predicate LastEntry(log: seq<Entry>, targets: Targets, id: nat, p: nat, k: nat, i: nat) {
    && k < |log| && LastRun(log[k], targets, id, p, i)
    && forall m :: k < m < |log| ==> !EntryHolds(log[m], targets, id, p)
  }

  /** Run i of entry k of log r is the last of all to hold the byte. */
  ghost predicate LastWrite(logs: seq<seq<Entry>>, targets: Targets, id: nat, p: nat, r: nat, k: nat, i: nat) {
    && r < |logs| && k < |logs[r]| && LastEntry(logs[r], targets, id, p, k, i)
    && forall q :: r < q < |logs| ==> !LogHolds(logs[q], targets, id, p)
  }

  /** Run i of an entry becomes a write of the bytes behind those of the runs before it. */
  lemma {:induction false} LoggedRun(id: nat, ranges: seq<Range>, bytes: seq<u8>, src: nat, i: nat)
    requires src + TotalLength(ranges) <= |bytes| && i < |ranges|
    ensures |RangeWrites(id, ranges, bytes, src)| == |ranges|
    ensures var at: nat := src + TotalLength(ranges[..i]);
            at + ranges[i].1 <= |bytes|
            && RangeWrites(id, ranges, bytes, src)[i] == Write(id, ranges[i].0, bytes[at..at + ranges[i].1])
  {
    RunCount(id, ranges, bytes, src);
    if i > 0 {
      LoggedRun(id, ranges[1..], bytes, src + ranges[0].1, i - 1);
      assert ranges[..i][1..] == ranges[1..][..i - 1];
    }
  }

  lemma {:induction false} RunCount(id: nat, ranges: seq<Range>, bytes: seq<u8>, src: nat)
    requires src + TotalLength(ranges) <= |bytes|
    ensures |RangeWrites(id, ranges, bytes, src)| == |ranges|
  {
    if ranges != [] {
      RunCount(id, ranges[1..], bytes, src + ranges[0].1);
    }
  }

  lemma EntryCovers(e: Entry, targets: Targets, id: nat, p: nat)
    requires targets(e.path).Dataset? && TotalLength(e.ranges) <= |e.bytes|
    ensures var ws := EntryWrites(e, targets);
            |ws| == |e.ranges|
            && forall i :: 0 <= i < |ws| ==>
                 (Covers(ws[i], id, p) <==> Holds(e, targets, i, id, p))
                 && (Covers(ws[i], id, p) ==> Logged(e, i, p, ws[i].bytes[p - ws[i].at]))
  {
    hide RangeWrites, TotalLength;
    var to := targets(e.path).id;
    RunCount(to, e.ranges, e.bytes, 0);
    forall i | 0 <= i < |e.ranges|
      ensures var w := EntryWrites(e, targets)[i];
              (Covers(w, id, p) <==> Holds(e, targets, i, id, p))
              && (Covers(w, id, p) ==> Logged(e, i, p, w.bytes[p - w.at]))
    {
      LoggedRun(to, e.ranges, e.bytes, 0, i);
    }
  }

  /** What one entry leaves at p. */
  lemma EntryByte(e: Entry, targets: Targets, id: nat, p: nat, v: u8)
    requires targets(e.path).Dataset? && TotalLength(e.ranges) <= |e.bytes|
    ensures !EntryHolds(e, targets, id, p) ==> ByteAfter(EntryWrites(e, targets), id, p, v) == v
    ensures forall i: nat :: LastRun(e, targets, id, p, i) ==>
              Logged(e, i, p, ByteAfter(EntryWrites(e, targets), id, p, v))
  {
    hide EntryWrites, TotalLength, Covers, ByteAfter, Logged;
    EntryCovers(e, targets, id, p);
    var ws := EntryWrites(e, targets);
    if !EntryHolds(e, targets, id, p) {
      ByteAfterUncovered(ws, id, p, v);
    }
    forall i: nat | LastRun(e, targets, id, p, i) ensures Logged(e, i, p, ByteAfter(ws, id, p, v)) {
      ByteAfterLast(ws, id, p, v, i);
    }
  }

  /** What one log leaves at p. */
  lemma {:induction false} LogByte(log: seq<Entry>, targets: Targets, d: Store, id: nat, p: nat, v: u8)
    requires SoundLog(log, targets, d)
    ensures !LogHolds(log, targets, id, p) ==> ByteAfter(LogWrites(log, targets), id, p, v) == v
    ensures forall k: nat, i: nat :: LastEntry(log, targets, id, p, k, i) ==>
              Logged(log[k], i, p, ByteAfter(LogWrites(log, targets), id, p, v))
  {
    hide EntryWrites, TotalLength, ByteAfter, Logged, LastRun, EntryHolds, Sound;
    if log == [] {
      NothingWritten(id, p, v);
    } else {
      assert Sound(log[0], targets, d);
      SoundParts(log[0], targets, d);
      var v' := ByteAfter(EntryWrites(log[0], targets), id, p, v);
      EntryByte(log[0], targets, id, p, v);
      ByteAfterConcat(EntryWrites(log[0], targets), LogWrites(log[1..], targets), id, p, v);
      LogByte(log[1..], targets, d, id, p, v');
      RestHolds(log, targets, id, p);
      forall k: nat, i: nat | LastEntry(log, targets, id, p, k, i)
        ensures Logged(log[k], i, p, ByteAfter(LogWrites(log, targets), id, p, v))
      {
        if k > 0 {
          assert LastEntry(log[1..], targets, id, p, k - 1, i);
        }
      }
    }
  }

  lemma NothingWritten(id: nat, p: nat, v: u8)
    ensures ByteAfter([], id, p, v) == v
  {
  }

  lemma SoundParts(e: Entry, targets: Targets, d: Store)
    requires Sound(e, targets, d)
    ensures targets(e.path).Dataset? && TotalLength(e.ranges) <= |e.bytes|
  {
  }

  lemma RestHolds(log: seq<Entry>, targets: Targets, id: nat, p: nat)
    requires log != []
    ensures LogHolds(log, targets, id, p) <==> EntryHolds(log[0], targets, id, p) || LogHolds(log[1..], targets, id, p)
  {
    hide EntryHolds;
    if LogHolds(log[1..], targets, id, p) {
      var k :| 0 <= k < |log[1..]| && EntryHolds(log[1..][k], targets, id, p);
      assert EntryHolds(log[k + 1], targets, id, p);
    }
    if LogHolds(log, targets, id, p) && !EntryHolds(log[0], targets, id, p) {
      var k :| 0 <= k < |log| && EntryHolds(log[k], targets, id, p);
      assert log[k] == log[1..][k - 1];
    }
  }

  function LogsWrites(logs: seq<seq<Entry>>, targets: Targets): (blocks: seq<seq<Write>>)
    ensures |blocks| == |logs|
  {
    seq(|logs|, r requires 0 <= r < |logs| => LogWrites(logs[r], targets))
  }

  /** What all logs leave at p. */
  lemma {:induction false} LogsByte(logs: seq<seq<Entry>>, targets: Targets, d: Store, id: nat, p: nat, v: u8)
    requires SoundLogs(logs, targets, d)
    ensures (forall r :: 0 <= r < |logs| ==> !LogHolds(logs[r], targets, id, p)) ==>
              ByteAfter(Flatten(LogsWrites(logs, targets)), id, p, v) == v
    ensures forall r: nat, k: nat, i: nat :: LastWrite(logs, targets, id, p, r, k, i) ==>
              Logged(logs[r][k], i, p, ByteAfter(Flatten(LogsWrites(logs, targets)), id, p, v))
  {
    hide LogWrites, ByteAfter, Logged, LastEntry, LogHolds, SoundLog;
    if logs == [] {
      NothingWritten(id, p, v);
    } else {
      var rest := Flatten(LogsWrites(logs[1..], targets));
      var v' := ByteAfter(LogWrites(logs[0], targets), id, p, v);
      assert SoundLog(logs[0], targets, d);
      assert LogsWrites(logs, targets)[1..] == LogsWrites(logs[1..], targets);
      LogByte(logs[0], targets, d, id, p, v);
      ByteAfterConcat(LogWrites(logs[0], targets), rest, id, p, v);
      LogsByte(logs[1..], targets, d, id, p, v');
      forall r: nat, k: nat, i: nat | LastWrite(logs, targets, id, p, r, k, i)
        ensures Logged(logs[r][k], i, p, ByteAfter(Flatten(LogsWrites(logs, targets)), id, p, v))
      {
        if r > 0 {
          assert LastWrite(logs[1..], targets, id, p, r - 1, k, i);
        } else {
          assert forall q :: 0 <= q < |logs[1..]| ==> logs[1..][q] == logs[q + 1];
        }
      }
    }
  }

  /** After a successful merge each byte is the one logged by the last run that holds it, in rank, log
      and run order, or the byte that was there where no run holds it. */
  ghost predicate Merged(before: Store, logs: seq<seq<Entry>>, targets: Targets, after: Store) {
    && after.Keys == before.Keys
    && forall id, p: nat :: id in before && p < |before[id]| ==> MergedAt(before, logs, targets, after, id, p)
  }

  ghost predicate MergedAt(before: Store, logs: seq<seq<Entry>>, targets: Targets, after: Store, id: nat, p: nat)
    requires id in before && id in after && p < |before[id]|
  {
    && |after[id]| == |before[id]|
    && ((forall r :: 0 <= r < |logs| ==> !LogHolds(logs[r], targets, id, p)) ==> after[id][p] == before[id][p])
    && forall r: nat, k: nat, i: nat :: LastWrite(logs, targets, id, p, r, k, i) ==> Logged(logs[r][k], i, p, after[id][p])
  }

  lemma LastWriteWins(d: Store, logs: seq<seq<Entry>>, targets: Targets)
    requires SoundLogs(logs, targets, d) && Replay(d, Flatten(LogsWrites(logs, targets))).1.None?
    ensures Merged(d, logs, targets, Replay(d, Flatten(LogsWrites(logs, targets))).0)
  {
    hide Flatten, LogsWrites, Replay, LastWrite, LogHolds, ByteAfter, SoundLogs;
    var ws := Flatten(LogsWrites(logs, targets));
    ReplayKeepsShape(d, ws);
    forall id, p: nat | id in d && p < |d[id]| ensures MergedAt(d, logs, targets, Replay(d, ws).0, id, p) {
      ReplayIsByteAfter(d, ws, id, p);
      LogsByte(logs, targets, d, id, p, d[id][p]);
    }
  }

  // ----- what stops a merge

  ghost predicate SameShape(d: Store, t: Store) {
    t.Keys == d.Keys && forall id :: id in d ==> |t[id]| == |d[id]|
  }

  lemma SoundInShape(e: Entry, targets: Targets, d: Store, t: Store)
    requires SameShape(d, t)
    ensures Sound(e, targets, d) <==> Sound(e, targets, t)
  {
  }

  lemma {:induction false} AllWritten(id: nat, ranges: seq<Range>, bytes: seq<u8>, src: nat)
    requires src <= |bytes| && forall i :: 0 <= i < |RangeWrites(id, ranges, bytes, src)| ==> RangeWrites(id, ranges, bytes, src)[i].Write?
    ensures src + TotalLength(ranges) <= |bytes|
  {
    if ranges != [] {
      assert RangeWrites(id, ranges, bytes, src)[0].Write?;
      var rest := RangeWrites(id, ranges[1..], bytes, src + ranges[0].1);
      assert forall i :: 0 <= i < |rest| ==> rest[i] == RangeWrites(id, ranges, bytes, src)[i + 1];
      AllWritten(id, ranges[1..], bytes, src + ranges[0].1);
    }
  }

  lemma {:induction false} OnlyOutOfBounds(d: Store, id: nat, ranges: seq<Range>, bytes: seq<u8>, src: nat)
    ensures var r := Replay(d, RangeWrites(id, ranges, bytes, src)).1; r.Some? ==> r.value == OutOfBounds
    decreases |ranges|
  {
    if ranges != [] && src + ranges[0].1 <= |bytes| {
      var w := Write(id, ranges[0].0, bytes[src..src + ranges[0].1]);
      Seqs.HeadOf(w, RangeWrites(id, ranges[1..], bytes, src + ranges[0].1));
      if InBounds(d, w) {
        OnlyOutOfBounds(d[id := Patch(d[id], w.at, w.bytes)], id, ranges[1..], bytes, src + ranges[0].1);
      }
    }
  }

  /** An entry is replayed exactly when it is sound. */
  lemma EntryStops(e: Entry, targets: Targets, d: Store)
    requires targets(e.path).Dataset? ==> targets(e.path).id in d
    ensures Replay(d, EntryWrites(e, targets)).1 == if Sound(e, targets, d) then None else Some(Fault(e, targets))
  {
    hide Replay, TotalLength, RangeWrites;
    match targets(e.path) {
      case Missing => ReplayBad(d, NoDataset);
      case NotDataset => ReplayBad(d, NotADataset);
      case Dataset(id) =>
        var ws := RangeWrites(id, e.ranges, e.bytes, 0);
        OnlyOutOfBounds(d, id, e.ranges, e.bytes, 0);
        SucceedsExactly(d, ws);
        if TotalLength(e.ranges) <= |e.bytes| {
          RunCount(id, e.ranges, e.bytes, 0);
          forall i | 0 <= i < |ws| ensures InBounds(d, ws[i]) <==> e.ranges[i].0 + e.ranges[i].1 <= |d[id]| {
            LoggedRun(id, e.ranges, e.bytes, 0, i);
          }
        } else if forall i :: 0 <= i < |ws| ==> InBounds(d, ws[i]) {
          AllWritten(id, e.ranges, e.bytes, 0);
        }
    }
  }

  /** Paths lead to datasets that exist. */
  ghost predicate Resolvable(targets: Targets, data: Store) {
    forall path :: targets(path).Dataset? ==> targets(path).id in data
  }

  /** The first entry of the log that is not sound is at fault. */
  ghost predicate LogStops(log: seq<Entry>, targets: Targets, d: Store, error: MergeError) {
    exists k :: 0 <= k < |log| && SoundLog(log[..k], targets, d) && !Sound(log[k], targets, d) && error == Fault(log[k], targets)
  }

  lemma {:induction false} LogRuns(log: seq<Entry>, targets: Targets, d: Store)
    requires Resolvable(targets, d)
    ensures match Replay(d, LogWrites(log, targets)).1
            case None => SoundLog(log, targets, d)
            case Some(error) => LogStops(log, targets, d, error)
    decreases |log|
  {
    hide Replay, EntryWrites, Sound, Resolvable;
    ReplayNothing(d);
    if log != [] {
      assert targets(log[0].path).Dataset? ==> targets(log[0].path).id in d by { TargetExists(targets, d, log[0].path); }
      EntryStops(log[0], targets, d);
      ReplayConcat(d, EntryWrites(log[0], targets), LogWrites(log[1..], targets));
      if Sound(log[0], targets, d) {
        var t := Replay(d, EntryWrites(log[0], targets)).0;
        ReplayKeepsShape(d, EntryWrites(log[0], targets));
        StillResolvable(targets, d, t);
        LogRuns(log[1..], targets, t);
        LogRestRuns(log, targets, d, t, Replay(t, LogWrites(log[1..], targets)).1);
      } else {
        assert log[..0] == [];
      }
    }
  }

  lemma TargetExists(targets: Targets, d: Store, path: seq<u8>)
    requires Resolvable(targets, d)
    ensures targets(path).Dataset? ==> targets(path).id in d
  {
  }

  lemma StillResolvable(targets: Targets, d: Store, t: Store)
    requires Resolvable(targets, d) && t.Keys == d.Keys
    ensures Resolvable(targets, t)
  {
  }

  lemma LogRestRuns(log: seq<Entry>, targets: Targets, d: Store, t: Store, failed: Option<MergeError>)
    requires log != [] && SameShape(d, t) && Sound(log[0], targets, d)
    requires if failed.None? then SoundLog(log[1..], targets, t) else LogStops(log[1..], targets, t, failed.value)
    ensures if failed.None? then SoundLog(log, targets, d) else LogStops(log, targets, d, failed.value)
  {
    hide Sound, SameShape;
    forall k | 0 <= k < |log| ensures Sound(log[k], targets, d) <==> Sound(log[k], targets, t) {
      SoundInShape(log[k], targets, d, t);
    }
    if failed.None? {
      forall k | 0 < k < |log| ensures Sound(log[k], targets, d) {
        assert Sound(log[1..][k - 1], targets, t);
      }
    } else {
      var k :| 0 <= k < |log[1..]| && SoundLog(log[1..][..k], targets, t) && !Sound(log[1..][k], targets, t)
               && failed.value == Fault(log[1..][k], targets);
      forall m | 0 < m < k + 1 ensures Sound(log[m], targets, d) {
        assert log[m] == log[1..][..k][m - 1];
      }
      assert log[k + 1] == log[1..][k];
      assert SoundLog(log[..k + 1], targets, d);
    }
  }

  // ----- the gathered logs

  predicate SoundBlob(blob: seq<u8>, targets: Targets, d: Store) {
    DecodeLog(blob).Success? && SoundLog(DecodeLog(blob).value, targets, d)
  }

  ghost predicate BlobStops(blob: seq<u8>, targets: Targets, d: Store, error: MergeError) {
    match DecodeLog(blob)
    case Failure(_) => error == BadLog
    case Success(log) => LogStops(log, targets, d, error)
  }

  /** The first log that cannot be read or replayed stops the merge. */
  ghost predicate MergeStops(blobs: seq<seq<u8>>, targets: Targets, d: Store, error: MergeError) {
    exists r :: 0 <= r < |blobs| && AllSound(blobs[..r], targets, d) && BlobStops(blobs[r], targets, d, error)
  }

  ghost predicate AllSound(blobs: seq<seq<u8>>, targets: Targets, d: Store) {
    forall r :: 0 <= r < |blobs| ==> SoundBlob(blobs[r], targets, d)
  }

  lemma BlobRuns(blob: seq<u8>, targets: Targets, d: Store)
    requires Resolvable(targets, d)
    ensures match Replay(d, BlobWrites(blob, targets)).1
            case None => SoundBlob(blob, targets, d)
            case Some(error) => BlobStops(blob, targets, d, error)
  {
    hide Replay, LogWrites, Resolvable, SoundLog, LogStops, DecodeLog;
    match DecodeLog(blob) {
      case Failure(_) => ReplayBad(d, BadLog);
      case Success(log) => LogRuns(log, targets, d);
    }
  }

  lemma SoundLogInShape(log: seq<Entry>, targets: Targets, d: Store, t: Store)
    requires SameShape(d, t)
    ensures SoundLog(log, targets, d) <==> SoundLog(log, targets, t)
  {
    hide Sound, SameShape;
    forall k | 0 <= k < |log| ensures Sound(log[k], targets, d) <==> Sound(log[k], targets, t) {
      SoundInShape(log[k], targets, d, t);
    }
  }

  lemma StopsInShape(log: seq<Entry>, targets: Targets, d: Store, t: Store, error: MergeError)
    requires SameShape(d, t) && LogStops(log, targets, t, error)
    ensures LogStops(log, targets, d, error)
  {
    hide Sound, SameShape, SoundLog;
    var k :| 0 <= k < |log| && SoundLog(log[..k], targets, t) && !Sound(log[k], targets, t) && error == Fault(log[k], targets);
    SoundLogInShape(log[..k], targets, d, t);
    SoundInShape(log[k], targets, d, t);
  }

  lemma {:induction false} MergeRuns(blobs: seq<seq<u8>>, targets: Targets, d: Store)
    requires Resolvable(targets, d)
    ensures match Replay(d, Flatten(BlobsWrites(blobs, targets))).1
            case None => AllSound(blobs, targets, d)
            case Some(error) => MergeStops(blobs, targets, d, error)
    decreases |blobs|
  {
    hide Replay, BlobWrites, Resolvable, SoundBlob, BlobStops;
    ReplayNothing(d);
    if blobs != [] {
      var first := BlobWrites(blobs[0], targets);
      var rest := Flatten(BlobsWrites(blobs[1..], targets));
      assert BlobsWrites(blobs, targets)[1..] == BlobsWrites(blobs[1..], targets);
      BlobRuns(blobs[0], targets, d);
      ReplayConcat(d, first, rest);
      if Replay(d, first).1.None? {
        var t := Replay(d, first).0;
        ReplayKeepsShape(d, first);
        StillResolvable(targets, d, t);
        MergeRuns(blobs[1..], targets, t);
        RestRuns(blobs, targets, d, t, Replay(t, rest).1);
      } else {
        assert blobs[..0] == [];
      }
    }
  }

  lemma BlobInShape(blob: seq<u8>, targets: Targets, d: Store, t: Store)
    requires SameShape(d, t)
    ensures SoundBlob(blob, targets, d) <==> SoundBlob(blob, targets, t)
    ensures forall error :: BlobStops(blob, targets, t, error) ==> BlobStops(blob, targets, d, error)
  {
    hide SoundLog, LogStops, SameShape, DecodeLog;
    if DecodeLog(blob).Success? {
      SoundLogInShape(DecodeLog(blob).value, targets, d, t);
      forall error | LogStops(DecodeLog(blob).value, targets, t, error) ensures LogStops(DecodeLog(blob).value, targets, d, error) {
        StopsInShape(DecodeLog(blob).value, targets, d, t, error);
      }
    }
  }

  lemma RestRuns(blobs: seq<seq<u8>>, targets: Targets, d: Store, t: Store, failed: Option<MergeError>)
    requires blobs != [] && SameShape(d, t) && SoundBlob(blobs[0], targets, d)
    requires if failed.None? then AllSound(blobs[1..], targets, t) else MergeStops(blobs[1..], targets, t, failed.value)
    ensures if failed.None? then AllSound(blobs, targets, d) else MergeStops(blobs, targets, d, failed.value)
  {
    hide SoundBlob, BlobStops, SameShape;
    forall r | 0 <= r < |blobs|
      ensures SoundBlob(blobs[r], targets, d) <==> SoundBlob(blobs[r], targets, t)
      ensures failed.Some? && BlobStops(blobs[r], targets, t, failed.value) ==> BlobStops(blobs[r], targets, d, failed.value)
    {
      BlobInShape(blobs[r], targets, d, t);
    }
    if failed.None? {
      forall r | 0 < r < |blobs| ensures SoundBlob(blobs[r], targets, d) {
        assert SoundBlob(blobs[1..][r - 1], targets, t);
      }
    } else {
      var r :| 0 <= r < |blobs[1..]| && AllSound(blobs[1..][..r], targets, t) && BlobStops(blobs[1..][r], targets, t, failed.value);
      forall m | 0 < m < r + 1 ensures SoundBlob(blobs[m], targets, d) {
        assert blobs[m] == blobs[1..][..r][m - 1];
      }
      assert blobs[r + 1] == blobs[1..][r];
      assert AllSound(blobs[..r + 1], targets, d);
    }
  }

  /** The logs in the blobs. */
  function Decoded(blobs: seq<seq<u8>>): (logs: seq<seq<Entry>>)
    requires forall r :: 0 <= r < |blobs| ==> DecodeLog(blobs[r]).Success?
    ensures |logs| == |blobs|
  {
    seq(|blobs|, r requires 0 <= r < |blobs| => DecodeLog(blobs[r]).value)
  }

  ghost predicate BlobsMerged(before: Store, blobs: seq<seq<u8>>, targets: Targets, after: Store) {
    AllSound(blobs, targets, before) && Merged(before, Decoded(blobs), targets, after)
  }

  /** A merge that is not stopped has read every log, found every entry sound, and leaves the last
      logged bytes. */
  lemma MergeMeans(blobs: seq<seq<u8>>, targets: Targets, d: Store)
    requires Resolvable(targets, d)
    ensures var (t, failed) := Replay(d, Flatten(BlobsWrites(blobs, targets)));
            if failed.None? then BlobsMerged(d, blobs, targets, t) else MergeStops(blobs, targets, d, failed.value)
  {
    hide Replay, Flatten, Resolvable, DecodeLog, LogWrites, SoundLog, Merged, MergeStops;
    MergeRuns(blobs, targets, d);
    if Replay(d, Flatten(BlobsWrites(blobs, targets))).1.None? {
      var logs := Decoded(blobs);
      forall r | 0 <= r < |logs| ensures SoundLog(logs[r], targets, d) && BlobWrites(blobs[r], targets) == LogWrites(logs[r], targets) {
        assert SoundBlob(blobs[r], targets, d);
      }
      assert BlobsWrites(blobs, targets) == LogsWrites(logs, targets);
      LastWriteWins(d, logs, targets);
    }
  }

  /** The first entry of the logs that is not sound stops the merge. */
  ghost predicate LogsStop(logs: seq<seq<Entry>>, targets: Targets, d: Store, error: MergeError) {
    exists r :: 0 <= r < |logs| && SoundLogs(logs[..r], targets, d) && LogStops(logs[r], targets, d, error)
  }

  /** The same for logs that come through their encoding. */
  lemma LogsMean(blobs: seq<seq<u8>>, logs: seq<seq<Entry>>, targets: Targets, d: Store)
    requires |blobs| == |logs| && forall r :: 0 <= r < |logs| ==> DecodeLog(blobs[r]) == Success(logs[r])
    ensures forall t :: BlobsMerged(d, blobs, targets, t) ==> SoundLogs(logs, targets, d) && Merged(d, logs, targets, t)
    ensures forall error :: MergeStops(blobs, targets, d, error) ==> LogsStop(logs, targets, d, error)
  {
    hide DecodeLog, SoundLog, LogStops, Merged;
    assert Decoded(blobs) == logs;
    forall t | BlobsMerged(d, blobs, targets, t) ensures SoundLogs(logs, targets, d) {
      forall r | 0 <= r < |logs| ensures SoundLog(logs[r], targets, d) {
        assert SoundBlob(blobs[r], targets, d);
      }
    }
    forall error | MergeStops(blobs, targets, d, error) ensures LogsStop(logs, targets, d, error) {
      var r :| 0 <= r < |blobs| && AllSound(blobs[..r], targets, d) && BlobStops(blobs[r], targets, d, error);
      forall q | 0 <= q < r ensures SoundLog(logs[..r][q], targets, d) {
        assert SoundBlob(blobs[..r][q], targets, d);
      }
    }
  }
}
