/** A shared file from the logged writes to the merged data: the ranks name datasets by their paths,
    the logs travel through a gather, and rank 0 looks the paths up and replays the runs. */
module CollectiveClose {
  import opened Wrappers
  import opened Bytes
  import opened Frames
  import opened Collectives
  import opened CollectiveRuns
  import opened WriteLog
  import opened MergeSpec
  import opened MergeBytes
  import opened Merge
  import opened MergeOrder
  import Paths
  import PathSearch
  import Seqs

  /** How path text is stored as bytes. */
  datatype Encoding = Encoding(bytes: string -> seq<u8>, text: seq<u8> -> string) {
    ghost predicate Exact() {
      forall path :: text(bytes(path)) == path
    }
  }

  /** Looking a path up in rank 0's objects; soft links nest at most `depth` deep. */
  function PathTargets(s: Paths.FileState, datasets: set<nat>, encoding: Encoding, depth: nat): Targets {
    path =>
      match Paths.Resolved(s, s.root, encoding.text(path), depth)
      case None => Missing
      case Some(id) => if id in datasets then Target.Dataset(id) else NotDataset
  }

  // ----- logging a write

  /** What a container's data belongs to. */
  datatype Payload = DatasetData(id: nat) | AttributeData

  datatype LogFailure = VlenData | NoPath

  /** The bytes of the runs, taken from the converted data one run after the other. */
  method RunBytes(ranges: seq<Range>, converted: seq<u8>) returns (bytes: seq<u8>)
    requires TotalLength(ranges) <= |converted|
    ensures bytes == converted[..TotalLength(ranges)]
  {
    if |ranges| == 1 && ranges[0] == (0, |converted|) {
      return converted;
    }
    bytes := [];
    var src: nat := 0;
    for i := 0 to |ranges|
      invariant src + TotalLength(ranges[i..]) == TotalLength(ranges)
      invariant bytes == converted[..src]
    {
      var l := ranges[i].1;
      assert ranges[i..][1..] == ranges[i + 1..];
      Seqs.SplitAt(converted[..src + l], src);
      bytes := bytes + converted[src..src + l];
      src := src + l;
    }
  }

  /** Whether a write goes into the log: not on attributes, in files of one process, and on rank 0. */
  ghost predicate Logs(mpi: MpiFile?, payload: Payload) {
    mpi != null && payload.DatasetData? && mpi.rank != 0
  }

  /** Logs one write. Variable-length data is refused, and so is a dataset no hard link reaches. What is
      logged are the runs and their converted bytes, under a path that leads rank 0 back to the dataset. */
  method LogWrite(mpi: MpiFile?, payload: Payload, s: Paths.FileState, ranges: seq<Range>, converted: seq<u8>, vlen: bool,
                  encoding: Encoding, ghost datasets: set<nat>)
    returns (logged: Result<bool, LogFailure>)
    requires Paths.WellNamed(s) && encoding.Exact() && TotalLength(ranges) == |converted|
    requires payload.DatasetData? ==> payload.id in datasets
    modifies if mpi == null then {} else {mpi}
    ensures !Logs(mpi, payload) ==> logged == Success(false) && (mpi != null ==> mpi.log == old(mpi.log))
    ensures Logs(mpi, payload) && vlen ==> logged == Failure(VlenData) && mpi.log == old(mpi.log)
    ensures Logs(mpi, payload) && !vlen && !Paths.Reachable(s, payload.id) ==> logged == Failure(NoPath) && mpi.log == old(mpi.log)
    ensures Logs(mpi, payload) && !vlen && Paths.Reachable(s, payload.id) ==>
              && logged == Success(true) && |mpi.log| == |old(mpi.log)| + 1 && old(mpi.log) <= mpi.log
              && var e := mpi.log[|mpi.log| - 1];
                 && e.ranges == ranges && e.bytes == converted
                 && forall depth: nat :: PathTargets(s, datasets, encoding, depth)(e.path) == Target.Dataset(payload.id)
  {
    hide Paths.Resolved, Paths.Reachable;
    if mpi == null || payload.AttributeData? || mpi.rank == 0 {
      return Success(false);
    }
    if vlen {
      return Failure(VlenData);
    }
    var path, _ := PathSearch.PathOf(s, payload.id);
    if path.None? {
      return Failure(NoPath);
    }
    var bytes := RunBytes(ranges, converted);
    mpi.log := mpi.log + [Entry(encoding.bytes(path.value), ranges, bytes)];
    assert bytes == converted;
    logged := Success(true);
  }

  // ----- from the logs to the merged data

  ghost predicate Sendable(log: seq<Entry>) {
    |log| < TWO_64 && ShortPaths(log) && forall i :: 0 <= i < |log| ==> Fits(log[i])
  }

  /** Call k of the script gathers the encoded logs on rank 0. */
  ghost predicate GathersLogs(w: World, k: nat, logs: seq<seq<Entry>>)
    requires w.Valid()
  {
    && k < |w.script| && w.script[k] == Gather(0) && |logs| == w.n
    && (forall r :: 0 <= r < w.n ==> Sendable(logs[r]) && w.input[k][r] == EncodeLog(logs[r]))
  }

  /** What rank 0 gathers in any run stands for the logs of all ranks. */
  lemma GatherBringsLogs(w: World, run: seq<State>, i: nat, k: nat, logs: seq<seq<Entry>>, targets: Targets)
    requires w.Valid() && Run(w, run) && i < |run| && GathersLogs(w, k, logs)
    ensures |run[i].leaves| == w.n
    ensures k < |ResultsOf(run[i], 0)| ==>
              var o := ResultsOf(run[i], 0)[k];
              && o.Gathered? && o.parts.Some? && |o.parts.value| == w.n
              && BlobsWrites(o.parts.value[1..], targets) == LogsWrites(logs[1..], targets)
              && forall r :: 0 <= r < w.n - 1 ==> DecodeLog(o.parts.value[1..][r]) == Success(logs[1..][r])
  {
    hide Run, EncodeLog, DecodeLog, LogWrites, BlobWrites, ShortPaths, Fits;
    ResultsAreMeaning(w, run, i, 0, k);
    var others := logs[1..];
    forall r | 0 <= r < |others|
      ensures Sendable(others[r]) && w.input[k][1..][r] == EncodeLog(others[r]) && DecodeLog(w.input[k][1..][r]) == Success(others[r])
    {
      assert others[r] == logs[r + 1];
      LogRoundTrip(others[r]);
    }
    LogsGathered(others, targets);
    assert w.input[k][1..] == seq(|others|, r requires 0 <= r < |others| => EncodeLog(others[r]));
  }

  lemma LogsGathered(logs: seq<seq<Entry>>, targets: Targets)
    requires forall r :: 0 <= r < |logs| ==> Sendable(logs[r])
    ensures BlobsWrites(seq(|logs|, r requires 0 <= r < |logs| => EncodeLog(logs[r])), targets) == LogsWrites(logs, targets)
  {
    hide EncodeLog, LogWrites, BlobWrites, ShortPaths, Fits;
    GatheredLogs(logs, targets);
  }

  /** The close on rank 0, in any run that has got there: the file ends as if one process had made rank
      0's own writes and then those of every other rank in turn, stopping at the first that fails. */
  method CloseOnRoot(mpi: MpiFile, file: FileModel, outcome: Outcome, ghost w: World, ghost run: seq<State>,
                     ghost i: nat, ghost k: nat, ghost logs: seq<seq<Entry>>, ghost start: Store, ghost own: seq<Write>)
    returns (writes: Result<bool, MergeError>)
    requires mpi.rank == 0 && Resolvable(file.targets, file.data)
    requires w.Valid() && Run(w, run) && i < |run| && GathersLogs(w, k, logs)
    requires |run[i].leaves| == w.n && k < |ResultsOf(run[i], 0)| && outcome == ResultsOf(run[i], 0)[k]
    requires Replay(start, own) == (file.data, None)
    modifies mpi`log, file
    ensures var (d, failed) := Replay(start, own + Flatten(LogsWrites(logs[1..], file.targets)));
            file.data == d && writes == if failed.None? then Success(true) else Failure(failed.value)
    ensures match writes
            case Success(_) => SoundLogs(logs[1..], file.targets, old(file.data)) && Merged(old(file.data), logs[1..], file.targets, file.data)
            case Failure(error) => LogsStop(logs[1..], file.targets, old(file.data), error)
  {
    hide Run, Replay, Flatten, BlobsWrites, LogsWrites, Sendable, EncodeLog, DecodeLog, BlobsMerged, MergeStops, LogsStop, Merged, SoundLogs;
    GatherBringsLogs(w, run, i, k, logs, file.targets);
    LogsMean(outcome.parts.value[1..], logs[1..], file.targets, file.data);
    ReplayConcat(start, own, Flatten(LogsWrites(logs[1..], file.targets)));
    writes := mpi.CollectiveMerge(file, outcome.parts);
  }

  /** No byte is written by two ranks: not by two logs, and not by rank 0 and a log. */
  ghost predicate OneWriter(own: seq<Write>, logs: seq<seq<Entry>>, targets: Targets) {
    && (forall r, q, id, p: nat :: 0 <= r < q < |logs| && LogHolds(logs[r], targets, id, p) ==> !LogHolds(logs[q], targets, id, p))
    && forall r, id, p: nat :: 0 <= r < |logs| && Touches(own, id, p) ==> !LogHolds(logs[r], targets, id, p)
  }

  lemma {:induction false} LogTouches(log: seq<Entry>, targets: Targets, d: Store, id: nat, p: nat)
    requires SoundLog(log, targets, d)
    ensures Touches(LogWrites(log, targets), id, p) <==> LogHolds(log, targets, id, p)
  {
    hide EntryWrites, Sound, Covers, EntryHolds;
    if log != [] {
      assert Sound(log[0], targets, d);
      SoundParts(log[0], targets, d);
      EntryTouches(log[0], targets, id, p);
      LogTouches(log[1..], targets, d, id, p);
      RestHolds(log, targets, id, p);
      TouchesConcat(EntryWrites(log[0], targets), LogWrites(log[1..], targets), id, p);
    }
  }

  lemma EntryTouches(e: Entry, targets: Targets, id: nat, p: nat)
    requires targets(e.path).Dataset? && TotalLength(e.ranges) <= |e.bytes|
    ensures Touches(EntryWrites(e, targets), id, p) <==> EntryHolds(e, targets, id, p)
  {
    hide EntryWrites, Covers, Logged;
    EntryCovers(e, targets, id, p);
  }

  lemma TouchesConcat(a: seq<Write>, b: seq<Write>, id: nat, p: nat)
    ensures Touches(a + b, id, p) <==> Touches(a, id, p) || Touches(b, id, p)
  {
    hide Covers;
    if Touches(a, id, p) {
      var i :| 0 <= i < |a| && Covers(a[i], id, p);
      assert Covers((a + b)[i], id, p);
    }
    if Touches(b, id, p) {
      var i :| 0 <= i < |b| && Covers(b[i], id, p);
      assert Covers((a + b)[|a| + i], id, p);
    }
  }

  lemma BlocksDisjoint(own: seq<Write>, logs: seq<seq<Entry>>, targets: Targets, d: Store)
    requires OneWriter(own, logs, targets) && SoundLogs(logs, targets, d)
    ensures Disjoint([own] + LogsWrites(logs, targets))
  {
    hide LogWrites, Touches, LogHolds, SoundLog;
    var blocks := [own] + LogsWrites(logs, targets);
    forall b, c, id, p | 0 <= b < c < |blocks| && Touches(blocks[b], id, p) ensures !Touches(blocks[c], id, p) {
      if p >= 0 && id >= 0 {
        assert SoundLog(logs[c - 1], targets, d);
        LogTouches(logs[c - 1], targets, d, id, p);
        if b > 0 {
          assert SoundLog(logs[b - 1], targets, d);
          LogTouches(logs[b - 1], targets, d, id, p);
        }
      }
    }
  }

  lemma LogInBounds(log: seq<Entry>, targets: Targets, d: Store)
    requires Resolvable(targets, d) && SoundLog(log, targets, d)
    ensures forall x :: x in LogWrites(log, targets) ==> InBounds(d, x)
  {
    hide Replay, LogWrites, InBounds, Sound, Resolvable;
    LogRuns(log, targets, d);
    NeverStops(log, targets, d);
    SucceedsByMembers(d, LogWrites(log, targets));
  }

  lemma NeverStops(log: seq<Entry>, targets: Targets, d: Store)
    requires SoundLog(log, targets, d)
    ensures forall error :: !LogStops(log, targets, d, error)
  {
    hide Sound;
  }

  lemma BlockOf(logs: seq<seq<Entry>>, targets: Targets, r: nat)
    requires r < |logs|
    ensures LogsWrites(logs, targets)[r] == LogWrites(logs[r], targets)
  {
    hide LogWrites;
  }

  /** The byte at p of dataset id in `end` is what rank 0's own writes alone make of it. */
  ghost predicate HasByte(start: Store, end: Store, block: seq<Write>, id: nat, p: nat) {
    && id in start && p < |start[id]| && id in end && p < |end[id]|
    && end[id][p] == ByteAfter(block, id, p, start[id][p])
  }

  /** The byte at p of dataset id in `end` is the one that run i of the entry logs. */
  ghost predicate HasLogged(end: Store, e: Entry, id: nat, p: nat, i: nat) {
    id in end && p < |end[id]| && Logged(e, i, p, end[id][p])
  }

  /** When no byte is written by two ranks and all runs lie inside their datasets, the close succeeds,
      whatever the order of the ranks, and every byte is the last one its only writer gave it. */
  lemma CloseKeepsEveryWrite(start: Store, own: seq<Write>, logs: seq<seq<Entry>>, targets: Targets, perm: seq<nat>)
    requires Resolvable(targets, start) && OneWriter(own, logs, targets) && SoundLogs(logs, targets, start)
    requires (forall x :: x in own ==> InBounds(start, x)) && |perm| == |logs| + 1 && IsPermutation(perm)
    ensures var blocks := [own] + LogsWrites(logs, targets);
            && Replay(start, own + Flatten(LogsWrites(logs, targets))) == Replay(start, Flatten(Reordered(blocks, perm)))
            && Replay(start, Flatten(Reordered(blocks, perm))).1.None?
    ensures var end := Replay(start, own + Flatten(LogsWrites(logs, targets))).0;
            && (forall id: nat, p: nat :: Touches(own, id, p) ==> HasByte(start, end, own, id, p))
            && forall r: nat, id: nat, p: nat, k: nat, i: nat ::
                 r < |logs| && LastEntry(logs[r], targets, id, p, k, i) ==> k < |logs[r]| && HasLogged(end, logs[r][k], id, p, i)
  {
    hide Replay, LogsWrites, Disjoint, Reordered, IsPermutation, Resolvable, OneWriter, SoundLog, InBounds, Touches, LastEntry;
    var blocks := [own] + LogsWrites(logs, targets);
    assert blocks[1..] == LogsWrites(logs, targets);
    assert Flatten(blocks) == own + Flatten(blocks[1..]);
    BlocksDisjoint(own, logs, targets, start);
    SucceedsByMembers(start, Flatten(blocks));
    forall b, x | 0 <= b < |blocks| && x in blocks[b] ensures InBounds(start, x) {
      BlockInBounds(own, logs, targets, start, b, x);
    }
    forall x | x in Flatten(blocks) ensures InBounds(start, x) {
      InFlatten(blocks, x);
    }
    RankOrderIrrelevant(start, blocks, perm);
    var end := Replay(start, Flatten(blocks)).0;
    forall id: nat, p: nat | Touches(own, id, p) ensures HasByte(start, end, own, id, p) {
      OnlyWriter(start, blocks, 0, id, p);
    }
    forall r: nat, id: nat, p: nat, k: nat, i: nat | r < |logs| && LastEntry(logs[r], targets, id, p, k, i)
      ensures k < |logs[r]| && HasLogged(end, logs[r][k], id, p, i)
    {
      BlockOf(logs, targets, r);
      LogKept(start, blocks, logs, targets, r, id, p, k, i);
    }
  }

  lemma BlockInBounds(own: seq<Write>, logs: seq<seq<Entry>>, targets: Targets, d: Store, b: nat, x: Write)
    requires Resolvable(targets, d) && SoundLogs(logs, targets, d) && forall y :: y in own ==> InBounds(d, y)
    requires b <= |logs| && x in ([own] + LogsWrites(logs, targets))[b]
    ensures InBounds(d, x)
  {
    hide LogWrites, InBounds, SoundLog, Resolvable;
    if b > 0 {
      assert SoundLog(logs[b - 1], targets, d);
      LogInBounds(logs[b - 1], targets, d);
    }
  }

  lemma LogKept(start: Store, blocks: seq<seq<Write>>, logs: seq<seq<Entry>>, targets: Targets, r: nat, id: nat, p: nat, k: nat, i: nat)
    requires Replay(start, Flatten(blocks)).1.None? && Disjoint(blocks) && SoundLogs(logs, targets, start)
    requires |blocks| == |logs| + 1 && r < |logs| && blocks[r + 1] == LogWrites(logs[r], targets)
    requires forall x :: x in blocks[r + 1] ==> InBounds(start, x)
    requires LastEntry(logs[r], targets, id, p, k, i)
    ensures k < |logs[r]| && HasLogged(Replay(start, Flatten(blocks)).0, logs[r][k], id, p, i)
  {
    hide Replay, Flatten, LogWrites, Disjoint, InBounds, SoundLog, Logged, ByteAfter, LastRun, EntryHolds;
    assert SoundLog(logs[r], targets, start);
    LogTouches(logs[r], targets, start, id, p);
    assert EntryHolds(logs[r][k], targets, id, p) by { LastRunHolds(logs[r][k], targets, id, p, i); }
    OnlyWriter(start, blocks, r + 1, id, p);
    LogByte(logs[r], targets, start, id, p, start[id][p]);
  }

  lemma LastRunHolds(e: Entry, targets: Targets, id: nat, p: nat, i: nat)
    requires LastRun(e, targets, id, p, i)
    ensures EntryHolds(e, targets, id, p)
  {
  }

  lemma OnlyWriter(start: Store, blocks: seq<seq<Write>>, b: nat, id: nat, p: nat)
    requires Replay(start, Flatten(blocks)).1.None? && Disjoint(blocks)
    requires b < |blocks| && Touches(blocks[b], id, p) && forall x :: x in blocks[b] ==> InBounds(start, x)
    ensures HasByte(start, Replay(start, Flatten(blocks)).0, blocks[b], id, p)
  {
    hide Replay, Flatten;
    var j :| 0 <= j < |blocks[b]| && Covers(blocks[b][j], id, p);
    assert InBounds(start, blocks[b][j]);
    ReplayIsByteAfter(start, Flatten(blocks), id, p);
    forall c | 0 <= c < |blocks| && c != b ensures !Touches(blocks[c], id, p) {
      if c < b {
        assert !Touches(blocks[c], id, p);
      }
    }
    OnlyOneTouches(blocks, b, id, p, start[id][p]);
  }
}
