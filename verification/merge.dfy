/** The collective close: rank 0 replays the other ranks' write logs into its own model. */
module Merge {
  import opened Wrappers
  import opened Bytes
  import opened WriteLog
  import opened MergeSpec
  import opened MergeBytes
  import WriteLogCodec
  import Seqs

  class FileModel {
    const targets: Targets
    var data: Store

    constructor (targets: Targets, data: Store)
      ensures this.targets == targets && this.data == data
    {
      this.targets, this.data := targets, data;
    }

    /** Copies the runs of one entry into dataset id. */
    method CopyRanges(id: nat, ranges: seq<Range>, bytes: seq<u8>) returns (failed: Option<MergeError>)
      requires id in data
      modifies this
      ensures (data, failed) == Replay(old(data), RangeWrites(id, ranges, bytes, 0))
    {
      hide Patch;
      var src: nat := 0;
      for i := 0 to |ranges|
        invariant id in data
        invariant Replay(data, RangeWrites(id, ranges[i..], bytes, src)) == Replay(old(data), RangeWrites(id, ranges, bytes, 0))
      {
        var (o, l) := ranges[i];
        assert ranges[i..][1..] == ranges[i + 1..];
        if o + l > |data[id]| || src + l > |bytes| {
          CopyFails(data, id, ranges[i..], bytes, src);
          return Some(OutOfBounds);
        }
        Seqs.HeadOf(Write(id, o, bytes[src..src + l]), RangeWrites(id, ranges[i + 1..], bytes, src + l));
        data := data[id := Patch(data[id], o, bytes[src..src + l])];
        src := src + l;
      }
      failed := None;
    }

    method ReplayEntry(e: Entry) returns (failed: Option<MergeError>)
      requires Resolvable(targets, data)
      modifies this
      ensures (data, failed) == Replay(old(data), EntryWrites(e, targets))
    {
      hide RangeWrites, Patch;
      match targets(e.path) {
        case Missing => failed := Some(NoDataset);
        case NotDataset => failed := Some(NotADataset);
        case Dataset(id) =>
          failed := CopyRanges(id, e.ranges, e.bytes);
      }
    }

    method ReplayLog(log: seq<Entry>) returns (failed: Option<MergeError>)
      requires Resolvable(targets, data)
      modifies this
      ensures (data, failed) == Replay(old(data), LogWrites(log, targets))
    {
      hide Replay, EntryWrites;
      for i := 0 to |log|
        invariant Resolvable(targets, data)
        invariant Replay(data, LogWrites(log[i..], targets)) == Replay(old(data), LogWrites(log, targets))
      {
        assert log[i..][1..] == log[i + 1..];
        ReplayConcat(data, EntryWrites(log[i], targets), LogWrites(log[i + 1..], targets));
        ReplayKeepsShape(data, EntryWrites(log[i], targets));
        failed := ReplayEntry(log[i]);
        if failed.Some? {
          return;
        }
      }
      ReplayNothing(data);
      failed := None;
    }

    method ReplayBlobs(blobs: seq<seq<u8>>) returns (failed: Option<MergeError>)
      requires Resolvable(targets, data)
      modifies this
      ensures (data, failed) == Replay(old(data), Flatten(BlobsWrites(blobs, targets)))
    {
      hide Replay, LogWrites;
      assert blobs[0..] == blobs;
      for i := 0 to |blobs|
        invariant Resolvable(targets, data)
        invariant Replay(data, Flatten(BlobsWrites(blobs[i..], targets))) == Replay(old(data), Flatten(BlobsWrites(blobs, targets)))
      {
        assert BlobsWrites(blobs[i..], targets)[1..] == BlobsWrites(blobs[i + 1..], targets);
        ReplayConcat(data, BlobWrites(blobs[i], targets), Flatten(BlobsWrites(blobs[i + 1..], targets)));
        ReplayKeepsShape(data, BlobWrites(blobs[i], targets));
        var log := WriteLogCodec.ReadLogBytes(blobs[i]);
        if log.Failure? {
          ReplayBad(data, BadLog);
          return Some(BadLog);
        }
        failed := ReplayLog(log.value);
        if failed.Some? {
          return;
        }
      }
      ReplayNothing(data);
      failed := None;
    }
  }

  /** Per-file state of a rank in a collective file. */
  class MpiFile {
    const rank: nat
    var log: seq<Entry>

    constructor (rank: nat, log: seq<Entry>)
      ensures this.rank == rank && this.log == log
    {
      this.rank, this.log := rank, log;
    }

    /** `gathered` is what gathering the encoded logs on rank 0 returns on this rank. */
    method CollectiveMerge(file: FileModel, gathered: Option<seq<seq<u8>>>) returns (writes: Result<bool, MergeError>)
      requires Resolvable(file.targets, file.data) && (rank == 0 ==> gathered.Some? && gathered.value != [])
      modifies this`log, file
      ensures rank != 0 ==> writes == Success(false) && log == [] && file.data == old(file.data)
      ensures rank == 0 ==>
                var (d, failed) := Replay(old(file.data), Flatten(BlobsWrites(gathered.value[1..], file.targets)));
                file.data == d &&
                if failed.None? then writes == Success(true) && log == [] else writes == Failure(failed.value) && log == old(log)
      ensures rank == 0 ==>
                match writes
                case Success(_) => BlobsMerged(old(file.data), gathered.value[1..], file.targets, file.data)
                case Failure(error) => MergeStops(gathered.value[1..], file.targets, old(file.data), error)
    {
      hide Replay, Flatten, BlobsWrites, BlobsMerged, MergeStops, Resolvable;
      if rank != 0 {
        log := [];
        return Success(false);
      }
      MergeMeans(gathered.value[1..], file.targets, file.data);
      var failed := file.ReplayBlobs(gathered.value[1..]);
      if failed.Some? {
        return Failure(failed.value);
      }
      log := [];
      writes := Success(true);
    }
  }
}
