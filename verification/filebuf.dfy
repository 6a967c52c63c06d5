/** The file as the writer grows it. */
module FileBuf {
  import opened Bytes
  import Seqs

  function Padded(buf: seq<u8>): (p: seq<u8>)
    ensures |buf| <= |p| <= |buf| + 7 && p[..|buf|] == buf && |p| % 8 == 0
  {
    buf + seq((8 - |buf| % 8) % 8, _ => 0)
  }

  /** Appends at the next multiple of 8. */
  method Append(buf: seq<u8>, bytes: seq<u8>) returns (file: seq<u8>, addr: nat)
    ensures |file| >= |buf| && file[..|buf|] == buf
    ensures addr % 8 == 0 && |buf| <= addr <= |buf| + 7 && addr + |bytes| == |file| && file[addr..] == bytes
  {
    var padded := Padded(buf);
    addr := |padded|;
    Seqs.DropAppended(padded, bytes);
    Seqs.TakeTake(padded + bytes, addr, |buf|);
    file := padded + bytes;
  }

  /** From `from` on, the bytes of `file` are unchanged, and others may follow. */
  ghost predicate Keeps(file: seq<u8>, file': seq<u8>, from: nat) {
    from <= |file| <= |file'| && file'[from..|file|] == file[from..]
  }

  lemma KeptSlice(file: seq<u8>, file': seq<u8>, from: nat, lo: nat, hi: nat)
    requires Keeps(file, file', from) && from <= lo <= hi <= |file|
    ensures file'[lo..hi] == file[lo..hi]
  {
    Seqs.SliceOfSlice(file', from, |file|, lo - from, hi - from);
    Seqs.SliceSlice(file, from, lo - from, hi - from);
  }

  lemma AppendKeeps(file: seq<u8>, file': seq<u8>, from: nat)
    requires from <= |file| <= |file'| && file'[..|file|] == file
    ensures Keeps(file, file', from)
  {
    Seqs.SliceOfTake(file', |file|, from, |file|);
  }

  /** Bytes replaced in front of `at + |s|` only. */
  lemma PatchKeeps(file: seq<u8>, at: nat, s: seq<u8>)
    requires at + |s| <= |file|
    ensures var patched := file[..at] + s + file[at + |s|..];
            |patched| == |file| && Keeps(file, patched, at + |s|) && patched[..at] == file[..at] && patched[at..at + |s|] == s
  {
    var patched := file[..at] + s + file[at + |s|..];
    Seqs.DropAppended(file[..at] + s, file[at + |s|..]);
    Seqs.DropAppended(file[..at], s);
    Seqs.SliceOfTake(patched, at + |s|, at, at + |s|);
    Seqs.TakeTake(patched, at + |s|, at);
    Seqs.DropAppended(file[..at], s);
  }
}
