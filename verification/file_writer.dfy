/** The writer's buffer: appended to, and patched where addresses become known later. */
module FileWriter {
  import opened Bytes
  import FileBuf
  import Seqs

  /** Eight bytes at `at` replaced. */
  function Patched(buf: seq<u8>, at: nat, v: nat): (p: seq<u8>)
    requires at + 8 <= |buf|
    ensures |p| == |buf|
  {
    buf[..at] + Le(v, 8) + buf[at + 8..]
  }

  lemma PatchedSlice(buf: seq<u8>, at: nat, v: nat, lo: nat, hi: nat)
    requires at + 8 <= |buf| && lo <= hi <= |buf| && (hi <= at || at + 8 <= lo)
    ensures Patched(buf, at, v)[lo..hi] == buf[lo..hi]
  {
    hide Le;
    var p := Patched(buf, at, v);
    forall k | 0 <= k < hi - lo ensures p[lo..hi][k] == buf[lo..hi][k] {
    }
  }

  lemma PatchedInside(buf: seq<u8>, at: nat, v: nat, lo: nat, hi: nat)
    requires lo <= at && at + 8 <= hi <= |buf|
    ensures Patched(buf, at, v)[lo..hi] == Patched(buf[lo..hi], at - lo, v)
  {
    hide Le;
    var s := buf[lo..hi];
    assert s[..at - lo] == buf[lo..at] && s[at - lo + 8..] == buf[at + 8..hi];
    assert Patched(buf, at, v)[lo..hi] == buf[lo..at] + Le(v, 8) + buf[at + 8..hi];
  }

  class Writer {
    var buf: seq<u8>

    constructor ()
      ensures buf == []
    {
      buf := [];
    }

    method Append(bytes: seq<u8>) returns (addr: nat)
      modifies this
      ensures |buf| >= |old(buf)| && buf[..|old(buf)|] == old(buf)
      ensures addr % 8 == 0 && |old(buf)| <= addr <= |old(buf)| + 7 && addr + |bytes| == |buf| && buf[addr..] == bytes
    {
      buf, addr := FileBuf.Append(buf, bytes);
    }

    method PatchU64(at: nat, v: nat)
      requires at + 8 <= |buf|
      modifies this
      ensures buf == Patched(old(buf), at, v)
    {
      buf := buf[..at] + Le(v, 8) + buf[at + 8..];
    }
  }
}
