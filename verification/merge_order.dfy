/** When the order of the ranks does not matter for a collective merge. */
module MergeOrder {
  import opened Wrappers
  import opened Bytes
  import opened WriteLog
  import opened MergeSpec
  import opened MergeBytes
  import Seqs

  // ----- order of the ranks

  ghost predicate Touches(block: seq<Write>, id: nat, p: nat) {
    exists i :: 0 <= i < |block| && Covers(block[i], id, p)
  }

  /** No byte is written by two ranks. */
  ghost predicate Disjoint(blocks: seq<seq<Write>>) {
    forall i, j, id, p :: 0 <= i < j < |blocks| && Touches(blocks[i], id, p) ==> !Touches(blocks[j], id, p)
  }

  ghost predicate IsPermutation(perm: seq<nat>) {
    && (forall i :: 0 <= i < |perm| ==> perm[i] < |perm|)
    && (forall i, j :: 0 <= i < j < |perm| ==> perm[i] != perm[j])
    && forall k :: 0 <= k < |perm| ==> k in perm
  }

  function Reordered<T>(s: seq<T>, perm: seq<nat>): (t: seq<T>)
    requires |perm| == |s| && forall i :: 0 <= i < |perm| ==> perm[i] < |s|
    ensures |t| == |s|
  {
    seq(|s|, i requires 0 <= i < |s| => s[perm[i]])
  }

  lemma ByteAfterUntouched(block: seq<Write>, id: nat, p: nat, v: u8)
    requires !Touches(block, id, p)
    ensures ByteAfter(block, id, p, v) == v
  {
    ByteAfterUncovered(block, id, p, v);
  }

  lemma {:induction false} NobodyTouches(blocks: seq<seq<Write>>, id: nat, p: nat, v: u8)
    requires forall i :: 0 <= i < |blocks| ==> !Touches(blocks[i], id, p)
    ensures ByteAfter(Flatten(blocks), id, p, v) == v
  {
    hide Touches;
    if blocks != [] {
      ByteAfterConcat(blocks[0], Flatten(blocks[1..]), id, p, v);
      ByteAfterUntouched(blocks[0], id, p, v);
      NobodyTouches(blocks[1..], id, p, v);
    }
  }

  lemma {:induction false} OnlyOneTouches(blocks: seq<seq<Write>>, k: nat, id: nat, p: nat, v: u8)
    requires k < |blocks| && forall i :: 0 <= i < |blocks| && i != k ==> !Touches(blocks[i], id, p)
    ensures ByteAfter(Flatten(blocks), id, p, v) == ByteAfter(blocks[k], id, p, v)
  {
    hide Touches;
    ByteAfterConcat(blocks[0], Flatten(blocks[1..]), id, p, v);
    if k == 0 {
      NobodyTouches(blocks[1..], id, p, ByteAfter(blocks[0], id, p, v));
    } else {
      ByteAfterUntouched(blocks[0], id, p, v);
      OnlyOneTouches(blocks[1..], k - 1, id, p, v);
    }
  }

  lemma SameByte(blocks: seq<seq<Write>>, perm: seq<nat>, id: nat, p: nat, v: u8)
    requires Disjoint(blocks) && |perm| == |blocks| && IsPermutation(perm)
    ensures ByteAfter(Flatten(Reordered(blocks, perm)), id, p, v) == ByteAfter(Flatten(blocks), id, p, v)
  {
    hide Touches, Flatten;
    var moved := Reordered(blocks, perm);
    if k :| 0 <= k < |blocks| && Touches(blocks[k], id, p) {
      assert k in perm;
      var j :| 0 <= j < |perm| && perm[j] == k;
      OnlyOneTouches(blocks, k, id, p, v);
      OnlyOneTouches(moved, j, id, p, v);
    } else {
      NobodyTouches(blocks, id, p, v);
      NobodyTouches(moved, id, p, v);
    }
  }

  lemma {:induction false} InFlatten(blocks: seq<seq<Write>>, w: Write)
    ensures w in Flatten(blocks) <==> exists i :: 0 <= i < |blocks| && w in blocks[i]
  {
    if blocks != [] {
      InFlatten(blocks[1..], w);
      if i :| 0 <= i < |blocks| && w in blocks[i] {
        if i > 0 {
          assert blocks[1..][i - 1] == blocks[i];
        }
      }
      if j :| 0 <= j < |blocks[1..]| && w in blocks[1..][j] {
        assert blocks[j + 1] == blocks[1..][j];
      }
    }
  }

  lemma SameWrites(blocks: seq<seq<Write>>, perm: seq<nat>, w: Write)
    requires |perm| == |blocks| && IsPermutation(perm)
    ensures w in Flatten(Reordered(blocks, perm)) <==> w in Flatten(blocks)
  {
    hide Flatten;
    var moved := Reordered(blocks, perm);
    InFlatten(blocks, w);
    InFlatten(moved, w);
    if i :| 0 <= i < |moved| && w in moved[i] {
      assert w in blocks[perm[i]];
    }
    if k :| 0 <= k < |blocks| && w in blocks[k] {
      assert k in perm;
      var j :| 0 <= j < |perm| && perm[j] == k;
      assert w in moved[j];
    }
  }

  lemma SucceedsByMembers(d: Store, ws: seq<Write>)
    ensures Replay(d, ws).1.None? <==> forall w :: w in ws ==> InBounds(d, w)
  {
    hide Replay, InBounds;
    SucceedsExactly(d, ws);
    if forall i :: 0 <= i < |ws| ==> InBounds(d, ws[i]) {
      forall w | w in ws ensures InBounds(d, w) {
        var i :| 0 <= i < |ws| && ws[i] == w;
      }
    }
  }

  /** When no byte is written by two ranks, merging the ranks in any order succeeds for the same
      logs and leaves the same data. */
  lemma RankOrderIrrelevant(d: Store, blocks: seq<seq<Write>>, perm: seq<nat>)
    requires Disjoint(blocks) && |perm| == |blocks| && IsPermutation(perm)
    ensures var r, r' := Replay(d, Flatten(blocks)), Replay(d, Flatten(Reordered(blocks, perm)));
            && (r.1.None? <==> r'.1.None?)
            && (r.1.None? ==> r == r')
  {
    hide Replay, Flatten, InBounds, Disjoint;
    var a, b := Flatten(blocks), Flatten(Reordered(blocks, perm));
    SucceedsByMembers(d, a);
    SucceedsByMembers(d, b);
    forall w ensures w in a <==> w in b {
      SameWrites(blocks, perm, w);
    }
    if Replay(d, a).1.None? {
      var s, t := Replay(d, a).0, Replay(d, b).0;
      ReplayKeepsShape(d, a);
      ReplayKeepsShape(d, b);
      forall id | id in d ensures s[id] == t[id] {
        forall p | 0 <= p < |d[id]| ensures s[id][p] == t[id][p] {
          ReplayIsByteAfter(d, a, id, p);
          ReplayIsByteAfter(d, b, id, p);
          SameByte(blocks, perm, id, p, d[id][p]);
        }
      }
      assert s == t;
    }
  }

  /** The blobs that gathering encoded logs brings to rank 0 stand for the logs themselves. */
  lemma GatheredLogs(logs: seq<seq<Entry>>, targets: Targets)
    requires forall r :: 0 <= r < |logs| ==>
               |logs[r]| < TWO_64 && ShortPaths(logs[r]) && forall i :: 0 <= i < |logs[r]| ==> Fits(logs[r][i])
    ensures BlobsWrites(seq(|logs|, r requires 0 <= r < |logs| => EncodeLog(logs[r])), targets)
            == seq(|logs|, r requires 0 <= r < |logs| => LogWrites(logs[r], targets))
  {
    hide EncodeLog, DecodeLog, LogWrites;
    forall r | 0 <= r < |logs|
      ensures BlobWrites(EncodeLog(logs[r]), targets) == LogWrites(logs[r], targets)
    {
      LogRoundTrip(logs[r]);
    }
  }
}
