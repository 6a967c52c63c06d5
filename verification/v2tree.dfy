/** Version-2 B-trees of depth 0: one leaf of fixed-size records behind a header. */
module V2Tree {
  import opened Wrappers
  import opened Bytes
  import FileBuf
  import Seqs

  const BTHD: seq<u8> := [0x42, 0x54, 0x48, 0x44]
  const BTLF: seq<u8> := [0x42, 0x54, 0x4C, 0x46]
  const SPLIT_PERCENT: u8 := 100
  const MERGE_PERCENT: u8 := 40

  /** The node type and the records, in order. */
  datatype Tree = Tree(kind: u8, records: seq<seq<u8>>)

  function Joined(records: seq<seq<u8>>): seq<u8> {
    if records == [] then [] else Joined(records[..|records| - 1]) + records[|records| - 1]
  }

  function LeafHead(kind: u8, records: seq<seq<u8>>): seq<u8> {
    BTLF + [0, kind] + Joined(records)
  }

  /** Signature to merge percentage: what leads up to the address of the root. */
  function HeaderFront(kind: u8, nodeSize: nat, recSize: nat): (s: seq<u8>)
    ensures |s| == 16
  {
    BTHD + [0, kind] + Le(nodeSize, 4) + (Le(recSize, 2) + Le(0, 2) + [SPLIT_PERCENT, MERGE_PERCENT])
  }

  function HeaderBack(leaf: nat, n: nat): (s: seq<u8>)
    ensures |s| == 18
  {
    Le(leaf, 8) + Le(n, 2) + Le(n, 8)
  }

  /** The tree's header at `addr` and its leaf at `leaf`. */
  ghost predicate Stored(file: seq<u8>, addr: nat, leaf: nat, nodeSize: nat, kind: u8, recSize: nat, records: seq<seq<u8>>) {
    && addr + 38 <= |file| && leaf < UNDEF
    && Seqs.At(file, addr, HeaderFront(kind, nodeSize, recSize) + HeaderBack(leaf, |records|))
    && Seqs.At(file, leaf, LeafHead(kind, records))
  }

  /** `write_v2btree_leaf`. */
  method WriteLeaf(buf: seq<u8>, kind: u8, recSize: nat, records: seq<seq<u8>>, checksum: seq<u8> -> u32)
    returns (file: seq<u8>, addr: nat, ghost leaf: nat, ghost nodeSize: nat)
    requires forall i :: 0 <= i < |records| ==> |records[i]| == recSize
    ensures |file| >= |buf| && file[..|buf|] == buf && leaf >= |buf| && addr >= |buf|
    ensures |file| < UNDEF ==> Stored(file, addr, leaf, nodeSize, kind, recSize, records) && addr < UNDEF
    ensures |file| <= |buf| + Max(10 + Times(|records|, recSize), 512) + 52
  {
    hide Le;
    var used := 10 + Times(|records|, recSize);
    var size := Max(used, 512);
    var image := BTLF + [0, kind];
    for i := 0 to |records|
      invariant image == BTLF + [0, kind] + Joined(records[..i])
    {
      assert records[..i + 1][..i] == records[..i];
      Seqs.Assoc(BTLF + [0, kind], Joined(records[..i]), records[i]);
      image := image + records[i];
    }
    Seqs.TakeAll(records, |records|);
    JoinedLength(records, recSize);
    ghost var head := image;
    image := image + Le(checksum(image), 4);
    var at;
    ghost var tail := image[|head|..] + Zeroed(size - |image|);
    Seqs.DropAppended(head, Le(checksum(head), 4));
    Seqs.Assoc(head, Le(checksum(head), 4), Zeroed(size - |image|));
    file, at := FileBuf.Append(buf, image + Zeroed(size - |image|));
    AtFront(file, at, head, tail);
    var header := BTHD + [0, kind] + Le(size, 4) + (Le(recSize, 2) + Le(0, 2) + [SPLIT_PERCENT, MERGE_PERCENT])
                  + (Le(at, 8) + Le(|records|, 2) + Le(|records|, 8));
    ghost var withLeaf := file;
    ghost var sum := Le(checksum(header), 4);
    file, addr := FileBuf.Append(file, header + Le(checksum(header), 4));
    AtFront(file, addr, header, sum);
    AtKept(withLeaf, file, at, head);
    Seqs.TakeTake(file, |withLeaf|, |buf|);
    leaf, nodeSize := at, size;
  }

  lemma {:induction false} JoinedLength(records: seq<seq<u8>>, recSize: nat)
    requires forall i :: 0 <= i < |records| ==> |records[i]| == recSize
    ensures |Joined(records)| == Times(|records|, recSize)
  {
    if records != [] {
      JoinedLength(records[..|records| - 1], recSize);
    }
  }

  lemma AtFront(file: seq<u8>, at: nat, head: seq<u8>, rest: seq<u8>)
    requires at <= |file| && file[at..] == head + rest
    ensures at + |head| <= |file| && Seqs.At(file, at, head)
  {
    Seqs.DropAppended(head, rest);
    Seqs.SliceSlice(file, at, 0, |head|);
    assert (head + rest)[0..|head|] == head;
  }

  lemma AtKept(file: seq<u8>, file': seq<u8>, at: nat, s: seq<u8>)
    requires Seqs.At(file, at, s) && |file'| >= |file| && file'[..|file|] == file
    ensures Seqs.At(file', at, s)
  {
    Seqs.SliceOfTake(file', |file|, at, at + |s|);
  }

  // ----- reading

  function Records(data: seq<u8>, at: nat, n: nat, recSize: nat): (r: seq<seq<u8>>)
    requires at + Times(n, recSize) <= |data|
    ensures |r| == n && forall i :: 0 <= i < n ==> |r[i]| == recSize
  {
    if n == 0 then []
    else
      TimesMonotone(n - 1, n, recSize);
      Records(data, at, n - 1, recSize) + [data[at + Times(n - 1, recSize)..at + Times(n, recSize)]]
  }

  function ReadLeaf(data: seq<u8>, at: nat, kind: u8, n: nat, recSize: nat): Option<seq<seq<u8>>> {
    if at + 6 > |data| || data[at..at + 4] != BTLF || data[at + 5] != kind then None
    else if at + 6 + Times(n, recSize) > |data| then None
    else Some(Records(data, at + 6, n, recSize))
  }

  /** `read_v2btree`, for trees of depth 0. */
  function Read(data: seq<u8>, base: nat, addr: nat): Option<Tree> {
    var at := base + addr;
    if at + 38 > |data| || data[at..at + 4] != BTHD || data[at + 4] != 0 then None
    else
      var recSize, depth := FromLe(data[at + 10..at + 12]), FromLe(data[at + 12..at + 14]);
      var root, n := FromLe(data[at + 16..at + 24]), FromLe(data[at + 24..at + 26]);
      if recSize == 0 || depth > 0 then None
      else if root == UNDEF || n == 0 then Some(Tree(data[at + 5], []))
      else
        match ReadLeaf(data, base + root, data[at + 5], n, recSize)
        case None => None
        case Some(records) => Some(Tree(data[at + 5], records))
  }

  /** The walker of the reader on a leaf, pushing its records onto a list. */
  method WalkLeaf(data: seq<u8>, at: nat, kind: u8, n: nat, recSize: nat) returns (r: Option<seq<seq<u8>>>)
    ensures r == ReadLeaf(data, at, kind, n, recSize)
  {
    if at + 6 > |data| || data[at..at + 4] != BTLF || data[at + 5] != kind {
      return None;
    }
    if at + 6 + Times(n, recSize) > |data| {
      return None;
    }
    var records := ReadRecords(data, at + 6, n, recSize);
    r := Some(records);
  }

  method ReadRecords(data: seq<u8>, at: nat, n: nat, recSize: nat) returns (records: seq<seq<u8>>)
    requires at + Times(n, recSize) <= |data|
    ensures records == Records(data, at, n, recSize)
  {
    records := [];
    for i := 0 to n
      invariant at + Times(i, recSize) <= |data| && records == Records(data, at, i, recSize)
    {
      TimesMonotone(i + 1, n, recSize);
      var p := at + Times(i, recSize);
      records := records + [data[p..p + recSize]];
    }
  }

  lemma {:induction false} RecordsAt(data: seq<u8>, at: nat, records: seq<seq<u8>>, n: nat, recSize: nat)
    requires forall i :: 0 <= i < |records| ==> |records[i]| == recSize
    requires Seqs.At(data, at, Joined(records)) && n <= |records|
    ensures at + Times(n, recSize) <= |data| && Records(data, at, n, recSize) == records[..n]
    decreases |records|, n
  {
    JoinedLength(records, recSize);
    TimesMonotone(n, |records|, recSize);
    if n < |records| {
      var init := records[..|records| - 1];
      Seqs.AtSplit(data, at, Joined(init), records[|records| - 1]);
      RecordsAt(data, at, init, n, recSize);
      Seqs.TakeTake(records, |records| - 1, n);
    } else if n > 0 {
      var init := records[..n - 1];
      Seqs.AtSplit(data, at, Joined(init), records[n - 1]);
      JoinedLength(init, recSize);
      RecordsAt(data, at, init, n - 1, recSize);
      Seqs.TakeAll(init, n - 1);
      Seqs.TakeAll(records, n);
    }
  }

  lemma HeaderFields(data: seq<u8>, at: nat, kind: u8, nodeSize: nat, recSize: nat, leaf: nat, n: nat)
    requires Seqs.At(data, at, HeaderFront(kind, nodeSize, recSize) + HeaderBack(leaf, n))
    requires recSize < 0x1_0000 && leaf < TWO_64
    ensures at + 34 <= |data| && data[at..at + 4] == BTHD && data[at + 4] == 0 && data[at + 5] == kind
    ensures FromLe(data[at + 10..at + 12]) == recSize && FromLe(data[at + 12..at + 14]) == 0
    ensures FromLe(data[at + 16..at + 24]) == leaf && FromLe(data[at + 24..at + 26]) == n % 0x1_0000
  {
    hide Le, FromLe;
    Seqs.AtSplit(data, at, HeaderFront(kind, nodeSize, recSize), HeaderBack(leaf, n));
    FrontFields(data, at, kind, nodeSize, recSize);
    BackFields(data, at + 16, leaf, n);
  }

  lemma FrontFields(data: seq<u8>, at: nat, kind: u8, nodeSize: nat, recSize: nat)
    requires Seqs.At(data, at, HeaderFront(kind, nodeSize, recSize)) && recSize < 0x1_0000
    ensures at + 16 <= |data| && data[at..at + 4] == BTHD && data[at + 4] == 0 && data[at + 5] == kind
    ensures FromLe(data[at + 10..at + 12]) == recSize && FromLe(data[at + 12..at + 14]) == 0
  {
    hide Le, FromLe;
    var sizes := Le(recSize, 2) + Le(0, 2) + [SPLIT_PERCENT, MERGE_PERCENT];
    Seqs.AtSplit(data, at, BTHD + [0, kind] + Le(nodeSize, 4), sizes);
    Seqs.AtSplit(data, at, BTHD + [0, kind], Le(nodeSize, 4));
    Seqs.AtSplit(data, at, BTHD, [0, kind]);
    Seqs.AtElement(data, at + 4, [0, kind], 0);
    Seqs.AtElement(data, at + 4, [0, kind], 1);
    Seqs.AtSplit(data, at + 10, Le(recSize, 2) + Le(0, 2), [SPLIT_PERCENT, MERGE_PERCENT]);
    Seqs.AtSplit(data, at + 10, Le(recSize, 2), Le(0, 2));
    TwoBytes(recSize);
    TwoBytes(0);
  }

  lemma BackFields(data: seq<u8>, at: nat, leaf: nat, n: nat)
    requires Seqs.At(data, at, HeaderBack(leaf, n)) && leaf < TWO_64
    ensures at + 18 <= |data| && FromLe(data[at..at + 8]) == leaf && FromLe(data[at + 8..at + 10]) == n % 0x1_0000
  {
    hide Le, FromLe;
    Seqs.AtSplit(data, at, Le(leaf, 8) + Le(n, 2), Le(n, 8));
    Seqs.AtSplit(data, at, Le(leaf, 8), Le(n, 2));
    EightBytes(leaf);
    TwoBytes(n);
  }

  /** As many records as a 16-bit count can tell. */
  function Counted<T>(records: seq<T>): (r: seq<T>)
    ensures |r| == |records| % 0x1_0000
  {
    DivisionFacts(|records|, 0x1_0000);
    CountBound(|records|);
    records[..|records| % 0x1_0000]
  }

  lemma CountBound(n: nat)
    ensures n % 0x1_0000 <= n
  {
  }

  /** Reading a written tree, in a file with anything in front and behind, gives its records back:
      as many as the record count, which has 16 bits, can tell. */
  lemma ReadOfWritten(pre: seq<u8>, file: seq<u8>, more: seq<u8>, addr: nat, leaf: nat, nodeSize: nat, kind: u8, recSize: nat, records: seq<seq<u8>>)
    requires Stored(file, addr, leaf, nodeSize, kind, recSize, records) && 0 < recSize < 0x1_0000
    requires forall i :: 0 <= i < |records| ==> |records[i]| == recSize
    ensures Read(pre + file + more, |pre|, addr) == Some(Tree(kind, Counted(records)))
  {
    hide Le, FromLe, HeaderFront, HeaderBack, Joined, Records, ReadLeaf, Seqs.At;
    var data, n := pre + file + more, |records| % 0x1_0000;
    assert |data| >= |pre| + |file|;
    Seqs.AtInside(pre, file, more, addr, HeaderFront(kind, nodeSize, recSize) + HeaderBack(leaf, |records|));
    HeaderFields(data, |pre| + addr, kind, nodeSize, recSize, leaf, |records|);
    if n > 0 {
      Seqs.AtInside(pre, file, more, leaf, LeafHead(kind, records));
      LeafReads(data, |pre| + leaf, kind, records, n, recSize);
    }
  }

  lemma LeafReads(data: seq<u8>, at: nat, kind: u8, records: seq<seq<u8>>, n: nat, recSize: nat)
    requires Seqs.At(data, at, LeafHead(kind, records)) && n <= |records|
    requires forall i :: 0 <= i < |records| ==> |records[i]| == recSize
    ensures ReadLeaf(data, at, kind, n, recSize) == Some(records[..n])
  {
    hide Joined, Records;
    Seqs.AtSplit(data, at, BTLF + [0, kind], Joined(records));
    Seqs.AtSplit(data, at, BTLF, [0, kind]);
    Seqs.AtElement(data, at + 4, [0, kind], 1);
    RecordsAt(data, at + 6, records, n, recSize);
  }
}
