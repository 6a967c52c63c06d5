/** Building a B-tree bottom up: leaves over the list, then parents until one root remains. Every
    node is appended to the file; the siblings of a level are patched once it is written. */
module BTreeBuild {
  import opened Wrappers
  import opened Bytes
  import opened BTree
  import opened FileWriter
  import opened TreeBytes
  import Seqs

  type Store = map<nat, Node<Key>>

  // ----- one node

  /** The node over a group; `last` is the only key of a node without children. */
  function NodeOver(level: nat, grp: seq<Item<Key>>, last: Key): (n: Node<Key>)
    ensures |n.keys| == |grp| + 1 && |n.children| == |grp|
  {
    Node(level, if grp == [] then [last] else KeysOf(grp), Addrs(grp), None, None)
  }

  ghost predicate KeysFit(grp: seq<Item<Key>>, k: nat) {
    forall i :: 0 <= i < |grp| ==> |grp[i].first| == k && |grp[i].last| == k
  }

  lemma NodeOverOk(level: nat, grp: seq<Item<Key>>, last: Key, kind: Kind)
    requires |grp| <= kind.cap && KeysFit(grp, kind.keyLen) && |last| == kind.keyLen
    ensures NodeOk(NodeOver(level, grp, last), kind)
  {
  }

  lemma NextPair(head: seq<u8>, n: Node<Key>, i: nat)
    requires |n.keys| == |n.children| + 1 && i < |n.children|
    ensures head + Pairs(n.keys, n.children, i) + n.keys[i] + Le(n.children[i], 8) == head + Pairs(n.keys, n.children, i + 1)
  {
    hide Le;
    Seqs.Assoc(head + Pairs(n.keys, n.children, i), n.keys[i], Le(n.children[i], 8));
    Seqs.Assoc(head, Pairs(n.keys, n.children, i), n.keys[i] + Le(n.children[i], 8));
  }

  /** As chunk trees write them: every entry's key and child, then a trailing key. */
  method EntryPairs(head: seq<u8>, ghost n: Node<Key>, grp: seq<Item<Key>>, last: Key) returns (b: seq<u8>)
    requires n == NodeOver(n.level, grp, last) && (grp != [] ==> last == grp[|grp| - 1].last)
    ensures b == head + Content(n)
  {
    hide Le;
    b := head;
    Seqs.Empty(head);
    for i := 0 to |grp|
      invariant b == head + Pairs(n.keys, n.children, i)
    {
      NextPair(head, n, i);
      b := b + grp[i].first + Le(grp[i].addr, 8);
    }
    Seqs.Assoc(head, Pairs(n.keys, n.children, |grp|), last);
    b := b + last;
  }

  /** As group trees write them: one key in front, then every entry's child and last key. */
  method BoundaryPairs(head: seq<u8>, ghost n: Node<Key>, grp: seq<Item<Key>>, last: Key) returns (b: seq<u8>)
    requires n == NodeOver(n.level, grp, last) && Chained(grp)
    ensures b == head + Content(n)
  {
    hide Le;
    b := head + if grp == [] then last else grp[0].first;
    Seqs.Empty(head);
    for i := 0 to |grp|
      invariant b == head + Pairs(n.keys, n.children, i) + n.keys[i]
    {
      NextPair(head, n, i);
      b := b + Le(grp[i].addr, 8) + grp[i].last;
    }
    Seqs.Assoc(head, Pairs(n.keys, n.children, |grp|), n.keys[|grp|]);
  }

  method WriteNode(w: Writer, level: nat, grp: seq<Item<Key>>, last: Key, kind: Kind) returns (addr: nat)
    requires Chained(grp) && (grp != [] ==> last == grp[|grp| - 1].last)
    requires NodeOk(NodeOver(level, grp, last), kind)
    modifies w
    ensures |w.buf| >= |old(w.buf)| && w.buf[..|old(w.buf)|] == old(w.buf) && addr >= |old(w.buf)|
    ensures addr <= |old(w.buf)| + 7 && addr + kind.Size() == |w.buf| && w.buf[addr..] == NodeBytes(NodeOver(level, grp, last), kind)
  {
    hide Le, Content, KeysOf;
    ghost var n := NodeOver(level, grp, last);
    var head := TREE + [kind.node] + Le(level, 1) + Le(|grp|, 2) + Le(UNDEF, 8) + Le(UNDEF, 8);
    var b;
    if kind.node == 0 {
      b := BoundaryPairs(head, n, grp, last);
    } else {
      b := EntryPairs(head, n, grp, last);
    }
    ContentFits(n, kind);
    Seqs.Assoc(head, Content(n), Zeroed(kind.Size() - |b|));
    addr := w.Append(b + Zeroed(kind.Size() - |b|));
  }

  // ----- one level

  /** The trees of one level, side by side over the whole list. */
  ghost predicate Trees(store: Store, nodes: seq<Item<Key>>, trees: seq<Tree>, level: nat, items: seq<Item<Key>>, cap: nat) {
    && |nodes| == |trees|
    && forall i :: 0 <= i < |trees| ==> TreeAt(store, nodes, trees, i, level, items, cap)
  }

  ghost predicate TreeAt(store: Store, nodes: seq<Item<Key>>, trees: seq<Tree>, i: nat, level: nat, items: seq<Item<Key>>, cap: nat)
    requires i < |trees| == |nodes|
  {
    && Holds(store, trees[i], level, items, cap) && trees[i].addr == nodes[i].addr
    && nodes[i] == ItemOf(trees[i], items)
  }

  /** The nodes of a level lie one behind the other, from `from` on. */
  ghost predicate Ascending(nodes: seq<Item<Key>>, from: nat) {
    && (forall i :: 0 <= i < |nodes| ==> nodes[i].addr >= from)
    && forall i, j :: 0 <= i < j < |nodes| ==> nodes[i].addr < nodes[j].addr
  }

  /** What was in `before` is unchanged, and exactly `nodes` have been added, on `level`. */
  ghost predicate Added(before: Store, after: Store, nodes: seq<Item<Key>>, level: nat) {
    && (forall a :: a in before ==> a in after && after[a] == before[a])
    && (forall a :: a in after ==> a in before || a in Addrs(nodes))
    && forall i :: 0 <= i < |nodes| ==> nodes[i].addr in after && nodes[i].addr !in before && after[nodes[i].addr].level == level
  }

  ghost predicate NoSiblings(store: Store, nodes: seq<Item<Key>>, from: nat) {
    forall i :: from <= i < |nodes| ==>
      nodes[i].addr in store && store[nodes[i].addr].left == None && store[nodes[i].addr].right == None
  }

  lemma AddedSame(before: Store, after: Store, nodes: seq<Item<Key>>, level: nat)
    requires Added(before, after, nodes, level)
    ensures SameTrees(before, after)
  {
  }

  lemma AddedNode(before: Store, store: Store, nodes: seq<Item<Key>>, level: nat, item: Item<Key>, n: Node<Key>)
    requires Added(before, store, nodes, level) && NoSiblings(store, nodes, 0)
    requires item.addr !in store && n.level == level && n.left == None && n.right == None
    ensures Added(before, store[item.addr := n], nodes + [item], level)
    ensures NoSiblings(store[item.addr := n], nodes + [item], 0)
    ensures SameTrees(store, store[item.addr := n])
  {
    var all, more := store[item.addr := n], nodes + [item];
    forall a | a in all ensures a in before || a in Addrs(more) {
      if a == item.addr {
        assert Addrs(more)[|nodes|] == a;
      } else if a !in before {
        var i :| 0 <= i < |nodes| && Addrs(nodes)[i] == a;
        assert Addrs(more)[i] == a;
      }
    }
  }

  lemma {:induction false} TreesStay(before: Store, after: Store, nodes: seq<Item<Key>>, trees: seq<Tree>, level: nat, items: seq<Item<Key>>, cap: nat)
    requires Trees(before, nodes, trees, level, items, cap) && SameTrees(before, after)
    ensures Trees(after, nodes, trees, level, items, cap)
  {
    hide Holds, SameTrees;
    forall i | 0 <= i < |trees| ensures TreeAt(after, nodes, trees, i, level, items, cap) {
      assert TreeAt(before, nodes, trees, i, level, items, cap);
      HoldsStays(before, after, trees[i], level, items, cap);
    }
  }

  lemma {:induction false} TreesGrow(store: Store, nodes: seq<Item<Key>>, trees: seq<Tree>, level: nat, items: seq<Item<Key>>, cap: nat,
                  n: Node<Key>, t: Tree, item: Item<Key>)
    requires Trees(store, nodes, trees, level, items, cap) && t.addr !in store
    requires Holds(store[t.addr := n], t, level, items, cap) && item == ItemOf(t, items)
    ensures Trees(store[t.addr := n], nodes + [item], trees + [t], level, items, cap)
  {
    hide Holds;
    var all, more, grown := store[t.addr := n], nodes + [item], trees + [t];
    TreesStay(store, all, nodes, trees, level, items, cap);
    forall i | 0 <= i < |grown| ensures TreeAt(all, more, grown, i, level, items, cap) {
      if i < |trees| {
        assert TreeAt(all, nodes, trees, i, level, items, cap);
      }
    }
  }

  /** What patching the first i nodes of a level has made of the store. */
  ghost predicate PatchedUpTo(store: Store, after: Store, nodes: seq<Item<Key>>, i: nat) {
    && after.Keys == store.Keys && SameTrees(store, after) && NoSiblings(after, nodes, i)
    && (forall a :: a in store && a !in Addrs(nodes) ==> after[a] == store[a])
    && forall k :: 0 <= k < i && k < |nodes| ==> LinkedAt(after, Addrs(nodes), k)
  }

  function LeftOf(nodes: seq<Item<Key>>, i: nat): Option<nat>
    requires i < |nodes|
  {
    if i > 0 then Some(nodes[i - 1].addr) else None
  }

  function RightOf(nodes: seq<Item<Key>>, i: nat): Option<nat>
    requires i < |nodes|
  {
    if i + 1 < |nodes| then Some(nodes[i + 1].addr) else None
  }

  lemma OneMorePatched(store: Store, before: Store, nodes: seq<Item<Key>>, from: nat, i: nat)
    requires Ascending(nodes, from) && PatchedUpTo(store, before, nodes, i) && i < |nodes|
    ensures nodes[i].addr in before
    ensures var a := nodes[i].addr;
            PatchedUpTo(store, before[a := before[a].(left := LeftOf(nodes, i), right := RightOf(nodes, i))], nodes, i + 1)
  {
    var a := nodes[i].addr;
    var after := before[a := before[a].(left := LeftOf(nodes, i), right := RightOf(nodes, i))];
    assert Addrs(nodes)[i] == a;
    forall k | 0 <= k < i + 1 ensures LinkedAt(after, Addrs(nodes), k) {
      if k < i {
        assert LinkedAt(before, Addrs(nodes), k);
      }
    }
  }

  /** Patches the siblings of a freshly written level. */
  method PatchSiblings(w: Writer, nodes: seq<Item<Key>>, ghost from: nat, ghost store: Store, kind: Kind) returns (ghost after: Store)
    requires Image(w.buf, from, store, kind) && Ascending(nodes, from) && NoSiblings(store, nodes, 0)
    modifies w
    ensures |w.buf| == |old(w.buf)| && (from <= |w.buf| ==> w.buf[..from] == old(w.buf)[..from])
    ensures Image(w.buf, from, after, kind) && PatchedUpTo(store, after, nodes, |nodes|)
  {
    hide Le, NodeBytes, Patched, NodeOk, Kind.Size, Image, Ascending, LinkedAt;
    after := store;
    for i := 0 to |nodes|
      invariant |w.buf| == |old(w.buf)| && (from <= |w.buf| ==> w.buf[..from] == old(w.buf)[..from])
      invariant Image(w.buf, from, after, kind) && PatchedUpTo(store, after, nodes, i)
    {
      var addr := nodes[i].addr;
      OneMorePatched(store, after, nodes, from, i);
      ghost var before, n := after, after[addr];
      if i > 0 {
        after := PatchOne(w, addr, 8, nodes[i - 1].addr, from, after, n.(left := LeftOf(nodes, i)), kind);
      }
      if i + 1 < |nodes| {
        after := PatchOne(w, addr, 16, nodes[i + 1].addr, from, after, after[addr].(right := RightOf(nodes, i)), kind);
      }
      assert after == before[addr := n.(left := LeftOf(nodes, i), right := RightOf(nodes, i))];
    }
  }

  method PatchOne(w: Writer, addr: nat, field: nat, v: nat, ghost from: nat, ghost store: Store, ghost n: Node<Key>, kind: Kind)
    returns (ghost after: Store)
    requires Image(w.buf, from, store, kind) && addr in store
    requires (field == 8 && n == store[addr].(left := Some(v))) || (field == 16 && n == store[addr].(right := Some(v)))
    modifies w
    ensures |w.buf| == |old(w.buf)| && (from <= |w.buf| ==> w.buf[..from] == old(w.buf)[..from])
    ensures after == store[addr := n] && Image(w.buf, from, after, kind)
  {
    hide Le, NodeBytes, Patched, Kind.Size;
    assert NodeAt(w.buf, addr, store[addr], kind);
    SizePositive(kind);
    PatchSibling(store[addr], kind, v);
    ImagePatched(w.buf, from, store, kind, addr, addr + field, v, n);
    if from <= |w.buf| {
      PatchedSlice(w.buf, addr + field, v, 0, from);
    }
    w.PatchU64(addr + field, v);
    after := store[addr := n];
  }

  // ----- a level being written

  ghost predicate FieldsBelow(store: Store, level: nat, cap: nat, limit: nat) {
    forall a :: a in store ==> NodeBelow(store[a], level, cap, limit)
  }

  ghost predicate NodeBelow(n: Node<Key>, level: nat, cap: nat, limit: nat) {
    n.level <= level && |n.children| <= cap && forall i :: 0 <= i < |n.children| ==> n.children[i] < limit
  }

  /** `nodes` have been written behind `mark` and form trees over a part of the list. */
  ghost predicate Partial(buf: seq<u8>, from: nat, mark: nat, before: Store, store: Store, nodes: seq<Item<Key>>, trees: seq<Tree>,
                          level: nat, items: seq<Item<Key>>, kind: Kind) {
    && from <= mark <= |buf| && Image(buf, from, store, kind) && Trees(store, nodes, trees, level, items, kind.cap)
    && Added(before, store, nodes, level) && NoSiblings(store, nodes, 0) && Ascending(nodes, mark)
  }

  lemma {:induction false} NodeAdded(buf: seq<u8>, buf': seq<u8>, from: nat, mark: nat, before: Store, store: Store, nodes: seq<Item<Key>>, trees: seq<Tree>,
                  level: nat, items: seq<Item<Key>>, kind: Kind, n: Node<Key>, t: Tree, item: Item<Key>)
    requires Partial(buf, from, mark, before, store, nodes, trees, level, items, kind)
    requires |buf'| >= |buf| && buf'[..|buf|] == buf && NodeOk(n, kind) && t.addr >= |buf|
    requires t.addr + kind.Size() == |buf'| && buf'[t.addr..] == NodeBytes(n, kind)
    requires n.level == level && n.left == None && n.right == None
    requires t.lo < t.hi <= |items| && item == ItemOf(t, items) && (t.addr !in store ==> Holds(store[t.addr := n], t, level, items, kind.cap))
    ensures t.addr !in store
    ensures Partial(buf', from, mark, before, store[t.addr := n], nodes + [item], trees + [t], level, items, kind)
  {
    hide Holds, Image, NodeBytes, NodeOk, Kind.Size, Added, NoSiblings, SameTrees, Trees;
    ImageGrows(buf, buf', from, store, kind, t.addr, n);
    TreesGrow(store, nodes, trees, level, items, kind.cap, n, t, item);
    AddedNode(before, store, nodes, level, item, n);
    LastNodes(buf, from, store, nodes, kind, before, level);
  }

  /** All nodes written so far end before the end of the file. */
  lemma LastNodes(buf: seq<u8>, from: nat, store: Store, nodes: seq<Item<Key>>, kind: Kind, before: Store, level: nat)
    requires Image(buf, from, store, kind) && Added(before, store, nodes, level)
    ensures forall i :: 0 <= i < |nodes| ==> nodes[i].addr < |buf|
  {
    hide NodeBytes, NodeOk;
    forall i | 0 <= i < |nodes| ensures nodes[i].addr < |buf| {
      assert NodeAt(buf, nodes[i].addr, store[nodes[i].addr], kind);
    }
  }

  lemma LeafHolds(store: Store, n: Node<Key>, t: Tree, items: seq<Item<Key>>, cap: nat)
    requires t.lo < t.hi <= |items| && t.hi - t.lo <= cap && t.kids == []
    requires n.level == 0 && n.keys == KeysOf(items[t.lo..t.hi]) && n.children == Addrs(items[t.lo..t.hi])
    ensures Holds(store[t.addr := n], t, 0, items, cap)
  {
    hide KeysOf;
  }

  lemma GroupFits(items: seq<Item<Key>>, at: nat, end: nat, k: nat)
    requires at <= end <= |items| && Chained(items) && KeysFit(items, k)
    ensures Chained(items[at..end]) && KeysFit(items[at..end], k)
  {
  }

  lemma BelowGrows(store: Store, level: nat, cap: nat, limit: nat, addr: nat, n: Node<Key>, level': nat, limit': nat)
    requires FieldsBelow(store, level, cap, limit) && level <= level' && limit <= limit' && NodeBelow(n, level', cap, limit')
    ensures FieldsBelow(store[addr := n], level', cap, limit')
  {
    forall a | a in store ensures NodeBelow(store[a], level', cap, limit') {
      assert NodeBelow(store[a], level, cap, limit);
    }
  }

  lemma NothingYet(buf: seq<u8>, items: seq<Item<Key>>, kind: Kind)
    ensures Partial(buf, |buf|, |buf|, map[], map[], [], [], 0, items, kind)
  {
  }

  /** A finished level, its siblings patched. */
  ghost predicate Level(buf: seq<u8>, from: nat, before: Store, store: Store, nodes: seq<Item<Key>>, trees: seq<Tree>,
                        level: nat, items: seq<Item<Key>>, kind: Kind) {
    && from <= |buf| && Image(buf, from, store, kind) && Trees(store, nodes, trees, level, items, kind.cap) && Ranges(trees, 0, |items|)
    && Added(before, store, nodes, level) && Linked(store, Addrs(nodes)) && Ascending(nodes, from)
    && forall i :: 0 <= i < |nodes| ==> nodes[i].addr < |buf|
  }

  lemma LevelDone(buf: seq<u8>, buf': seq<u8>, from: nat, mark: nat, before: Store, store: Store, after: Store, nodes: seq<Item<Key>>, trees: seq<Tree>,
                  level: nat, items: seq<Item<Key>>, kind: Kind)
    requires Partial(buf, from, mark, before, store, nodes, trees, level, items, kind) && Ranges(trees, 0, |items|)
    requires |buf'| == |buf| && Image(buf', from, after, kind) && PatchedUpTo(store, after, nodes, |nodes|)
    ensures Level(buf', from, before, after, nodes, trees, level, items, kind)
  {
    hide Image, LinkedAt, Trees, TreeAt, Ranges;
    TreesStay(store, after, nodes, trees, level, items, kind.cap);
    forall a | a in before ensures a in after && after[a] == before[a] {
      forall i | 0 <= i < |nodes| ensures Addrs(nodes)[i] != a {
      }
    }
    LastNodes(buf, from, store, nodes, kind, before, level);
  }

  // ----- leaves

  /** Cuts the list into leaves of at most `cap` entries. */
  method WriteLeaves(w: Writer, items: seq<Item<Key>>, kind: Kind, ghost limit: nat)
    returns (nodes: seq<Item<Key>>, ghost store: Store, ghost trees: seq<Tree>)
    requires items != [] && Chained(items) && KeysFit(items, kind.keyLen) && kind.cap > 0
    requires forall i :: 0 <= i < |items| ==> items[i].addr < limit
    modifies w
    ensures |w.buf| >= |old(w.buf)| && w.buf[..|old(w.buf)|] == old(w.buf)
    ensures Level(w.buf, |old(w.buf)|, map[], store, nodes, trees, 0, items, kind)
    ensures FieldsBelow(store, 0, kind.cap, limit) && KeysFit(nodes, kind.keyLen)
    ensures |nodes| <= |items| && |w.buf| <= |old(w.buf)| + Times(|nodes|, kind.Size() + 7)
  {
    hide Holds, KeysOf, Addrs, Linked, Image, Trees, Chained, KeysFit, NodeBytes, NodeOk, Kind.Size, Partial, Ranges, NodeBelow;
    ghost var from := |w.buf|;
    nodes, store, trees := [], map[], [];
    NothingYet(w.buf, items, kind);
    assert KeysFit(nodes, kind.keyLen) by { NoKeys(kind.keyLen); }
    var at := 0;
    while at < |items|
      invariant 0 <= at <= |items| && |w.buf| >= from && w.buf[..from] == old(w.buf)
      invariant |nodes| <= at && |w.buf| <= from + Times(|nodes|, kind.Size() + 7)
      invariant Partial(w.buf, from, from, map[], store, nodes, trees, 0, items, kind)
      invariant if at == 0 then trees == [] else Ranges(trees, 0, at)
      invariant FieldsBelow(store, 0, kind.cap, limit) && KeysFit(nodes, kind.keyLen)
    {
      var end := Min(at + kind.cap, |items|);
      var grp := items[at..end];
      GroupFits(items, at, end, kind.keyLen);
      KeyLengths(grp, kind.keyLen, |grp| - 1);
      NodeOverOk(0, grp, grp[|grp| - 1].last, kind);
      ghost var before, n := w.buf, NodeOver(0, grp, grp[|grp| - 1].last);
      var addr := WriteNode(w, 0, grp, grp[|grp| - 1].last, kind);
      Seqs.TakeTake(w.buf, |before|, from);
      ghost var t := Tree(addr, at, end, []);
      LeafHolds(store, n, t, items, kind.cap);
      var item := Item(grp[0].first, addr, grp[|grp| - 1].last);
      NodeAdded(before, w.buf, from, from, map[], store, nodes, trees, 0, items, kind, n, t, item);
      RangesStep(trees, 0, at, t);
      LeafBelow(items, at, end, n, kind.cap, limit);
      BelowGrows(store, 0, kind.cap, limit, addr, n, 0, limit);
      MoreKeys(nodes, item, grp, kind.keyLen);
      nodes, store, trees, at := nodes + [item], store[addr := n], trees + [t], end;
    }
    ghost var written, patched := w.buf, store;
    PartialParts(w.buf, from, from, map[], store, nodes, trees, 0, items, kind);
    store := PatchSiblings(w, nodes, from, store, kind);
    LevelDone(written, w.buf, from, from, map[], patched, store, nodes, trees, 0, items, kind);
    BelowStays(patched, store, nodes, 0, kind.cap, limit);
  }

  lemma NoKeys(k: nat)
    ensures KeysFit([], k)
  {
  }

  lemma KeyLengths(grp: seq<Item<Key>>, k: nat, i: nat)
    requires KeysFit(grp, k) && i < |grp|
    ensures |grp[i].first| == k && |grp[i].last| == k
  {
  }

  lemma MoreKeys(nodes: seq<Item<Key>>, item: Item<Key>, grp: seq<Item<Key>>, k: nat)
    requires KeysFit(nodes, k) && KeysFit(grp, k) && grp != []
    requires item.first == grp[0].first && item.last == grp[|grp| - 1].last
    ensures KeysFit(nodes + [item], k)
  {
  }

  lemma RangesStep(trees: seq<Tree>, lo: nat, at: nat, t: Tree)
    requires if at == 0 then trees == [] else Ranges(trees, lo, at)
    requires t.lo == at < t.hi && lo == 0
    ensures Ranges(trees + [t], lo, t.hi)
  {
  }

  lemma LeafBelow(items: seq<Item<Key>>, at: nat, end: nat, n: Node<Key>, cap: nat, limit: nat)
    requires at < end <= |items| && end - at <= cap && n.level == 0 && n.children == Addrs(items[at..end])
    requires forall i :: 0 <= i < |items| ==> items[i].addr < limit
    ensures NodeBelow(n, 0, cap, limit)
  {
  }

  lemma PartialParts(buf: seq<u8>, from: nat, mark: nat, before: Store, store: Store, nodes: seq<Item<Key>>, trees: seq<Tree>,
                     level: nat, items: seq<Item<Key>>, kind: Kind)
    requires Partial(buf, from, mark, before, store, nodes, trees, level, items, kind)
    ensures Image(buf, from, store, kind) && Ascending(nodes, mark) && NoSiblings(store, nodes, 0) && mark >= from
    ensures Added(before, store, nodes, level) && from <= |buf|
  {
  }

  lemma BelowStays(before: Store, after: Store, nodes: seq<Item<Key>>, level: nat, cap: nat, limit: nat)
    requires FieldsBelow(before, level, cap, limit) && PatchedUpTo(before, after, nodes, |nodes|)
    ensures FieldsBelow(after, level, cap, limit)
  {
    forall a | a in after ensures NodeBelow(after[a], level, cap, limit) {
      assert NodeBelow(before[a], level, cap, limit);
    }
  }

  // ----- parents

  lemma {:induction false} NodesChained(store: Store, nodes: seq<Item<Key>>, trees: seq<Tree>, level: nat, items: seq<Item<Key>>, cap: nat)
    requires Trees(store, nodes, trees, level, items, cap) && Ranges(trees, 0, |items|) && Chained(items)
    ensures Chained(nodes)
  {
    hide Holds;
    forall i | 0 <= i < |nodes| - 1 ensures nodes[i].last == nodes[i + 1].first {
      assert TreeAt(store, nodes, trees, i, level, items, cap);
      assert TreeAt(store, nodes, trees, i + 1, level, items, cap);
      RangesBounds(trees, 0, |items|, i + 1);
    }
  }

  lemma {:induction false} ParentHolds(store: Store, after: Store, nodes: seq<Item<Key>>, trees: seq<Tree>, level: nat, items: seq<Item<Key>>, cap: nat,
                    at: nat, end: nat, n: Node<Key>, t: Tree)
    requires Trees(store, nodes, trees, level, items, cap) && Ranges(trees, 0, |items|) && Chained(nodes)
    requires SameTrees(store, after) && at < end <= |trees| && end - at <= cap && t.addr !in after
    requires n.level == level + 1 && n.keys == KeysOf(nodes[at..end]) && n.children == Addrs(nodes[at..end])
    requires t == Tree(t.addr, trees[at].lo, trees[end - 1].hi, trees[at..end])
    ensures t.lo < t.hi <= |items| && Holds(after[t.addr := n], t, level + 1, items, cap)
    ensures ItemOf(t, items) == Item(nodes[at].first, t.addr, nodes[end - 1].last)
  {
    hide Holds, Addrs, KeysOf, Chained, KidHolds, SameTrees;
    SubRanges(trees, at, end, |items|);
    var all, up := after[t.addr := n], level + 1;
    forall i | 0 <= i < |t.kids| ensures KidHolds(all, t, i, up, items, cap) {
      KidOfParent(store, after, nodes, trees, level, items, cap, at, end, n, t, i);
    }
    assert TreeAt(store, nodes, trees, at, level, items, cap);
    assert TreeAt(store, nodes, trees, end - 1, level, items, cap);
    InnerHolds(all, t, up, items, cap);
  }

  lemma {:induction false} KidOfParent(store: Store, after: Store, nodes: seq<Item<Key>>, trees: seq<Tree>, level: nat, items: seq<Item<Key>>, cap: nat,
                    at: nat, end: nat, n: Node<Key>, t: Tree, i: nat)
    requires Trees(store, nodes, trees, level, items, cap) && Ranges(trees, 0, |items|) && Chained(nodes)
    requires SameTrees(store, after) && at < end <= |trees| && i < end - at && t.addr !in after
    requires n.level == level + 1 && n.keys == KeysOf(nodes[at..end]) && n.children == Addrs(nodes[at..end])
    requires t == Tree(t.addr, trees[at].lo, trees[end - 1].hi, trees[at..end])
    ensures KidHolds(after[t.addr := n], t, i, level + 1, items, cap)
  {
    hide Holds, Addrs, KeysOf, Chained;
    assert TreeAt(store, nodes, trees, at + i, level, items, cap);
    HoldsStays(store, after[t.addr := n], trees[at + i], level, items, cap);
    RangesBounds(trees, 0, |items|, at + i);
    KeyAt(nodes, at, end, i);
  }

  lemma {:induction false} InnerHolds(store: Store, t: Tree, level: nat, items: seq<Item<Key>>, cap: nat)
    requires level > 0 && t.addr in store && t.lo < t.hi <= |items| && store[t.addr].level == level
    requires 0 < |store[t.addr].children| <= cap && Ranges(t.kids, t.lo, t.hi)
    requires |t.kids| == |store[t.addr].children| && |store[t.addr].keys| == |t.kids| + 1
    requires forall i :: 0 <= i < |t.kids| ==> KidHolds(store, t, i, level, items, cap)
    ensures Holds(store, t, level, items, cap)
  {
  }

  /** Key i of a node is the first key of child i, and key i + 1 its last. */
  lemma KeyAt(nodes: seq<Item<Key>>, at: nat, end: nat, i: nat)
    requires at < end <= |nodes| && i < end - at && Chained(nodes)
    ensures KeysOf(nodes[at..end])[i] == nodes[at + i].first && KeysOf(nodes[at..end])[i + 1] == nodes[at + i].last
    ensures Addrs(nodes[at..end])[i] == nodes[at + i].addr
  {
  }

  lemma SubRanges(trees: seq<Tree>, at: nat, end: nat, n: nat)
    requires Ranges(trees, 0, n) && at < end <= |trees|
    ensures Ranges(trees[at..end], trees[at].lo, trees[end - 1].hi) && trees[at].lo < trees[end - 1].hi <= n
  {
    RangesBounds(trees, 0, n, end - 1);
    RangesBounds(trees, 0, n, at);
    SubEnds(trees, at, end, n);
  }

  lemma {:induction false} SubEnds(trees: seq<Tree>, at: nat, end: nat, n: nat)
    requires Ranges(trees, 0, n) && at < end <= |trees|
    ensures trees[at].lo < trees[end - 1].hi
    decreases end
  {
    if at + 1 < end {
      SubEnds(trees, at, end - 1, n);
      assert trees[end - 2].hi == trees[end - 2 + 1].lo;
    }
  }

  lemma LevelParts(buf: seq<u8>, from: nat, before: Store, store: Store, nodes: seq<Item<Key>>, trees: seq<Tree>,
                   level: nat, items: seq<Item<Key>>, kind: Kind)
    requires Level(buf, from, before, store, nodes, trees, level, items, kind)
    ensures Partial(buf, from, |buf|, store, store, [], [], level + 1, items, kind)
    ensures Trees(store, nodes, trees, level, items, kind.cap) && |nodes| == |trees| > 0 && Ranges(trees, 0, |items|) && from <= |buf|
    ensures forall i :: 0 <= i < |nodes| ==> nodes[i].addr < |buf|
  {
    hide Holds, Image;
  }

  /** One parent for every `cap` nodes. */
  method WriteParents(w: Writer, below: seq<Item<Key>>, ghost kids: seq<Tree>, ghost prev: Store, ghost had: Store, level: nat,
                      ghost items: seq<Item<Key>>, kind: Kind, ghost from: nat, ghost limit: nat)
    returns (nodes: seq<Item<Key>>, ghost store: Store, ghost trees: seq<Tree>)
    requires Level(w.buf, from, prev, had, below, kids, level, items, kind) && Chained(items) && kind.cap > 1
    requires KeysFit(below, kind.keyLen) && FieldsBelow(had, level, kind.cap, Max(limit, |w.buf|))
    modifies w
    ensures |w.buf| >= |old(w.buf)| && w.buf[..from] == old(w.buf)[..from]
    ensures Level(w.buf, from, had, store, nodes, trees, level + 1, items, kind)
    ensures FieldsBelow(store, level + 1, kind.cap, Max(limit, |w.buf|)) && KeysFit(nodes, kind.keyLen)
    ensures |nodes| >= 1 && 2 * (|nodes| - 1) <= |below| - 1
    ensures |old(w.buf)| <= |w.buf| <= |old(w.buf)| + Times(|nodes|, kind.Size() + 7)
  {
    hide Holds, KeysOf, Addrs, Linked, Image, Trees, Chained, KeysFit, NodeBytes, NodeOk, Kind.Size, Partial, Level, Ranges, NodeBelow,
         FieldsBelow, Added, SameTrees;
    LevelParts(w.buf, from, prev, had, below, kids, level, items, kind);
    NodesChained(had, below, kids, level, items, kind.cap);
    ghost var mark, up := |w.buf|, level + 1;
    nodes, store, trees := [], had, [];
    assert KeysFit(nodes, kind.keyLen) by { NoKeys(kind.keyLen); }
    assert FieldsBelow(store, up, kind.cap, Max(limit, mark)) by { BelowUp(had, level, kind.cap, Max(limit, mark)); }
    var at := 0;
    while at < |below|
      invariant 0 <= at <= |below| && mark <= |w.buf| && w.buf[..from] == old(w.buf)[..from]
      invariant |w.buf| <= mark + Times(|nodes|, kind.Size() + 7)
      invariant if at < |below| then 2 * |nodes| <= at else at == 0 || 2 * (|nodes| - 1) <= at - 1
      invariant at > 0 ==> nodes != []
      invariant Partial(w.buf, from, mark, had, store, nodes, trees, up, items, kind)
      invariant at == 0 ==> trees == []
      invariant at > 0 ==> at <= |kids| && Ranges(trees, 0, kids[at - 1].hi)
      invariant FieldsBelow(store, up, kind.cap, Max(limit, |w.buf|)) && KeysFit(nodes, kind.keyLen)
    {
      var end := Min(at + kind.cap, |below|);
      var grp := below[at..end];
      GroupFits(below, at, end, kind.keyLen);
      KeyLengths(grp, kind.keyLen, |grp| - 1);
      NodeOverOk(up, grp, grp[|grp| - 1].last, kind);
      ghost var before, n := w.buf, NodeOver(up, grp, grp[|grp| - 1].last);
      var addr := WriteNode(w, level + 1, grp, grp[|grp| - 1].last, kind);
      Seqs.TakeTake(w.buf, |before|, from);
      ghost var t := Tree(addr, kids[at].lo, kids[end - 1].hi, kids[at..end]);
      var item := Item(grp[0].first, addr, grp[|grp| - 1].last);
      PartialParts(before, from, mark, had, store, nodes, trees, up, items, kind);
      AddedSame(had, store, nodes, up);
      ParentAt(before, from, had, store, below, kids, level, items, kind, at, end, n, t);
      NodeAdded(before, w.buf, from, mark, had, store, nodes, trees, up, items, kind, n, t, item);
      ParentRange(trees, kids, at, |items|, t);
      ParentBelow(below, at, end, n, up, kind.cap, Max(limit, |w.buf|));
      BelowGrows(store, up, kind.cap, Max(limit, |before|), addr, n, up, Max(limit, |w.buf|));
      MoreKeys(nodes, item, grp, kind.keyLen);
      nodes, store, trees, at := nodes + [item], store[addr := n], trees + [t], end;
    }
    ParentsCover(kids, |items|);
    ghost var written, patched := w.buf, store;
    PartialParts(w.buf, from, mark, had, store, nodes, trees, up, items, kind);
    AscendingFrom(nodes, mark, from);
    store := PatchSiblings(w, nodes, from, store, kind);
    LevelDone(written, w.buf, from, mark, had, patched, store, nodes, trees, up, items, kind);
    BelowStays(patched, store, nodes, up, kind.cap, Max(limit, |w.buf|));
  }

  lemma AscendingFrom(nodes: seq<Item<Key>>, mark: nat, from: nat)
    requires Ascending(nodes, mark) && from <= mark
    ensures Ascending(nodes, from)
  {
  }

  lemma BelowUp(store: Store, level: nat, cap: nat, limit: nat)
    requires FieldsBelow(store, level, cap, limit)
    ensures FieldsBelow(store, level + 1, cap, limit)
  {
    forall a | a in store ensures NodeBelow(store[a], level + 1, cap, limit) {
      assert NodeBelow(store[a], level, cap, limit);
    }
  }

  lemma ParentBelow(below: seq<Item<Key>>, at: nat, end: nat, n: Node<Key>, level: nat, cap: nat, limit: nat)
    requires at < end <= |below| && end - at <= cap && n.level == level && n.children == Addrs(below[at..end])
    requires forall i :: 0 <= i < |below| ==> below[i].addr < limit
    ensures NodeBelow(n, level, cap, limit)
  {
  }

  lemma {:induction false} ParentAt(buf: seq<u8>, from: nat, had: Store, store: Store, below: seq<Item<Key>>, kids: seq<Tree>, level: nat, items: seq<Item<Key>>, kind: Kind,
                 at: nat, end: nat, n: Node<Key>, t: Tree)
    requires Trees(had, below, kids, level, items, kind.cap) && Ranges(kids, 0, |items|) && Chained(below)
    requires Image(buf, from, store, kind) && t.addr >= |buf|
    requires SameTrees(had, store) && at < end <= |kids| && end - at <= kind.cap
    requires n.level == level + 1 && n.keys == KeysOf(below[at..end]) && n.children == Addrs(below[at..end])
    requires t == Tree(t.addr, kids[at].lo, kids[end - 1].hi, kids[at..end])
    ensures t.addr !in store && t.lo < t.hi <= |items| && Holds(store[t.addr := n], t, level + 1, items, kind.cap)
    ensures ItemOf(t, items) == Item(below[at].first, t.addr, below[end - 1].last)
  {
    hide Holds, Addrs, KeysOf, Chained, SameTrees, NodeBytes, NodeOk, Kind.Size, Trees, Ranges;
    if t.addr in store {
      assert NodeAt(buf, t.addr, store[t.addr], kind);
      SizePositive(kind);
    }
    ParentHolds(had, store, below, kids, level, items, kind.cap, at, end, n, t);
  }

  lemma ParentRange(trees: seq<Tree>, kids: seq<Tree>, at: nat, n: nat, t: Tree)
    requires Ranges(kids, 0, n) && at < |kids| && t.lo == kids[at].lo < t.hi
    requires if at == 0 then trees == [] else Ranges(trees, 0, kids[at - 1].hi)
    ensures Ranges(trees + [t], 0, t.hi)
  {
    assert at > 0 ==> kids[at - 1].hi == kids[at - 1 + 1].lo;
  }

  lemma ParentsCover(kids: seq<Tree>, n: nat)
    requires Ranges(kids, 0, n)
    ensures kids[|kids| - 1].hi == n
  {
  }

  // ----- the whole tree

  /** The nodes of every level, left to right: they are all nodes of that level, and linked. */
  ghost predicate LevelsLinked(store: Store, levels: seq<seq<nat>>) {
    && (forall a :: a in store ==> store[a].level < |levels| && a in levels[store[a].level])
    && forall l :: 0 <= l < |levels| ==> LevelLinked(store, levels, l)
  }

  ghost predicate LevelLinked(store: Store, levels: seq<seq<nat>>, l: nat)
    requires l < |levels|
  {
    Linked(store, levels[l]) && forall a :: a in levels[l] ==> a in store && store[a].level == l
  }

  lemma LevelsGrow(before: Store, after: Store, levels: seq<seq<nat>>, nodes: seq<Item<Key>>)
    requires LevelsLinked(before, levels) && Added(before, after, nodes, |levels|) && Linked(after, Addrs(nodes))
    ensures LevelsLinked(after, levels + [Addrs(nodes)])
  {
    var more := levels + [Addrs(nodes)];
    forall a | a in after ensures after[a].level < |more| && a in more[after[a].level] {
      if a !in before {
        var i :| 0 <= i < |nodes| && Addrs(nodes)[i] == a;
      }
    }
    forall l | 0 <= l < |more| ensures LevelLinked(after, more, l) {
      if l < |levels| {
        assert LevelLinked(before, levels, l);
        LinkedStays(before, after, levels[l]);
      } else {
        forall a | a in more[l] ensures a in after && after[a].level == l {
          var i :| 0 <= i < |nodes| && Addrs(nodes)[i] == a;
        }
      }
    }
  }

  lemma LinkedStays(before: Store, after: Store, addrs: seq<nat>)
    requires Linked(before, addrs) && forall a :: a in before ==> a in after && after[a] == before[a]
    ensures Linked(after, addrs)
  {
    forall i | 0 <= i < |addrs| ensures LinkedAt(after, addrs, i) {
      assert LinkedAt(before, addrs, i);
    }
  }

  lemma LevelDetails(buf: seq<u8>, from: nat, before: Store, store: Store, nodes: seq<Item<Key>>, trees: seq<Tree>,
                     level: nat, items: seq<Item<Key>>, kind: Kind)
    requires Level(buf, from, before, store, nodes, trees, level, items, kind)
    ensures Added(before, store, nodes, level) && Linked(store, Addrs(nodes)) && Image(buf, from, store, kind)
    ensures 0 < |nodes| <= |buf|
    ensures |nodes| == 1 ==> |trees| == 1 && trees[0].lo == 0 && trees[0].hi == |items| && trees[0].addr == nodes[0].addr
                             && Holds(store, trees[0], level, items, kind.cap)
  {
    hide Holds, Image, Linked, Added;
    Count(nodes, from, |nodes| - 1);
    if |nodes| == 1 {
      assert TreeAt(store, nodes, trees, 0, level, items, kind.cap);
    }
  }

  lemma {:induction false} Count(nodes: seq<Item<Key>>, from: nat, i: nat)
    requires Ascending(nodes, from) && i < |nodes|
    ensures nodes[i].addr >= i
  {
    if i > 0 {
      Count(nodes, from, i - 1);
    }
  }

  /** Halving so few nodes takes few levels. */
  lemma FewLevels(level: nat, nodes: nat, leaves: nat)
    requires nodes > 1 && Pow2(level) * (nodes - 1) <= leaves - 1 && leaves < TWO_64
    ensures level < 64
  {
    MulMonotone(Pow2(level), 1, nodes - 1);
    Pow2Constants();
    if level >= 64 {
      Pow2Monotone(64, level);
    }
  }

  lemma Halved(level: nat, nodes: nat, parents: nat, leaves: nat)
    requires 2 * (parents - 1) <= nodes - 1 && Pow2(level) * (nodes - 1) <= leaves - 1
    ensures Pow2(level + 1) * (parents - 1) <= leaves - 1
  {
    MulMonotone(Pow2(level), 2 * (parents - 1), nodes - 1);
    MulAssociative(Pow2(level), 2, parents - 1);
  }

  lemma {:induction false} TimesSum(a: nat, b: nat, c: nat)
    ensures Times(a + b, c) == Times(a, c) + Times(b, c)
  {
    if b > 0 {
      TimesSum(a, b - 1, c);
    }
  }

  /** Room enough for the nodes of a tree over n entries. */
  function TreeRoom(n: nat, kind: Kind): nat {
    Times(3 * Max(n, 1), kind.Size() + 7)
  }

  lemma RoomLeft(size: nat, from: nat, count: nat, nodes: nat, n: nat, kind: Kind)
    requires size <= from + Times(count, kind.Size() + 7) && count + 2 * (nodes - 1) <= 3 * n && nodes >= 1
    ensures size <= from + TreeRoom(n, kind)
  {
    TimesMonotone(count, 3 * Max(n, 1), kind.Size() + 7);
  }

  /** Builds the tree over a list that is not empty; `height` is the level of its root. */
  method Build(w: Writer, items: seq<Item<Key>>, kind: Kind, ghost limit: nat)
    returns (root: nat, ghost store: Store, ghost t: Tree, ghost height: nat, ghost levels: seq<seq<nat>>)
    requires items != [] && Chained(items) && KeysFit(items, kind.keyLen) && kind.cap > 1
    requires forall i :: 0 <= i < |items| ==> items[i].addr < limit
    modifies w
    ensures |w.buf| >= |old(w.buf)| && w.buf[..|old(w.buf)|] == old(w.buf) && Image(w.buf, |old(w.buf)|, store, kind)
    ensures t.addr == root && t.lo == 0 && t.hi == |items| && Holds(store, t, height, items, kind.cap)
    ensures |levels| == height + 1 && LevelsLinked(store, levels)
    ensures FieldsBelow(store, height, kind.cap, Max(limit, |w.buf|)) && (|w.buf| < TWO_64 ==> height <= 64)
    ensures |w.buf| <= |old(w.buf)| + TreeRoom(|items|, kind)
  {
    hide Holds, Linked, Chained, Level, Image, FieldsBelow, Added, LevelsLinked, KeysFit, Pow2, Kind.Size, Times;
    ghost var from, had: Store := |w.buf|, map[];
    var nodes;
    ghost var trees;
    nodes, store, trees := WriteLeaves(w, items, kind, limit);
    LevelDetails(w.buf, from, had, store, nodes, trees, 0, items, kind);
    FirstLevel(store, nodes);
    BelowMax(store, 0, kind.cap, limit, |w.buf|);
    var level: nat := 0;
    levels := [Addrs(nodes)];
    ghost var leaves, count: nat := |nodes|, |nodes|;
    One(leaves);
    while |nodes| > 1
      invariant |w.buf| >= from && w.buf[..from] == old(w.buf) && leaves <= |w.buf|
      invariant Level(w.buf, from, had, store, nodes, trees, level, items, kind) && KeysFit(nodes, kind.keyLen)
      invariant |levels| == level + 1 && LevelsLinked(store, levels) && nodes != []
      invariant FieldsBelow(store, level, kind.cap, Max(limit, |w.buf|))
      invariant |w.buf| <= from + Times(count, kind.Size() + 7) && count + 2 * (|nodes| - 1) <= 3 * |items|
      invariant Pow2(level) * (|nodes| - 1) <= leaves - 1 && (leaves < TWO_64 ==> level <= 64)
      decreases |nodes|
    {
      if leaves < TWO_64 {
        FewLevels(level, |nodes|, leaves);
      }
      ghost var below, prev := nodes, store;
      nodes, store, trees := WriteParents(w, nodes, trees, had, store, level, items, kind, from, limit);
      had, level := prev, level + 1;
      LevelDetails(w.buf, from, had, store, nodes, trees, level, items, kind);
      LevelsGrow(had, store, levels, nodes);
      Halved(level - 1, |below|, |nodes|, leaves);
      TimesSum(count, |nodes|, kind.Size() + 7);
      count := count + |nodes|;
      levels := levels + [Addrs(nodes)];
    }
    LevelDetails(w.buf, from, had, store, nodes, trees, level, items, kind);
    RoomLeft(|w.buf|, from, count, |nodes|, |items|, kind);
    root, t, height := nodes[0].addr, trees[0], level;
  }

  lemma One(n: nat)
    ensures Pow2(0) * (n - 1) <= n - 1
  {
  }

  lemma FirstLevel(store: Store, nodes: seq<Item<Key>>)
    requires Added(map[], store, nodes, 0) && Linked(store, Addrs(nodes))
    ensures LevelsLinked(store, [Addrs(nodes)])
  {
    assert LevelsLinked(map[], []);
    LevelsGrow(map[], store, [], nodes);
    assert [] + [Addrs(nodes)] == [Addrs(nodes)];
  }

  lemma BelowMax(store: Store, level: nat, cap: nat, limit: nat, more: nat)
    requires FieldsBelow(store, level, cap, limit)
    ensures FieldsBelow(store, level, cap, Max(limit, more))
  {
    forall a | a in store ensures NodeBelow(store[a], level, cap, Max(limit, more)) {
      assert NodeBelow(store[a], level, cap, limit);
    }
  }
}
