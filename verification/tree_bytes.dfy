/** B-tree nodes as bytes of the file, and the walkers that read them. */
module TreeBytes {
  import opened Wrappers
  import opened Bytes
  import opened BTree
  import opened FormatBuf
  import opened FileWriter
  import Seqs

  const TREE: seq<u8> := [0x54, 0x52, 0x45, 0x45]

  /** Keys of nodes in a file are bytes; all keys of a tree have the same length. */
  type Key = seq<u8>

  /** What all nodes of a tree share: node type, key length and capacity. */
  datatype Kind = Kind(node: u8, keyLen: nat, cap: nat) {
    function Step(): nat {
      keyLen + 8
    }

    /** The space of every node. */
    function Size(): nat {
      24 + Times(cap, Step()) + keyLen
    }

    /** A group node's walker reads the key behind every child, a chunk node's the one in front. */
    function Tail(): nat {
      if node == 0 then keyLen else 0
    }
  }

  // ----- bytes of a node

  function SiblingBytes(a: Option<nat>): (s: seq<u8>)
    ensures |s| == 8
  {
    Le(match a case None => UNDEF case Some(addr) => addr, 8)
  }

  function Front(kind: Kind, level: nat, n: nat): (s: seq<u8>)
    ensures |s| == 8
  {
    TREE + [kind.node] + Le(level, 1) + Le(n, 2)
  }

  /** The first n entries: a key, then a child. */
  function Pairs(keys: seq<Key>, children: seq<nat>, n: nat): seq<u8>
    requires n <= |keys| && n <= |children|
  {
    if n == 0 then [] else Pairs(keys, children, n - 1) + (keys[n - 1] + Le(children[n - 1], 8))
  }

  ghost predicate NodeOk(n: Node<Key>, kind: Kind) {
    && |n.keys| == |n.children| + 1 && |n.children| <= kind.cap
    && forall i :: 0 <= i < |n.keys| ==> |n.keys[i]| == kind.keyLen
  }

  function Content(n: Node<Key>): seq<u8>
    requires |n.keys| == |n.children| + 1
  {
    Pairs(n.keys, n.children, |n.children|) + n.keys[|n.children|]
  }

  lemma {:induction false} PairsLength(keys: seq<Key>, children: seq<nat>, n: nat, k: nat)
    requires n <= |keys| && n <= |children| && forall i :: 0 <= i < n ==> |keys[i]| == k
    ensures |Pairs(keys, children, n)| == Times(n, k + 8)
  {
    if n > 0 {
      PairsLength(keys, children, n - 1, k);
    }
  }

  lemma ContentFits(n: Node<Key>, kind: Kind)
    requires NodeOk(n, kind)
    ensures |Content(n)| <= kind.Size() - 24
  {
    PairsLength(n.keys, n.children, |n.children|, kind.keyLen);
    TimesMonotone(|n.children|, kind.cap, kind.Step());
  }

  function NodeBytes(n: Node<Key>, kind: Kind): (s: seq<u8>)
    requires NodeOk(n, kind)
    ensures |s| == kind.Size()
  {
    ContentFits(n, kind);
    Front(kind, n.level, |n.children|) + SiblingBytes(n.left) + SiblingBytes(n.right)
    + (Content(n) + Zeroed(kind.Size() - 24 - |Content(n)|))
  }

  lemma Splice(a: seq<u8>, x: seq<u8>, y: seq<u8>, rest: seq<u8>, v: seq<u8>)
    requires |a| == |x| == |y| == |v| == 8
    ensures var s := a + x + y + rest;
            && s[..8] + v + s[16..] == a + v + y + rest
            && s[..16] + v + s[24..] == a + x + v + rest
  {
    var s := a + x + y + rest;
    assert s[..8] == a && s[16..] == y + rest && s[..16] == a + x && s[24..] == rest;
  }

  /** Patching a sibling field is changing that sibling. */
  lemma PatchSibling(n: Node<Key>, kind: Kind, a: nat)
    requires NodeOk(n, kind)
    ensures Patched(NodeBytes(n, kind), 8, a) == NodeBytes(n.(left := Some(a)), kind)
    ensures Patched(NodeBytes(n, kind), 16, a) == NodeBytes(n.(right := Some(a)), kind)
  {
    hide Le, Content, Pairs;
    ContentFits(n, kind);
    ContentFits(n.(left := Some(a)), kind);
    ContentFits(n.(right := Some(a)), kind);
    SameContent(n, a);
    Splice(Front(kind, n.level, |n.children|), SiblingBytes(n.left), SiblingBytes(n.right),
           Content(n) + Zeroed(kind.Size() - 24 - |Content(n)|), Le(a, 8));
  }

  lemma SameContent(n: Node<Key>, a: nat)
    requires |n.keys| == |n.children| + 1
    ensures Content(n.(left := Some(a))) == Content(n) == Content(n.(right := Some(a)))
  {
  }

  // ----- a file holding nodes

  ghost predicate NodeAt(buf: seq<u8>, addr: nat, n: Node<Key>, kind: Kind) {
    NodeOk(n, kind) && addr + kind.Size() <= |buf| && buf[addr..addr + kind.Size()] == NodeBytes(n, kind)
  }

  /** All nodes of the store are in the file, apart from each other and behind `from`. */
  ghost predicate Image(buf: seq<u8>, from: nat, store: map<nat, Node<Key>>, kind: Kind) {
    && (forall a :: a in store ==> a >= from && NodeAt(buf, a, store[a], kind))
    && forall a, b :: a in store && b in store && a < b ==> a + kind.Size() <= b
  }

  lemma ImageGrows(before: seq<u8>, after: seq<u8>, from: nat, store: map<nat, Node<Key>>, kind: Kind, addr: nat, n: Node<Key>)
    requires Image(before, from, store, kind) && from <= |before| <= addr && NodeOk(n, kind)
    requires |after| >= |before| && after[..|before|] == before
    requires addr + kind.Size() == |after| && after[addr..] == NodeBytes(n, kind)
    ensures Image(after, from, store[addr := n], kind) && addr !in store
  {
    hide NodeBytes, NodeOk, Kind.Size;
    var all := store[addr := n];
    forall a | a in store ensures a + kind.Size() <= |before| && NodeAt(after, a, store[a], kind) {
      Seqs.SliceOfTake(after, |before|, a, a + kind.Size());
    }
    assert after[addr..addr + kind.Size()] == after[addr..];
    if addr in store {
      assert NodeAt(before, addr, store[addr], kind);
      SizePositive(kind);
    }
  }

  lemma SizePositive(kind: Kind)
    ensures kind.Size() >= 24
  {
  }

  lemma ImagePatched(buf: seq<u8>, from: nat, store: map<nat, Node<Key>>, kind: Kind, addr: nat, at: nat, v: nat, n: Node<Key>)
    requires Image(buf, from, store, kind) && addr in store && addr <= at && at + 8 <= addr + kind.Size()
    requires NodeOk(n, kind) && Patched(NodeBytes(store[addr], kind), at - addr, v) == NodeBytes(n, kind)
    ensures at + 8 <= |buf| && Image(Patched(buf, at, v), from, store[addr := n], kind)
  {
    hide NodeBytes, NodeOk, Patched, Kind.Size;
    assert NodeAt(buf, addr, store[addr], kind);
    var all := store[addr := n];
    forall a | a in all ensures NodeAt(Patched(buf, at, v), a, all[a], kind) {
      assert NodeAt(buf, a, store[a], kind);
      if a == addr {
        PatchedInside(buf, at, v, a, a + kind.Size());
      } else {
        PatchedSlice(buf, at, v, a, a + kind.Size());
      }
    }
  }

  // ----- walking the file

  /** The walkers of the reader, at an address: all leaf entries, with the key in front of each. */
  function ReadTree(data: seq<u8>, base: nat, addr: nat, kind: Kind, depth: nat): Option<seq<(Key, nat)>>
    decreases depth, 1
  {
    if addr == UNDEF then Some([])
    else
      var at := base + addr;
      if depth == 0 || at + 24 + kind.Tail() > |data| || data[at..at + 4] != TREE || data[at + 4] != kind.node then None
      else ReadEntries(data, base, at + 24, kind, FromLe(data[at + 5..at + 6]), FromLe(data[at + 6..at + 8]), depth)
  }

  /** The first n entries at `at`. */
  function ReadEntries(data: seq<u8>, base: nat, at: nat, kind: Kind, level: nat, n: nat, depth: nat): Option<seq<(Key, nat)>>
    requires depth > 0
    decreases depth, 0, n
  {
    if n == 0 then Some([])
    else
      match ReadEntries(data, base, at, kind, level, n - 1, depth)
      case None => None
      case Some(before) =>
        var p := at + Times(n - 1, kind.Step());
        if p + kind.Step() + kind.Tail() > |data| then None
        else
          var key, child := data[p..p + kind.keyLen], FromLe(data[p + kind.keyLen..p + kind.Step()]);
          if level == 0 then Some(before + [(key, child)])
          else
            match ReadTree(data, base, child, kind, depth - 1)
            case None => None
            case Some(below) => Some(before + below)
  }

  // ----- reading what was written

  /** The fields of a node hold its level, its addresses and its number of entries. */
  ghost predicate FieldsFit(n: Node<Key>) {
    && n.level < 0x100 && |n.children| < 0x1_0000
    && forall i :: 0 <= i < |n.children| ==> n.children[i] < TWO_64
  }

  lemma FrontAt(data: seq<u8>, at: nat, kind: Kind, level: nat, n: nat)
    requires Seqs.At(data, at, Front(kind, level, n)) && level < 0x100 && n < 0x1_0000
    ensures at + 8 <= |data| && data[at..at + 4] == TREE && data[at + 4] == kind.node
    ensures FromLe(data[at + 5..at + 6]) == level && FromLe(data[at + 6..at + 8]) == n
  {
    hide Le, FromLe;
    Seqs.AtSplit(data, at, TREE + [kind.node] + Le(level, 1), Le(n, 2));
    Seqs.AtSplit(data, at, TREE + [kind.node], Le(level, 1));
    Seqs.AtSplit(data, at, TREE, [kind.node]);
    Seqs.AtElement(data, at + 4, [kind.node], 0);
    FromLeOfLe(level, 1);
    FromLeOfLe(n, 2);
    Pow2Constants();
    assert Pow2(8 * 1) == 0x100 && Pow2(8 * 2) == 0x1_0000;
  }

  lemma NodeParts(data: seq<u8>, at: nat, n: Node<Key>, kind: Kind)
    requires NodeOk(n, kind) && Seqs.At(data, at, NodeBytes(n, kind))
    ensures Seqs.At(data, at, Front(kind, n.level, |n.children|))
    ensures Seqs.At(data, at + 24, Content(n))
  {
    hide Le, Content;
    ContentFits(n, kind);
    var front, left, right := Front(kind, n.level, |n.children|), SiblingBytes(n.left), SiblingBytes(n.right);
    var zeros := Zeroed(kind.Size() - 24 - |Content(n)|);
    Seqs.AtSplit(data, at, front + left + right, Content(n) + zeros);
    Seqs.AtSplit(data, at, front + left, right);
    Seqs.AtSplit(data, at, front, left);
    Seqs.AtSplit(data, at + 24, Content(n), zeros);
  }

  lemma {:induction false} PairAt(data: seq<u8>, at: nat, keys: seq<Key>, children: seq<nat>, n: nat, k: nat, i: nat)
    requires i < n <= |keys| && n <= |children| && forall j :: 0 <= j < n ==> |keys[j]| == k
    requires Seqs.At(data, at, Pairs(keys, children, n))
    ensures Seqs.At(data, at + Times(i, k + 8), keys[i]) && Seqs.At(data, at + Times(i, k + 8) + k, Le(children[i], 8))
  {
    hide Le;
    Seqs.AtSplit(data, at, Pairs(keys, children, n - 1), keys[n - 1] + Le(children[n - 1], 8));
    if i < n - 1 {
      PairAt(data, at, keys, children, n - 1, k, i);
    } else {
      PairsLength(keys, children, i, k);
      Seqs.AtSplit(data, at + Times(i, k + 8), keys[i], Le(children[i], 8));
    }
  }

  /** Entry i of a node, where a walker looks for it. */
  lemma EntryAt(data: seq<u8>, at: nat, n: Node<Key>, kind: Kind, i: nat)
    requires NodeOk(n, kind) && Seqs.At(data, at, Content(n)) && i < |n.children| && n.children[i] < TWO_64
    ensures var p := at + Times(i, kind.Step());
            && p + kind.Step() + kind.keyLen <= |data| && data[p..p + kind.keyLen] == n.keys[i]
            && FromLe(data[p + kind.keyLen..p + kind.Step()]) == n.children[i]
  {
    hide Le, FromLe, Pairs, Seqs.At, Content, Times;
    var count, k := |n.children|, kind.keyLen;
    var p := at + Times(i, k + 8);
    assert Seqs.At(data, at, Pairs(n.keys, n.children, count) + n.keys[count]) by { ContentParts(n); }
    Seqs.AtSplit(data, at, Pairs(n.keys, n.children, count), n.keys[count]);
    PairAt(data, at, n.keys, n.children, count, k, i);
    EntryInside(data, at, n, kind, i);
    AtSlice(data, p, n.keys[i]);
    AtSlice(data, p + k, Le(n.children[i], 8));
    EightBytes(n.children[i]);
  }

  lemma ContentParts(n: Node<Key>)
    requires |n.keys| == |n.children| + 1
    ensures Content(n) == Pairs(n.keys, n.children, |n.children|) + n.keys[|n.children|]
  {
  }

  lemma AtSlice(data: seq<u8>, p: nat, s: seq<u8>)
    requires Seqs.At(data, p, s)
    ensures p + |s| <= |data| && data[p..p + |s|] == s
  {
  }

  lemma EntryInside(data: seq<u8>, at: nat, n: Node<Key>, kind: Kind, i: nat)
    requires NodeOk(n, kind) && Seqs.At(data, at, Content(n)) && i < |n.children|
    ensures at + Times(i, kind.Step()) + kind.Step() + kind.keyLen <= |data|
  {
    hide Le, Pairs;
    PairsLength(n.keys, n.children, |n.children|, kind.keyLen);
    TimesMonotone(i, |n.children|, kind.Step());
  }

  /** A file that holds the nodes of a store, with anything in front of it and behind it, is
      walked as the store is. */
  lemma {:induction false} ReadOfImage(pre: seq<u8>, buf: seq<u8>, more: seq<u8>, from: nat, store: map<nat, Node<Key>>, kind: Kind, addr: nat, depth: nat)
    requires Image(buf, from, store, kind) && |buf| < UNDEF
    requires forall a :: a in store ==> FieldsFit(store[a])
    requires Walk(store, addr, depth).Some?
    ensures ReadTree(pre + buf + more, |pre|, addr, kind, depth) == Walk(store, addr, depth)
    decreases depth, 1
  {
    hide FromLe, NodeBytes, ReadEntries, WalkEntries, Content, Pairs;
    var data, at, node := pre + buf + more, |pre| + addr, store[addr];
    assert NodeAt(buf, addr, node, kind);
    Seqs.AtInside(pre, buf, more, addr, NodeBytes(node, kind));
    NodeParts(data, at, node, kind);
    FrontAt(data, at, kind, node.level, |node.children|);
    EntriesOfImage(pre, buf, more, from, store, kind, addr, |node.children|, depth);
    KeyBehind(node);
  }

  lemma KeyBehind(n: Node<Key>)
    requires |n.keys| == |n.children| + 1
    ensures |Content(n)| >= |n.keys[|n.children|]|
  {
  }

  lemma {:induction false} EntriesOfImage(pre: seq<u8>, buf: seq<u8>, more: seq<u8>, from: nat, store: map<nat, Node<Key>>, kind: Kind, addr: nat, n: nat, depth: nat)
    requires Image(buf, from, store, kind) && |buf| < UNDEF
    requires forall a :: a in store ==> FieldsFit(store[a])
    requires addr in store && n <= |store[addr].children| <= |store[addr].keys| && depth > 0
    requires Seqs.At(pre + buf + more, |pre| + addr + 24, Content(store[addr]))
    requires WalkEntries(store, store[addr], n, depth).Some?
    ensures ReadEntries(pre + buf + more, |pre|, |pre| + addr + 24, kind, store[addr].level, n, depth)
         == WalkEntries(store, store[addr], n, depth)
    decreases depth, 0, n
  {
    hide FromLe, NodeBytes, Content, Pairs, ReadTree;
    if n > 0 {
      var node := store[addr];
      EntriesOfImage(pre, buf, more, from, store, kind, addr, n - 1, depth);
      assert NodeAt(buf, addr, node, kind);
      EntryAt(pre + buf + more, |pre| + addr + 24, node, kind, n - 1);
      if node.level > 0 {
        ReadOfImage(pre, buf, more, from, store, kind, node.children[n - 1], depth - 1);
      }
    }
  }

  /** Walking with a cursor, pushing onto a list. */
  method WalkTree(data: seq<u8>, base: nat, addr: nat, kind: Kind, depth: nat, out: seq<(Key, nat)>) returns (r: Option<seq<(Key, nat)>>)
    ensures r == match ReadTree(data, base, addr, kind, depth) case None => None case Some(below) => Some(out + below)
    decreases depth
  {
    hide FromLe;
    if addr == UNDEF {
      Seqs.Empty(out);
      return Some(out);
    }
    if depth == 0 {
      return None;
    }
    var at := base + addr;
    var c := new Cursor(data, at);
    var sig := c.Take(4);
    if sig.Failure? || sig.value != TREE {
      return None;
    }
    var node := c.Byte();
    if node.Failure? || node.value != kind.node {
      return None;
    }
    var level := c.Uint(1);
    if level.Failure? {
      return None;
    }
    var entries := c.Uint(2);
    if entries.Failure? {
      return None;
    }
    var siblings := c.Take(16);
    if siblings.Failure? {
      return None;
    }
    if at + 24 + kind.Tail() > |data| {
      return None;
    }
    r := WalkNode(data, base, at + 24, kind, level.value, entries.value, depth, out);
  }

  method WalkNode(data: seq<u8>, base: nat, at: nat, kind: Kind, level: nat, n: nat, depth: nat, out: seq<(Key, nat)>) returns (r: Option<seq<(Key, nat)>>)
    requires depth > 0
    ensures r == match ReadEntries(data, base, at, kind, level, n, depth) case None => None case Some(below) => Some(out + below)
    decreases depth, 0
  {
    hide FromLe, ReadTree;
    var c := new Cursor(data, at);
    var all := out;
    Seqs.Empty(out);
    for i := 0 to n
      invariant c.pos == at + Times(i, kind.Step())
      invariant ReadEntries(data, base, at, kind, level, i, depth).Some?
      invariant all == out + ReadEntries(data, base, at, kind, level, i, depth).value
    {
      ghost var before := ReadEntries(data, base, at, kind, level, i, depth).value;
      var key := c.Take(kind.keyLen);
      var child := c.Uint(8);
      if key.Failure? || child.Failure? || c.pos + kind.Tail() > |data| {
        ReadFails(data, base, at, kind, level, i + 1, n, depth);
        return None;
      }
      if level == 0 {
        Seqs.Assoc(out, before, [(key.value, child.value)]);
        all := all + [(key.value, child.value)];
      } else {
        var deeper := WalkTree(data, base, child.value, kind, depth - 1, all);
        if deeper.None? {
          ReadFails(data, base, at, kind, level, i + 1, n, depth);
          return None;
        }
        Seqs.Assoc(out, before, ReadTree(data, base, child.value, kind, depth - 1).value);
        all := deeper.value;
      }
    }
    r := Some(all);
  }

  lemma {:induction false} ReadFails(data: seq<u8>, base: nat, at: nat, kind: Kind, level: nat, i: nat, n: nat, depth: nat)
    requires depth > 0 && i <= n && ReadEntries(data, base, at, kind, level, i, depth).None?
    ensures ReadEntries(data, base, at, kind, level, n, depth).None?
    decreases n
  {
    hide ReadTree, FromLe;
    if i < n {
      ReadFails(data, base, at, kind, level, i, n - 1, depth);
    }
  }
}
