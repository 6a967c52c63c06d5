/** Version-1 B-trees: built level by level, walked from the root. */
module BTree {
  import opened Wrappers
  import opened Bytes
  import Seqs

  /** One key more than children; siblings are None at the ends of a level. */
  datatype Node<K> = Node(level: nat, keys: seq<K>, children: seq<nat>, left: Option<nat>, right: Option<nat>)

  /** What a node is to its parent, and a chunk or symbol node to its leaf: the keys around it. */
  datatype Item<K> = Item(first: K, addr: nat, last: K)

  /** The node at address `addr` and the nodes below it, with the range of list elements they hold. */
  datatype Tree = Tree(addr: nat, lo: nat, hi: nat, kids: seq<Tree>)

  // ----- walking

  /** All leaf entries under a node, with the key in front of each; recursion no deeper than `depth`. */
  function Walk<K>(store: map<nat, Node<K>>, addr: nat, depth: nat): Option<seq<(K, nat)>>
    decreases depth, 1
  {
    if addr !in store || depth == 0 || |store[addr].keys| < |store[addr].children| then None
    else WalkEntries(store, store[addr], |store[addr].children|, depth)
  }

  /** The first n entries of a node. */
  function WalkEntries<K>(store: map<nat, Node<K>>, node: Node<K>, n: nat, depth: nat): Option<seq<(K, nat)>>
    requires depth > 0 && n <= |node.children| <= |node.keys|
    decreases depth, 0, n
  {
    if n == 0 then Some([])
    else
      match WalkEntries(store, node, n - 1, depth)
      case None => None
      case Some(before) =>
        if node.level == 0 then Some(before + [(node.keys[n - 1], node.children[n - 1])])
        else
          match Walk(store, node.children[n - 1], depth - 1)
          case None => None
          case Some(below) => Some(before + below)
  }

  // ----- well-formed trees

  /** Elements lo .. hi as the walker reports them. */
  function Entries<K>(items: seq<Item<K>>): (s: seq<(K, nat)>)
    ensures |s| == |items|
  {
    seq(|items|, i requires 0 <= i < |items| => (items[i].first, items[i].addr))
  }

  ghost predicate Chained<K>(items: seq<Item<K>>) {
    forall i :: 0 <= i < |items| - 1 ==> items[i].last == items[i + 1].first
  }

  /** The keys of a node over `grp`: the first key of every child, and the last key of the last. */
  function KeysOf<K>(grp: seq<Item<K>>): (keys: seq<K>)
    requires grp != []
    ensures |keys| == |grp| + 1
  {
    seq(|grp| + 1, i requires 0 <= i <= |grp| => if i < |grp| then grp[i].first else grp[|grp| - 1].last)
  }

  function Addrs<K>(grp: seq<Item<K>>): (s: seq<nat>)
    ensures |s| == |grp|
  {
    seq(|grp|, i requires 0 <= i < |grp| => grp[i].addr)
  }

  /** What a tree is to its parent. */
  function ItemOf<K>(t: Tree, items: seq<Item<K>>): Item<K>
    requires t.lo < t.hi <= |items|
  {
    Item(items[t.lo].first, t.addr, items[t.hi - 1].last)
  }

  ghost predicate Ranges(kids: seq<Tree>, lo: nat, hi: nat) {
    && kids != [] && kids[0].lo == lo && kids[|kids| - 1].hi == hi
    && (forall i :: 0 <= i < |kids| ==> kids[i].lo < kids[i].hi)
    && forall i :: 0 <= i < |kids| - 1 ==> kids[i].hi == kids[i + 1].lo
  }

  /** `t` is in the store: every node holds its part of the list, in order, between the right keys. */
  ghost predicate Holds<K(!new)>(store: map<nat, Node<K>>, t: Tree, level: nat, items: seq<Item<K>>, cap: nat)
    decreases level
  {
    && t.addr in store && t.lo < t.hi <= |items| && store[t.addr].level == level
    && 0 < |store[t.addr].children| <= cap
    && if level == 0 then
         && t.kids == [] && store[t.addr].children == Addrs(items[t.lo..t.hi])
         && store[t.addr].keys == KeysOf(items[t.lo..t.hi])
       else
         && Ranges(t.kids, t.lo, t.hi) && |t.kids| == |store[t.addr].children| && |store[t.addr].keys| == |t.kids| + 1
         && forall i :: 0 <= i < |t.kids| ==> KidHolds(store, t, i, level, items, cap)
  }

  ghost predicate KidHolds<K(!new)>(store: map<nat, Node<K>>, t: Tree, i: nat, level: nat, items: seq<Item<K>>, cap: nat)
    requires t.addr in store && i < |t.kids| == |store[t.addr].children| && |store[t.addr].keys| == |t.kids| + 1 && level > 0
    decreases level, 0
  {
    var kid := t.kids[i];
    && kid.lo < kid.hi <= |items|
    && store[t.addr].children[i] == kid.addr && Holds(store, kid, level - 1, items, cap)
    && store[t.addr].keys[i] == items[kid.lo].first && store[t.addr].keys[i + 1] == items[kid.hi - 1].last
  }

  lemma EntriesSlice<K>(items: seq<Item<K>>, i: nat, j: nat, k: nat)
    requires i <= j <= k <= |items|
    ensures Entries(items[i..j]) + Entries(items[j..k]) == Entries(items[i..k])
  {
  }

  lemma RangesBounds(kids: seq<Tree>, lo: nat, hi: nat, i: nat)
    requires Ranges(kids, lo, hi) && i < |kids|
    ensures lo <= kids[i].lo < kids[i].hi <= hi
    ensures i + 1 < |kids| ==> kids[i].hi < hi
  {
    RangesFrom(kids, lo, hi, i);
    RangesTo(kids, lo, hi, i);
  }

  lemma {:induction false} RangesFrom(kids: seq<Tree>, lo: nat, hi: nat, i: nat)
    requires Ranges(kids, lo, hi) && i < |kids|
    ensures lo <= kids[i].lo
  {
    if i > 0 {
      RangesFrom(kids, lo, hi, i - 1);
    }
  }

  lemma {:induction false} RangesTo(kids: seq<Tree>, lo: nat, hi: nat, i: nat)
    requires Ranges(kids, lo, hi) && i < |kids|
    ensures kids[i].hi <= hi && (i + 1 < |kids| ==> kids[i].hi < hi)
    decreases |kids| - i
  {
    if i + 1 < |kids| {
      RangesTo(kids, lo, hi, i + 1);
    }
  }

  /** Walking a well-formed tree gives its part of the list, in order. */
  lemma {:induction false} WalkHolds<K(!new)>(store: map<nat, Node<K>>, t: Tree, level: nat, items: seq<Item<K>>, cap: nat, depth: nat)
    requires Holds(store, t, level, items, cap) && depth > level
    ensures Walk(store, t.addr, depth) == Some(Entries(items[t.lo..t.hi]))
    decreases level, 1
  {
    if level == 0 {
      WalkLeaf(store, store[t.addr], items[t.lo..t.hi], t.hi - t.lo, depth);
      Seqs.TakeAll(items[t.lo..t.hi], t.hi - t.lo);
    } else {
      WalkKids(store, t, level, items, cap, depth, |t.kids|);
    }
  }

  lemma {:induction false} WalkLeaf<K>(store: map<nat, Node<K>>, node: Node<K>, grp: seq<Item<K>>, n: nat, depth: nat)
    requires depth > 0 && node.level == 0 && grp != [] && node.children == Addrs(grp) && node.keys == KeysOf(grp)
    requires n <= |grp|
    ensures WalkEntries(store, node, n, depth) == Some(Entries(grp[..n]))
    decreases n
  {
    if n > 0 {
      WalkLeaf(store, node, grp, n - 1, depth);
      assert Entries(grp[..n]) == Entries(grp[..n - 1]) + [(grp[n - 1].first, grp[n - 1].addr)];
    }
  }

  lemma {:induction false} WalkKids<K(!new)>(store: map<nat, Node<K>>, t: Tree, level: nat, items: seq<Item<K>>, cap: nat, depth: nat, n: nat)
    requires Holds(store, t, level, items, cap) && depth > level > 0 && n <= |t.kids|
    ensures n > 0 ==> t.lo <= t.kids[n - 1].hi <= |items|
    ensures WalkEntries(store, store[t.addr], n, depth) == Some(Entries(items[t.lo..if n == 0 then t.lo else t.kids[n - 1].hi]))
    decreases level, 0, n
  {
    if n > 0 {
      var kid := t.kids[n - 1];
      assert KidHolds(store, t, n - 1, level, items, cap);
      RangesBounds(t.kids, t.lo, t.hi, n - 1);
      WalkKids(store, t, level, items, cap, depth, n - 1);
      WalkHolds(store, kid, level - 1, items, cap, depth - 1);
      EntriesSlice(items, t.lo, kid.lo, kid.hi);
    } else {
      assert Entries(items[t.lo..t.lo]) == [];
    }
  }

  // ----- siblings

  /** The nodes of one level form a doubly linked list, in order. */
  ghost predicate Linked<K>(store: map<nat, Node<K>>, addrs: seq<nat>) {
    forall i :: 0 <= i < |addrs| ==> LinkedAt(store, addrs, i)
  }

  ghost predicate LinkedAt<K>(store: map<nat, Node<K>>, addrs: seq<nat>, i: nat)
    requires i < |addrs|
  {
    && addrs[i] in store
    && store[addrs[i]].left == (if i > 0 then Some(addrs[i - 1]) else None)
    && store[addrs[i]].right == (if i + 1 < |addrs| then Some(addrs[i + 1]) else None)
  }

  /** Apart from siblings, the nodes of `before` are unchanged, and nodes may have been added. */
  ghost predicate SameTrees<K>(before: map<nat, Node<K>>, after: map<nat, Node<K>>) {
    forall a :: a in before ==>
      a in after && after[a].level == before[a].level && after[a].keys == before[a].keys && after[a].children == before[a].children
  }

  lemma {:induction false} HoldsStays<K(!new)>(before: map<nat, Node<K>>, after: map<nat, Node<K>>, t: Tree, level: nat, items: seq<Item<K>>, cap: nat)
    requires SameTrees(before, after) && Holds(before, t, level, items, cap)
    ensures Holds(after, t, level, items, cap)
    decreases level
  {
    if level > 0 {
      forall i | 0 <= i < |t.kids| ensures KidHolds(after, t, i, level, items, cap) {
        assert KidHolds(before, t, i, level, items, cap);
        HoldsStays(before, after, t.kids[i], level - 1, items, cap);
      }
    }
  }
}
