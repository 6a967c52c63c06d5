/** Addressing in an extensible array: from an element's index to its block and slot. */
module ExtArray {
  import opened Wrappers
  import opened Bytes
  import opened DTable
  import Transpose

  /** Elements in the index block, then three powers of two: elements of the smallest data block,
      data block pointers of the smallest super block, and elements of the whole array. */
  datatype Params = Params(idxElmts: nat, minBits: nat, ptrBits: nat, maxBits: nat) {
    predicate Valid() {
      maxBits >= minBits
    }

    function MinElmts(): (n: nat)
      ensures n > 0
    {
      Pow2(minBits)
    }

    function MinPtrs(): (n: nat)
      ensures n > 0
    {
      Pow2(ptrBits)
    }

    function SuperBlocks(): nat
      requires Valid()
    {
      1 + (maxBits - minBits)
    }

    /** Super blocks whose data blocks the index block points to. */
    function DirectSupers(): nat {
      2 * ptrBits
    }

    function DirectPointers(): nat {
      2 * (MinPtrs() - 1)
    }

    function Blocks(u: nat): (n: nat)
      ensures n > 0
    {
      Pow2(u / 2)
    }

    function BlockElmts(u: nat): (n: nat)
      ensures n > 0
    {
      MulMonotone(MinElmts(), 1, Pow2((u + 1) / 2));
      Pow2((u + 1) / 2) * MinElmts()
    }

    /** Elements before super block u, added up. */
    function StartIdx(u: nat): nat {
      if u == 0 then 0 else
        MulMonotone(BlockElmts(u - 1), 0, Blocks(u - 1));
        StartIdx(u - 1) + Blocks(u - 1) * BlockElmts(u - 1)
    }

    /** Data blocks before super block u. */
    function StartBlock(u: nat): nat {
      if u == 0 then 0 else StartBlock(u - 1) + Blocks(u - 1)
    }
  }

  datatype SuperInfo = SuperInfo(blocks: nat, elmts: nat, startIdx: nat, startBlock: nat)

  function InfoOf(p: Params, u: nat): SuperInfo {
    SuperInfo(p.Blocks(u), p.BlockElmts(u), p.StartIdx(u), p.StartBlock(u))
  }

  /** The table of super blocks, as the header is parsed. */
  method SuperTable(p: Params) returns (info: seq<SuperInfo>)
    requires p.Valid()
    ensures |info| == p.SuperBlocks() && forall u :: 0 <= u < |info| ==> info[u] == InfoOf(p, u)
  {
    info := [];
    var startIdx, startBlock := 0, 0;
    for u := 0 to p.SuperBlocks()
      invariant |info| == u && forall k :: 0 <= k < u ==> info[k] == InfoOf(p, k)
      invariant startIdx == p.StartIdx(u) && startBlock == p.StartBlock(u)
    {
      var blocks, elmts := p.Blocks(u), p.BlockElmts(u);
      MulMonotone(elmts, 0, blocks);
      info := info + [SuperInfo(blocks, elmts, startIdx, startBlock)];
      startIdx, startBlock := startIdx + blocks * elmts, startBlock + blocks;
    }
  }

  // ----- closed forms

  lemma SuperSize(p: Params, u: nat)
    ensures p.Blocks(u) * p.BlockElmts(u) == Pow2(u) * p.MinElmts()
  {
    hide Pow2;
    Pow2Add(u / 2, (u + 1) / 2);
    assert u / 2 + (u + 1) / 2 == u;
    Regroup(Pow2(u / 2), Pow2((u + 1) / 2), p.MinElmts(), Pow2(u));
  }

  lemma Regroup(a: nat, b: nat, n: nat, c: nat)
    requires c == a * b
    ensures a * (b * n) == c * n
  {
    MulAssociative(a, b, n);
  }

  lemma {:induction false} StartIdxClosed(p: Params, u: nat)
    ensures p.StartIdx(u) == (Pow2(u) - 1) * p.MinElmts()
  {
    hide Pow2, Params.BlockElmts, Params.Blocks, Params.MinElmts;
    if u > 0 {
      StartIdxClosed(p, u - 1);
      SuperSize(p, u - 1);
      Doubled(Pow2(u - 1), p.MinElmts());
      Pow2Doubles(u - 1);
    } else {
      Pow2Zero(p.MinElmts());
    }
  }

  lemma Doubled(a: nat, n: nat)
    ensures (a - 1) * n + a * n == (2 * a - 1) * n
  {
    Distribute(n, a - 1, a);
  }

  lemma Pow2Doubles(k: nat)
    ensures Pow2(k + 1) == 2 * Pow2(k)
  {
  }

  lemma Pow2Zero(n: nat)
    ensures (Pow2(0) - 1) * n == 0
  {
  }

  /** Super blocks come in pairs with the same number of data blocks. */
  lemma {:induction false} StartBlockClosed(p: Params, h: nat)
    ensures p.StartBlock(2 * h) == 2 * (Pow2(h) - 1)
  {
    if h > 0 {
      StartBlockClosed(p, h - 1);
      assert (2 * h - 1) / 2 == h - 1 && (2 * h - 2) / 2 == h - 1;
      assert p.StartBlock(2 * h) == p.StartBlock(2 * h - 1) + p.Blocks(2 * h - 1);
      assert p.StartBlock(2 * h - 1) == p.StartBlock(2 * h - 2) + p.Blocks(2 * h - 2);
    }
  }

  // ----- lookup

  /** Super block, data block in it, and slot of element e past the index block. */
  function Lookup(p: Params, e: nat): (nat, int, int) {
    DivNonNegative(e, p.MinElmts());
    var u := Log2Gen(e / p.MinElmts() + 1);
    var within := e - p.StartIdx(u);
    (u, within / p.BlockElmts(u), within % p.BlockElmts(u))
  }

  function IndexAt(p: Params, u: nat, block: nat, slot: nat): int {
    p.StartIdx(u) + block * p.BlockElmts(u) + slot
  }

  predicate InRange(p: Params, u: nat, block: int, slot: int) {
    0 <= block < p.Blocks(u) && 0 <= slot < p.BlockElmts(u)
  }

  /** The super block found is the one whose elements include e. */
  lemma SuperContains(p: Params, e: nat)
    ensures var u := Lookup(p, e).0; p.StartIdx(u) <= e < p.StartIdx(u) + p.Blocks(u) * p.BlockElmts(u)
  {
    hide Pow2, Params.BlockElmts, Params.Blocks, Params.MinElmts, Log2Gen, Params.StartIdx;
    var n := p.MinElmts();
    DivisionFacts(e, n);
    var q := e / n;
    var u := Log2Gen(q + 1);
    Log2GenBounds(q + 1);
    StartIdxClosed(p, u);
    SuperSize(p, u);
    BetweenPowers(Pow2(u), n, q, e);
  }

  lemma BetweenPowers(a: nat, n: nat, q: nat, e: nat)
    requires a <= q + 1 < 2 * a && n * q <= e < n * q + n
    ensures (a - 1) * n <= e < (a - 1) * n + a * n
  {
    MulMonotone(n, a - 1, q);
    MulMonotone(n, q + 1, 2 * a - 1);
    Distribute(n, q, 1);
    Doubled(a, n);
  }

  /** Every element has a place in range, and the place gives its index back. */
  lemma PlaceOfIndex(p: Params, e: nat)
    ensures var (u, block, slot) := Lookup(p, e);
            InRange(p, u, block, slot) && IndexAt(p, u, block, slot) == e
  {
    SuperContains(p, e);
    var u := Lookup(p, e).0;
    Transpose.PositionBounds(p.Blocks(u), p.BlockElmts(u), e - p.StartIdx(u));
  }

  lemma {:induction false} StartIdxGrows(p: Params, a: nat, b: nat)
    requires a < b
    ensures p.StartIdx(a) + p.Blocks(a) * p.BlockElmts(a) <= p.StartIdx(b)
  {
    if a + 1 < b {
      StartIdxGrows(p, a, b - 1);
      MulMonotone(p.BlockElmts(b - 1), 0, p.Blocks(b - 1));
    }
  }

  /** Every place in range is the place of exactly the element with its index. */
  lemma IndexOfPlace(p: Params, u: nat, block: nat, slot: nat)
    requires InRange(p, u, block, slot)
    ensures IndexAt(p, u, block, slot) >= 0 && Lookup(p, IndexAt(p, u, block, slot)) == (u, block, slot)
  {
    Transpose.CellBounds(p.Blocks(u), p.BlockElmts(u), block, slot);
    var e := IndexAt(p, u, block, slot);
    SuperContains(p, e);
    var v := Lookup(p, e).0;
    if v < u {
      StartIdxGrows(p, v, u);
    } else if u < v {
      StartIdxGrows(p, u, v);
    }
  }

  /** The lookup is refused exactly past the last super block. */
  lemma RangeOfIndices(p: Params, e: nat)
    requires p.Valid()
    ensures Lookup(p, e).0 < p.SuperBlocks() <==> e < (Pow2(p.SuperBlocks()) - 1) * p.MinElmts()
  {
    SuperContains(p, e);
    var u, n := Lookup(p, e).0, p.SuperBlocks();
    StartIdxClosed(p, n);
    if u < n {
      StartIdxGrows(p, u, n);
    } else if n < u {
      StartIdxGrows(p, n, u);
      MulMonotone(p.BlockElmts(n), 0, p.Blocks(n));
    }
  }

  // ----- data blocks addressed from the index block

  /** Position of a data block's pointer among all data blocks. */
  function Pointer(p: Params, u: nat, block: nat): nat {
    p.StartBlock(u) + block
  }

  lemma {:induction false} StartBlockGrows(p: Params, a: nat, b: nat)
    requires a < b
    ensures p.StartBlock(a) + p.Blocks(a) <= p.StartBlock(b)
  {
    if a + 1 < b {
      StartBlockGrows(p, a, b - 1);
    }
  }

  /** The pointers in the index block are those of the first super blocks' data blocks: each in
      bounds, and no two the same. */
  lemma DirectPointersFit(p: Params, u: nat, block: nat)
    requires u < p.DirectSupers() && block < p.Blocks(u)
    ensures Pointer(p, u, block) < p.DirectPointers()
  {
    StartBlockGrows(p, u, p.DirectSupers());
    StartBlockClosed(p, p.ptrBits);
  }

  lemma PointersDiffer(p: Params, u: nat, block: nat, v: nat, block': nat)
    requires block < p.Blocks(u) && block' < p.Blocks(v) && (u, block) != (v, block')
    ensures Pointer(p, u, block) != Pointer(p, v, block')
  {
    if u < v {
      StartBlockGrows(p, u, v);
    } else if v < u {
      StartBlockGrows(p, v, u);
    }
  }

  /** Every pointer in the index block is that of some data block. */
  lemma {:induction false} PointerUsed(p: Params, g: nat, n: nat) returns (u: nat, block: nat)
    requires g < p.StartBlock(n)
    ensures u < n && block < p.Blocks(u) && Pointer(p, u, block) == g
    decreases n
  {
    if g >= p.StartBlock(n - 1) {
      u, block := n - 1, g - p.StartBlock(n - 1);
    } else {
      u, block := PointerUsed(p, g, n - 1);
    }
  }

  // ----- where an element is read

  datatype Place = InIndexBlock(i: nat)
                 | Direct(pointer: nat, elmts: nat, slot: nat)
                 | InSuper(superSlot: nat, block: nat, elmts: nat, slot: nat)

  predicate ValidPlace(p: Params, pl: Place)
    requires p.Valid()
  {
    match pl
    case InIndexBlock(i) => i < p.idxElmts
    case Direct(g, n, slot) => g < p.DirectPointers() && slot < n
    case InSuper(s, b, n, slot) =>
      && p.DirectSupers() + s < p.SuperBlocks() && b < p.Blocks(p.DirectSupers() + s)
      && n == p.BlockElmts(p.DirectSupers() + s) && slot < n
  }

  /** `element`, up to the block that is read; None past the end of the array. */
  method PlaceOf(p: Params, info: seq<SuperInfo>, idx: nat) returns (r: Option<Place>)
    requires p.Valid() && |info| == p.SuperBlocks() && forall u :: 0 <= u < |info| ==> info[u] == InfoOf(p, u)
    ensures r.None? <==> idx >= p.idxElmts + (Pow2(p.SuperBlocks()) - 1) * p.MinElmts()
    ensures r.Some? ==> ValidPlace(p, r.value)
    ensures idx < p.idxElmts ==> r == Some(InIndexBlock(idx))
    ensures idx >= p.idxElmts && r.Some? ==>
              var (u, block, slot) := Lookup(p, idx - p.idxElmts);
              block >= 0 && slot >= 0 &&
              r.value == if u < p.DirectSupers() then Direct(Pointer(p, u, block), p.BlockElmts(u), slot)
                         else InSuper(u - p.DirectSupers(), block, p.BlockElmts(u), slot)
  {
    hide Lookup, InfoOf, Pointer;
    MulMonotone(p.MinElmts(), 0, Pow2(p.SuperBlocks()) - 1);
    if idx < p.idxElmts {
      return Some(InIndexBlock(idx));
    }
    var e := idx - p.idxElmts;
    PlaceOfIndex(p, e);
    RangeOfIndices(p, e);
    DivNonNegative(e, p.MinElmts());
    var u := Log2Gen(e / p.MinElmts() + 1);
    LookupParts(p, e);
    if u >= |info| {
      return None;
    }
    InfoParts(p, u);
    var within := e - info[u].startIdx;
    var block, slot := within / info[u].elmts, within % info[u].elmts;
    if u < p.DirectSupers() {
      DirectPointersFit(p, u, block);
      PointerParts(p, u, block);
      r := Some(Direct(info[u].startBlock + block, info[u].elmts, slot));
    } else {
      r := Some(InSuper(u - p.DirectSupers(), block, info[u].elmts, slot));
    }
  }

  lemma LookupParts(p: Params, e: nat)
    ensures e / p.MinElmts() >= 0
    ensures var u := Log2Gen(e / p.MinElmts() + 1);
            Lookup(p, e) == (u, (e - p.StartIdx(u)) / p.BlockElmts(u), (e - p.StartIdx(u)) % p.BlockElmts(u))
  {
    DivNonNegative(e, p.MinElmts());
  }

  lemma InfoParts(p: Params, u: nat)
    ensures InfoOf(p, u) == SuperInfo(p.Blocks(u), p.BlockElmts(u), p.StartIdx(u), p.StartBlock(u))
  {
  }

  lemma PointerParts(p: Params, u: nat, block: nat)
    ensures Pointer(p, u, block) == p.StartBlock(u) + block
  {
  }

  /** Two elements are never read from the same place. */
  lemma PlacesDiffer(p: Params, a: nat, b: nat)
    requires a != b
    ensures var (u, block, slot) := Lookup(p, a); var (v, block', slot') := Lookup(p, b);
            && block >= 0 && block' >= 0
            && (u, block, slot) != (v, block', slot')
            && (Pointer(p, u, block) != Pointer(p, v, block') || slot != slot')
  {
    hide Lookup, Pointer;
    PlaceOfIndex(p, a);
    PlaceOfIndex(p, b);
    var (u, block, slot) := Lookup(p, a);
    var (v, block', slot') := Lookup(p, b);
    if (u, block) != (v, block') {
      PointersDiffer(p, u, block, v, block');
    }
  }
}
