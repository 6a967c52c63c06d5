/** The bump allocator of a fractal heap: where each object goes. */
module HeapAlloc {
  import opened Wrappers
  import opened Bytes
  import opened FractalHeap
  import Seqs

  // ----- allocation by lengths alone

  /** Blocks allocated, and bytes used in the last of them, its prefix included. */
  datatype Bump = Bump(slots: nat, used: nat)

  /** Blocks are added until an object of `len` bytes fits the last one. */
  function Fit(b: Bump, len: nat, prefix: nat): (r: Option<Bump>)
    decreases MAX_SLOTS - b.slots
  {
    hide SlotSize, SlotOff;
    SlotSizes(b.slots);
    if b.slots > 0 && b.used + len <= SlotSize(b.slots - 1) then Some(b)
    else if SlotSize(b.slots) > MAX_DIRECT then None
    else Fit(Bump(b.slots + 1, prefix), len, prefix)
  }

  /** The object fits, in the last block or at the start of a later one. */
  lemma {:induction false} FitFacts(b: Bump, len: nat, prefix: nat)
    ensures var r := Fit(b, len, prefix);
            r.Some? ==>
              && b.slots <= r.value.slots && r.value.slots > 0 && r.value.used + len <= SlotSize(r.value.slots - 1)
              && (r.value == b || (b.slots < r.value.slots <= MAX_SLOTS && r.value.used == prefix))
    decreases MAX_SLOTS - b.slots
  {
    hide SlotSize, SlotOff;
    SlotSizes(b.slots);
    if !(b.slots > 0 && b.used + len <= SlotSize(b.slots - 1)) && SlotSize(b.slots) <= MAX_DIRECT {
      FitFacts(Bump(b.slots + 1, prefix), len, prefix);
    }
  }

  /** The allocator after some objects; those too large to be managed take no room. */
  function Alloc(objects: seq<seq<u8>>, prefix: nat): (r: Option<Bump>)
    ensures r.Some? && prefix <= 1024 ==> r.value.slots <= MAX_SLOTS && BumpOk(r.value, prefix)
  {
    hide SlotSize, SlotOff, Fit;
    if objects == [] then Some(Bump(0, 0))
    else
      var last := objects[|objects| - 1];
      match Alloc(objects[..|objects| - 1], prefix)
      case None => None
      case Some(b) =>
        if |last| > MAX_MANAGED then Some(b)
        else
          FitFacts(b, |last|, prefix);
          match Fit(b, |last|, prefix)
          case None => None
          case Some(f) => Some(Bump(f.slots, f.used + |last|))
  }

  predicate BumpOk(b: Bump, prefix: nat) {
    b.slots > 0 ==> prefix <= b.used <= SlotSize(b.slots - 1)
  }

  /** Slot and position in its block of managed object i. */
  function PlaceOf(objects: seq<seq<u8>>, i: nat, prefix: nat): (nat, int)
    requires i < |objects|
  {
    match Alloc(objects[..i + 1], prefix)
    case None => (0, 0)
    case Some(b) => (if b.slots > 0 then b.slots - 1 else 0, b.used - |objects[i]|)
  }

  /** Heap offset of managed object i. */
  function OffsetOf(objects: seq<seq<u8>>, i: nat, prefix: nat): int
    requires i < |objects|
  {
    SlotOff(PlaceOf(objects, i, prefix).0) + PlaceOf(objects, i, prefix).1
  }

  lemma PlaceBounds(objects: seq<seq<u8>>, i: nat, prefix: nat)
    requires i < |objects| && |objects[i]| <= MAX_MANAGED && prefix <= 1024 && Alloc(objects[..i + 1], prefix).Some?
    ensures var (k, p) := PlaceOf(objects, i, prefix);
            && k < MAX_SLOTS && prefix <= p && p + |objects[i]| <= SlotSize(k)
            && Alloc(objects[..i + 1], prefix).value == Bump(k + 1, p + |objects[i]|)
            && Alloc(objects[..i], prefix).Some? && Fit(Alloc(objects[..i], prefix).value, |objects[i]|, prefix) == Some(Bump(k + 1, p))
  {
    hide Fit;
    var upto := objects[..i + 1];
    assert upto[..|upto| - 1] == objects[..i] && upto[|upto| - 1] == objects[i];
    FitBounds(Alloc(objects[..i], prefix).value, |objects[i]|, prefix);
  }

  lemma FitBounds(b: Bump, len: nat, prefix: nat)
    requires BumpOk(b, prefix) && b.slots <= MAX_SLOTS
    ensures var r := Fit(b, len, prefix);
            r.Some? ==> 0 < r.value.slots <= MAX_SLOTS && prefix <= r.value.used && r.value.used + len <= SlotSize(r.value.slots - 1)
  {
    hide SlotSize, SlotOff, Fit;
    FitFacts(b, len, prefix);
  }

  // ----- order and disjointness

  /** The end of what is allocated, as a heap offset. */
  function End(b: Bump): int {
    if b.slots == 0 then 0 else SlotOff(b.slots - 1) + b.used
  }

  lemma FitMoves(b: Bump, len: nat, prefix: nat)
    requires BumpOk(b, prefix) && Fit(b, len, prefix).Some?
    ensures End(b) <= End(Fit(b, len, prefix).value)
  {
    hide SlotOff, SlotSize, Fit;
    FitFacts(b, len, prefix);
    var f := Fit(b, len, prefix).value;
    if f != b && b.slots > 0 {
      SlotsInOrder(b.slots - 1, f.slots - 1);
    }
  }

  lemma {:induction false} EndsInOrder(objects: seq<seq<u8>>, i: nat, j: nat, prefix: nat)
    requires i <= j <= |objects| && prefix <= 1024 && Alloc(objects[..j], prefix).Some?
    ensures Alloc(objects[..i], prefix).Some? && End(Alloc(objects[..i], prefix).value) <= End(Alloc(objects[..j], prefix).value)
    decreases j
  {
    hide Fit, End, Alloc;
    if i < j {
      AllocMoves(objects, j - 1, prefix);
      EndsInOrder(objects, i, j - 1, prefix);
    }
  }

  lemma AllocMoves(objects: seq<seq<u8>>, j: nat, prefix: nat)
    requires j < |objects| && prefix <= 1024 && Alloc(objects[..j + 1], prefix).Some?
    ensures Alloc(objects[..j], prefix).Some? && End(Alloc(objects[..j], prefix).value) <= End(Alloc(objects[..j + 1], prefix).value)
  {
    hide Fit;
    var upto := objects[..j + 1];
    assert upto[..|upto| - 1] == objects[..j] && upto[|upto| - 1] == objects[j];
    if |objects[j]| <= MAX_MANAGED {
      FitMoves(Alloc(objects[..j], prefix).value, |objects[j]|, prefix);
    }
  }

  /** Objects allocated earlier end before later ones begin, and none reaches into a block prefix. */
  lemma RangesDisjoint(objects: seq<seq<u8>>, i: nat, j: nat, prefix: nat)
    requires i < j < |objects| && prefix <= 1024 && Alloc(objects, prefix).Some?
    requires |objects[i]| <= MAX_MANAGED && |objects[j]| <= MAX_MANAGED
    ensures OffsetOf(objects, i, prefix) + |objects[i]| <= OffsetOf(objects, j, prefix)
    ensures var (k, p) := PlaceOf(objects, i, prefix);
            && OffsetOf(objects, i, prefix) >= SlotOff(k) + prefix
            && OffsetOf(objects, i, prefix) + |objects[i]| <= SlotOff(k + 1)
  {
    hide Fit, SlotOff, SlotSize, Alloc, PlaceOf;
    Seqs.TakeAll(objects, |objects|);
    EndsInOrder(objects, j + 1, |objects|, prefix);
    EndsInOrder(objects, i + 1, |objects|, prefix);
    PlaceBounds(objects, i, prefix);
    PlaceBounds(objects, j, prefix);
    EndsInOrder(objects, i + 1, j, prefix);
    FitMoves(Alloc(objects[..j], prefix).value, |objects[j]|, prefix);
    SlotNext(PlaceOf(objects, i, prefix).0);
  }

  // ----- the objects kept outside

  function HugeIndices(objects: seq<seq<u8>>): (s: seq<nat>)
    ensures |s| <= |objects| && forall m :: 0 <= m < |s| ==> s[m] < |objects| && |objects[s[m]]| > MAX_MANAGED
  {
    if objects == [] then [] else
      var n := |objects| - 1;
      var s := HugeIndices(objects[..n]);
      if |objects[n]| > MAX_MANAGED then s + [n] else s
  }

  lemma {:induction false} HugeIndicesOnce(objects: seq<seq<u8>>, a: nat, b: nat)
    requires a < b < |HugeIndices(objects)|
    ensures HugeIndices(objects)[a] < HugeIndices(objects)[b]
  {
    var n := |objects| - 1;
    var s := HugeIndices(objects[..n]);
    if b < |s| {
      HugeIndicesOnce(objects[..n], a, b);
    }
  }
}
