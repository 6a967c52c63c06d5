/** What a selection reads, in terms of the slices as the caller gives them. */
module Selections {
  import opened Wrappers
  import opened Bytes
  import opened NdIndex
  import opened Hyperslab
  import Seqs

  // ----- one slice

  /** Block m of the slice is among those taken: the counted ones, or those whose last element begins
      before the end. `Times` is the product. */
  predicate Takes(s: SliceOrIndex, dim: nat, m: nat) {
    match s
    case Index(_) => m == 0
    case SliceTo(start, step, end, block) => start + Pred(block) + Times(m, step) < end
    case SliceCount(_, _, count, _) => m < count
    case Unlimited(start, step, block) => start + Pred(block) + Times(m, step) < dim
  }

  /** The slice takes coordinate c of its axis. */
  ghost predicate Picks(s: SliceOrIndex, dim: nat, c: nat) {
    if s.Index? then c == s.index
    else exists m: nat ::
           Takes(s, dim, m) && s.start + Times(m, s.step) <= c < s.start + Times(m, s.step) + s.block
  }

  /** The slice is one the axis accepts. */
  predicate Accepts(s: SliceOrIndex, dim: nat) {
    match s
    case Index(i) => i < dim
    case SliceTo(start, step, end, block) => step >= 1 && start <= dim && end <= dim
    case SliceCount(start, step, count, block) =>
      step >= 1 && start <= dim && start + Pred(block) + Times(Pred(count), step) <= dim
    case Unlimited(start, step, block) => step >= 1 && start <= dim
  }

  lemma StepsExactly(lo: nat, step: nat, end: nat, m: nat)
    requires step > 0
    ensures m < StepsBelow(lo, step, end) <==> lo + Times(m, step) < end
  {
    if lo < end {
      var q := (end - lo - 1) / step;
      DivisionFacts(end - lo - 1, step);
      TimesIsProduct(q, step);
      if m <= q {
        TimesMonotone(m, q, step);
      } else {
        TimesMonotone(q, m, step);
      }
    }
  }

  /** The raw slice has the blocks the caller's slice takes. */
  lemma RawSlices(s: SliceOrIndex, dim: nat)
    ensures ToRaw(s, dim).Success? <==> Accepts(s, dim)
    ensures ToRaw(s, dim).Success? ==>
              var r := ToRaw(s, dim).value;
              && (forall m: nat :: m < r.count <==> Takes(s, dim, m))
              && (if s.Index? then r == RawSlice(s.index, 1, 1, 1)
                  else r.start == s.start && r.step == s.step && r.block == s.block)
  {
    hide Times;
    if ToRaw(s, dim).Success? && (s.SliceTo? || s.Unlimited?) {
      var end := if s.SliceTo? then s.end else dim;
      forall m: nat ensures m < ToRaw(s, dim).value.count <==> Takes(s, dim, m) {
        StepsExactly(s.start + Pred(s.block), s.step, end, m);
      }
    }
  }

  lemma PickedSlices(s: SliceOrIndex, dim: nat, c: nat)
    requires Accepts(s, dim)
    ensures ToRaw(s, dim).Success? && (InSlice(ToRaw(s, dim).value, c) <==> Picks(s, dim, c))
  {
    RawSlices(s, dim);
    var r := ToRaw(s, dim).value;
    if s.Index? {
      assert InBlock(r, 0, c) <==> c == s.index;
    } else if Picks(s, dim, c) {
      var m: nat :| Takes(s, dim, m) && s.start + Times(m, s.step) <= c < s.start + Times(m, s.step) + s.block;
      assert InBlock(r, m, c);
    }
  }

  // ----- the output array

  /** Position k of the axis of the output comes from coordinate c of the input: block m, same place
      in the block. */
  ghost predicate Reads(s: SliceOrIndex, k: nat, c: nat)
    requires !s.Index?
  {
    exists m: nat ::
      Times(m, s.block) <= k < Times(m, s.block) + s.block && c == s.start + Times(m, s.step) + (k - Times(m, s.block))
  }

  /** Coordinate o of the output comes from coordinate c of the input. An axis selected by an index
      is missing from the output. */
  ghost predicate ReadsFrom(dims: seq<SliceOrIndex>, o: seq<nat>, c: seq<nat>) {
    if dims == [] then o == [] && c == []
    else
      c != [] &&
      if dims[0].Index? then c[0] == dims[0].index && ReadsFrom(dims[1..], o, c[1..])
      else o != [] && Reads(dims[0], o[0], c[0]) && ReadsFrom(dims[1..], o[1..], c[1..])
  }

  /** The extents of the output: as many elements as the blocks taken have. */
  ghost predicate Extents(dims: seq<SliceOrIndex>, shape: seq<nat>, out: seq<nat>)
    requires |dims| == |shape|
  {
    if dims == [] then out == []
    else if dims[0].Index? then Extents(dims[1..], shape[1..], out)
    else out != [] && Extent(dims[0], shape[0], out[0]) && Extents(dims[1..], shape[1..], out[1..])
  }

  ghost predicate Extent(s: SliceOrIndex, dim: nat, e: nat)
    requires !s.Index?
  {
    exists n: nat :: (forall m: nat :: m < n <==> Takes(s, dim, m)) && e == Times(n, s.block)
  }

  lemma {:induction false} AxisElement(r: RawSlice, count: nat, k: nat) returns (m: nat)
    requires k < |AxisCoords(r, count)|
    ensures Times(m, r.block) <= k < Times(m, r.block) + r.block && m < count
    ensures AxisCoords(r, count)[k] == r.start + Times(m, r.step) + (k - Times(m, r.block))
  {
    if k < Times(count - 1, r.block) {
      m := AxisElement(r, count - 1, k);
    } else {
      m := count - 1;
    }
  }

  /** The index of every axis for an output coordinate: 0 on those the output misses. */
  function Expand(dims: seq<SliceOrIndex>, o: seq<nat>): (idx: seq<nat>)
    ensures |idx| == |dims|
  {
    if dims == [] then []
    else if dims[0].Index? || o == [] then [0] + Expand(dims[1..], o)
    else [o[0]] + Expand(dims[1..], o[1..])
  }

  lemma AxisReads(s: SliceOrIndex, dim: nat, r: RawSlice, k: nat)
    requires ToRaw(s, dim) == Success(r) && k < |AxisCoords(r, r.count)|
    ensures if s.Index? then k == 0 && AxisCoords(r, r.count)[k] == s.index else Reads(s, k, AxisCoords(r, r.count)[k])
  {
    RawSlices(s, dim);
    var m := AxisElement(r, r.count, k);
    if s.Index? {
      assert Times(1, 1) == 1;
    }
  }

  lemma RawTail(dims: seq<SliceOrIndex>, shape: seq<nat>)
    requires |dims| == |shape| > 0 && AllRaw(dims, shape).Success?
    ensures AllRaw(dims[1..], shape[1..]).Success?
    ensures var raw := AllRaw(dims, shape).value;
            |raw| == |dims| && ToRaw(dims[0], shape[0]) == Success(raw[0]) && AllRaw(dims[1..], shape[1..]).value == raw[1..]
  {
    hide ToRaw;
    AllRawLength(dims, shape);
  }

  lemma OutShapeStep(dims: seq<SliceOrIndex>, raw: seq<RawSlice>)
    requires |dims| == |raw| > 0
    ensures var out := OutShape(dims, raw);
            if dims[0].Index? then out == OutShape(dims[1..], raw[1..])
            else out != [] && out[0] == Times(raw[0].count, raw[0].block) && out[1..] == OutShape(dims[1..], raw[1..])
  {
    Seqs.Empty(OutShape(dims[1..], raw[1..]));
  }

  lemma PickTail(axes: seq<seq<nat>>, idx: seq<nat>)
    requires axes != [] && InRange(idx, Lens(axes))
    ensures Lens(axes)[1..] == Lens(axes[1..]) && InRange(idx[1..], Lens(axes[1..]))
    ensures Pick(axes, idx)[0] == axes[0][idx[0]] && Pick(axes, idx)[1..] == Pick(axes[1..], idx[1..])
  {
  }

  lemma RangeCons(x: nat, idx: seq<nat>, axes: seq<seq<nat>>)
    requires axes != [] && x < |axes[0]| && InRange(idx, Lens(axes[1..]))
    ensures InRange([x] + idx, Lens(axes))
    ensures Linear([x] + idx, Lens(axes)) == x * Product(Lens(axes[1..])) + Linear(idx, Lens(axes[1..]))
  {
    hide Linear, Product;
    LensTail(axes);
    LinearStep([x] + idx, Lens(axes));
    assert ([x] + idx)[1..] == idx;
  }

  /** The index of every axis for an output coordinate: it has the same position, and leads to the
      coordinate the output is read from. */
  lemma {:induction false} Expanded(dims: seq<SliceOrIndex>, shape: seq<nat>, o: seq<nat>)
    requires |dims| == |shape| && AllRaw(dims, shape).Success?
    requires |AllRaw(dims, shape).value| == |dims| && InRange(o, OutShape(dims, AllRaw(dims, shape).value))
    ensures var raw := AllRaw(dims, shape).value;
            && InRange(Expand(dims, o), Lens(Axes(raw)))
            && Linear(Expand(dims, o), Lens(Axes(raw))) == Linear(o, OutShape(dims, raw))
            && ReadsFrom(dims, o, Pick(Axes(raw), Expand(dims, o)))
  {
    var raw := AllRaw(dims, shape).value;
    if dims == [] {
      assert Axes(raw) == [] && Pick(Axes(raw), []) == [];
      EmptyLinear(Lens(Axes(raw)));
    } else {
      RawTail(dims, shape);
      OutShapeStep(dims, raw);
      Expanded(dims[1..], shape[1..], if dims[0].Index? then o else o[1..]);
      ExpandedStep(dims, shape, raw, o);
    }
  }

  lemma ExpandedStep(dims: seq<SliceOrIndex>, shape: seq<nat>, raw: seq<RawSlice>, o: seq<nat>)
    requires |dims| == |shape| == |raw| > 0 && AllRaw(dims, shape) == Success(raw) && InRange(o, OutShape(dims, raw))
    requires dims[0].Index? || o != []
    requires var rest := if dims[0].Index? then o else o[1..];
             && InRange(Expand(dims[1..], rest), Lens(Axes(raw[1..])))
             && InRange(rest, OutShape(dims[1..], raw[1..]))
             && Linear(Expand(dims[1..], rest), Lens(Axes(raw[1..]))) == Linear(rest, OutShape(dims[1..], raw[1..]))
             && ReadsFrom(dims[1..], rest, Pick(Axes(raw[1..]), Expand(dims[1..], rest)))
    ensures InRange(Expand(dims, o), Lens(Axes(raw)))
    ensures Linear(Expand(dims, o), Lens(Axes(raw))) == Linear(o, OutShape(dims, raw))
    ensures ReadsFrom(dims, o, Pick(Axes(raw), Expand(dims, o)))
  {
    hide AxisCoords, Product, Linear, ToRaw, AllRaw, OutShape, Reads, Axes, Lens, Pick;
    var rest := if dims[0].Index? then o else o[1..];
    var x := if dims[0].Index? then 0 else o[0];
    RawTail(dims, shape);
    OutShapeStep(dims, raw);
    OutShapeCounts(dims[1..], shape[1..]);
    AxesStep(raw);
    SliceLength(dims[0], shape[0], raw[0]);
    RangeCons(x, Expand(dims[1..], rest), Axes(raw));
    AxisReads(dims[0], shape[0], raw[0], x);
    PickTail(Axes(raw), Expand(dims, o));
    if !dims[0].Index? {
      LinearStep(o, OutShape(dims, raw));
    }
  }

  lemma AxesStep(raw: seq<RawSlice>)
    requires raw != []
    ensures Axes(raw)[0] == AxisCoords(raw[0], raw[0].count) && Axes(raw)[1..] == Axes(raw[1..])
  {
    hide AxisCoords;
  }

  lemma EmptyLinear(n: seq<nat>)
    requires n == []
    ensures Linear([], n) == 0
  {
  }

  lemma SliceLength(s: SliceOrIndex, dim: nat, r: RawSlice)
    requires ToRaw(s, dim) == Success(r)
    ensures s.Index? ==> |AxisCoords(r, r.count)| == 1
  {
    assert Times(1, 1) == 1;
  }

  lemma {:induction false} OutExtents(dims: seq<SliceOrIndex>, shape: seq<nat>)
    requires |dims| == |shape| && AllRaw(dims, shape).Success?
    ensures |AllRaw(dims, shape).value| == |dims| && Extents(dims, shape, OutShape(dims, AllRaw(dims, shape).value))
  {
    hide ToRaw, Takes, Extent;
    if dims != [] {
      RawTail(dims, shape);
      OutShapeStep(dims, AllRaw(dims, shape).value);
      OutExtents(dims[1..], shape[1..]);
      SliceExtent(dims[0], shape[0], AllRaw(dims, shape).value[0]);
    }
  }

  lemma SliceExtent(s: SliceOrIndex, dim: nat, r: RawSlice)
    requires ToRaw(s, dim) == Success(r)
    ensures !s.Index? ==> Extent(s, dim, Times(r.count, r.block))
  {
    hide ToRaw, Takes;
    RawSlices(s, dim);
  }

  // ----- from a selection to its positions

  predicate AllAccepted(dims: seq<SliceOrIndex>, shape: seq<nat>) {
    |dims| == |shape| && forall i :: 0 <= i < |dims| ==> Accepts(dims[i], shape[i])
  }

  /** Some axis takes no block. */
  predicate TakesNothing(dims: seq<SliceOrIndex>, shape: seq<nat>)
    requires |dims| == |shape|
  {
    exists i :: 0 <= i < |dims| && !Takes(dims[i], shape[i], 0)
  }

  predicate NoOverhang(dims: seq<SliceOrIndex>, shape: seq<nat>)
    requires |dims| == |shape|
  {
    forall i :: 0 <= i < |dims| ==> !Overhangs(dims[i], shape[i])
  }

  ghost predicate PicksAll(dims: seq<SliceOrIndex>, shape: seq<nat>, c: seq<nat>)
    requires |dims| == |shape| == |c|
  {
    forall i :: 0 <= i < |dims| ==> Picks(dims[i], shape[i], c[i])
  }

  /** The output at coordinate o is the input at the coordinate it is read from. */
  ghost predicate Gathers(positions: seq<nat>, dims: seq<SliceOrIndex>, shape: seq<nat>, out: seq<nat>, o: seq<nat>)
    requires InRange(o, out)
  {
    exists c :: ReadsFrom(dims, o, c) && InRange(c, shape)
                && Linear(o, out) < |positions| && positions[Linear(o, out)] == Linear(c, shape)
  }

  lemma {:induction false} AcceptedRaw(dims: seq<SliceOrIndex>, shape: seq<nat>)
    requires |dims| == |shape|
    ensures AllRaw(dims, shape).Success? <==> AllAccepted(dims, shape)
  {
    hide ToRaw, Accepts;
    if dims != [] {
      RawSlices(dims[0], shape[0]);
      AcceptedRaw(dims[1..], shape[1..]);
      AcceptedTail(dims, shape);
    }
  }

  lemma AcceptedTail(dims: seq<SliceOrIndex>, shape: seq<nat>)
    requires |dims| == |shape| > 0
    ensures AllAccepted(dims, shape) <==> Accepts(dims[0], shape[0]) && AllAccepted(dims[1..], shape[1..])
  {
    hide Accepts;
    if Accepts(dims[0], shape[0]) && AllAccepted(dims[1..], shape[1..]) {
      forall i | 0 <= i < |dims| ensures Accepts(dims[i], shape[i]) {
        assert i > 0 ==> dims[i] == dims[1..][i - 1] && shape[i] == shape[1..][i - 1];
      }
    }
    assert forall i :: 0 <= i < |dims| - 1 ==> dims[1..][i] == dims[i + 1] && shape[1..][i] == shape[i + 1];
  }

  lemma NothingTaken(dims: seq<SliceOrIndex>, shape: seq<nat>)
    requires |dims| == |shape| && AllRaw(dims, shape).Success?
    ensures IsNone(AllRaw(dims, shape).value) <==> TakesNothing(dims, shape)
  {
    hide ToRaw, Takes;
    AllRawLength(dims, shape);
    forall i | 0 <= i < |dims| ensures AllRaw(dims, shape).value[i].count == 0 <==> !Takes(dims[i], shape[i], 0) {
      AllRawAt(dims, shape, i);
      RawSlices(dims[i], shape[i]);
    }
  }

  /** What is listed are the positions picked on every axis. */
  lemma PickedExactly(dims: seq<SliceOrIndex>, shape: seq<nat>, out: seq<nat>, c: seq<nat>)
    requires |dims| == |shape| && AllRaw(dims, shape).Success? && InRange(c, shape)
    requires TakesNothing(dims, shape) || NoOverhang(dims, shape)
    requires Enumerates(out, Axes(AllRaw(dims, shape).value), shape)
    ensures Linear(c, shape) in out <==> PicksAll(dims, shape, c)
  {
    hide ToRaw, Takes, Linear, Enumerates, Overhangs, InSlice, Picks, Accepts;
    var raw := AllRaw(dims, shape).value;
    AcceptedRaw(dims, shape);
    AcceptedFits(dims, shape);
    NothingTaken(dims, shape);
    forall i | 0 <= i < |dims| ensures InSlice(raw[i], c[i]) <==> Picks(dims[i], shape[i], c[i]) {
      AllRawAt(dims, shape, i);
      PickedSlices(dims[i], shape[i], c[i]);
    }
    if FitsShape(raw, shape) {
      SlabSelectsExactly(out, raw, shape, c);
    } else {
      NoneSelectsNothing(raw, shape, out);
      NoneInSlice(raw, c);
    }
  }

  lemma NoneInSlice(raw: seq<RawSlice>, c: seq<nat>)
    requires IsNone(raw) && |raw| == |c|
    ensures exists i :: 0 <= i < |raw| && !InSlice(raw[i], c[i])
  {
    var i :| 0 <= i < |raw| && raw[i].count == 0;
    assert !InSlice(raw[i], c[i]);
  }

  /** Every element of the output comes from where its coordinate says. */
  lemma GathersAt(dims: seq<SliceOrIndex>, shape: seq<nat>, positions: seq<nat>, o: seq<nat>)
    requires |dims| == |shape| && AllRaw(dims, shape).Success? && |AllRaw(dims, shape).value| == |dims|
    requires TakesNothing(dims, shape) || NoOverhang(dims, shape)
    requires Enumerates(positions, Axes(AllRaw(dims, shape).value), shape)
    requires InRange(o, OutShape(dims, AllRaw(dims, shape).value))
    ensures Gathers(positions, dims, shape, OutShape(dims, AllRaw(dims, shape).value), o)
  {
    hide ToRaw, Takes, Linear, Product, Coord, Overhangs, AxisCoords, OutShape;
    var raw := AllRaw(dims, shape).value;
    var idx := Expand(dims, o);
    var lens := Lens(Axes(raw));
    Expanded(dims, shape, o);
    AcceptedFits(dims, shape);
    NothingTaken(dims, shape);
    CoordOfLinear(idx, lens);
    LinearBound(idx, lens);
    assert EnumeratesAt(positions, Axes(raw), shape, Linear(idx, lens));
    if IsNone(raw) {
      NoneSelectsNothing(raw, shape, positions);
    }
    AxesInShape(raw, shape);
    PickInRange(Axes(raw), shape, idx);
  }

  /** What a slab's positions are, in terms of the caller's slices: `Select` promises it. */
  ghost predicate Selected(positions: seq<nat>, dims: seq<SliceOrIndex>, shape: seq<nat>)
    requires |dims| == |shape|
  {
    && (forall c :: InRange(c, shape) ==> (Linear(c, shape) in positions <==> PicksAll(dims, shape, c)))
    && (forall k :: 0 <= k < |positions| ==> positions[k] < Product(shape))
    && exists out :: ShapeOf(Slab(dims), shape) == Success(out) && OutputOf(positions, dims, shape, out)
  }

  ghost predicate OutputOf(positions: seq<nat>, dims: seq<SliceOrIndex>, shape: seq<nat>, out: seq<nat>)
    requires |dims| == |shape|
  {
    Extents(dims, shape, out) && Product(out) == |positions|
    && forall o :: InRange(o, out) ==> Gathers(positions, dims, shape, out, o)
  }

  lemma ListedIsSelected(dims: seq<SliceOrIndex>, shape: seq<nat>, positions: seq<nat>)
    requires |dims| == |shape| && AllRaw(dims, shape).Success?
    requires TakesNothing(dims, shape) || NoOverhang(dims, shape)
    requires Enumerates(positions, Axes(AllRaw(dims, shape).value), shape)
    ensures Selected(positions, dims, shape)
  {
    hide ToRaw, Takes, Linear, Product, Overhangs, AxisCoords, OutShape, Extents, Gathers, PicksAll, Enumerates, Reach, NoOverhang, TakesNothing;
    var raw := AllRaw(dims, shape).value;
    AllRawLength(dims, shape);
    forall c | InRange(c, shape) ensures Linear(c, shape) in positions <==> PicksAll(dims, shape, c) {
      PickedExactly(dims, shape, positions, c);
    }
    AcceptedFits(dims, shape);
    NothingTaken(dims, shape);
    assert NoOverhang(dims, shape) ==> FitsShape(raw, shape) by { OverhangsNowhere(dims, shape); }
    if FitsShape(raw, shape) {
      SlabInBounds(positions, raw, shape);
    } else {
      NoneSelectsNothing(raw, shape, positions);
    }
    OutExtents(dims, shape);
    SlabShape(dims, shape, positions);
    var out := OutShape(dims, raw);
    forall o | InRange(o, out) ensures Gathers(positions, dims, shape, out, o) {
      GathersAt(dims, shape, positions, o);
    }
    assert OutputOf(positions, dims, shape, out);
  }

  lemma OverhangsNowhere(dims: seq<SliceOrIndex>, shape: seq<nat>)
    requires |dims| == |shape|
    ensures NoOverhang(dims, shape) <==> forall i :: 0 <= i < |dims| ==> !Overhangs(dims[i], shape[i])
  {
    hide Overhangs;
  }

  /** The shortcuts and the enumeration agree on what is listed, and on when nothing can be. */
  lemma SlabListed(dims: seq<SliceOrIndex>, shape: seq<nat>, r: Result<seq<nat>, SliceError>)
    requires |dims| == |shape| && AllRaw(dims, shape).Success?
    requires var raw := AllRaw(dims, shape).value;
             if IsNone(raw) then r == Success([])
             else if IsAll(raw, shape) then r == Success(Iota(0, Product(shape)))
             else (r.Success? <==> FitsShape(raw, shape)) && (r.Success? ==> Enumerates(r.value, Axes(raw), shape))
    ensures r.Success? <==> TakesNothing(dims, shape) || NoOverhang(dims, shape)
    ensures r.Success? ==> Selected(r.value, dims, shape)
    ensures r.Success? ==> ShapeOf(Slab(dims), shape).Success? && Product(ShapeOf(Slab(dims), shape).value) == |r.value|
    ensures r.Success? && (forall i :: 0 <= i < |dims| ==> dims[i].Index? || dims[i].step >= dims[i].block) ==>
              Increasing(r.value)
  {
    hide Product, Linear, Coord, AxisCoords, AllRaw, ToRaw, Overhangs, IsAll, IsNone, Enumerates, TakesNothing, NoOverhang, Selected, Increasing, OutShape, FitsShape;
    var raw := AllRaw(dims, shape).value;
    AllRawLength(dims, shape);
    AcceptedFits(dims, shape);
    NothingTaken(dims, shape);
    OverhangsNowhere(dims, shape);
    if r.Success? {
      if IsNone(raw) {
        NoneSelectsNothing(raw, shape, r.value);
      } else if IsAll(raw, shape) {
        AllSelectsEverything(raw, shape, r.value);
      }
      ListedIsSelected(dims, shape, r.value);
      SlabShape(dims, shape, r.value);
      if IsNone(raw) {
        NoElements(r.value);
      } else if forall i :: 0 <= i < |dims| ==> dims[i].Index? || dims[i].step >= dims[i].block {
        WideSteps(dims, shape);
        SlabPositionsIncrease(r.value, raw, shape);
      }
    }
  }

  lemma NoElements(s: seq<nat>)
    requires s == []
    ensures Increasing(s)
  {
  }

  lemma WideSteps(dims: seq<SliceOrIndex>, shape: seq<nat>)
    requires |dims| == |shape| && AllRaw(dims, shape).Success?
    requires forall i :: 0 <= i < |dims| ==> dims[i].Index? || dims[i].step >= dims[i].block
    ensures var raw := AllRaw(dims, shape).value;
            |raw| == |dims| && forall i :: 0 <= i < |dims| ==> raw[i].step >= raw[i].block
  {
    hide ToRaw;
    AllRawLength(dims, shape);
    forall i | 0 <= i < |dims| ensures AllRaw(dims, shape).value[i].step >= AllRaw(dims, shape).value[i].block {
      AllRawAt(dims, shape, i);
      RawSlices(dims[i], shape[i]);
    }
  }

  /** From a selection to its positions, the way a read or write goes. The output shape has room for
      exactly these, but for the table of no points, whose shape is that of a single element. */
  method Select(s: Selection, shape: seq<nat>) returns (r: Result<seq<nat>, SliceError>)
    ensures s.Slab? ==>
              (r.Success? <==>
                 AllAccepted(s.dims, shape) && (TakesNothing(s.dims, shape) || NoOverhang(s.dims, shape)))
    ensures s.Slab? && |s.dims| != |shape| ==> r == Failure(RankMismatch)
    ensures s.Slab? && AllAccepted(s.dims, shape) && r.Failure? ==> r.error == SelectionOutOfBounds
    ensures s.Slab? && r.Success? ==> Selected(r.value, s.dims, shape)
    ensures s.Slab? && r.Success? && (forall i :: 0 <= i < |s.dims| ==> s.dims[i].Index? || s.dims[i].step >= s.dims[i].block) ==>
              Increasing(r.value)
    ensures s.All? ==> r == Success(Iota(0, Product(shape)))
    ensures s.Points? ==>
              match CheckCoords(s.coords, s.ndim, shape)
              case Some(e) => r == Failure(e)
              case None =>
                r.Success? && |r.value| == |s.coords| &&
                forall p :: 0 <= p < |s.coords| ==> InRange(s.coords[p], shape) && r.value[p] == Linear(s.coords[p], shape)
    ensures r.Success? ==> ShapeOf(s, shape).Success? && (Product(ShapeOf(s, shape).value) == |r.value| <==> !EmptyTable(s))
  {
    hide Product, Linear, Coord, AxisCoords, Overhangs, AllRaw, FitsShape, IsAll, IsNone, Enumerates, TakesNothing, NoOverhang, Selected, Increasing;
    var raw := IntoRaw(s, shape);
    if s.Slab? && |s.dims| == |shape| {
      AcceptedRaw(s.dims, shape);
      if raw.Success? {
        AllRawLength(s.dims, shape);
      }
    }
    if raw.Failure? {
      return Failure(raw.error);
    }
    r := LinearIndices(raw.value, shape);
    if s.Slab? {
      SlabListed(s.dims, shape, r);
    } else if s.Points? {
      OneExtent(|s.coords|);
    }
  }
}
