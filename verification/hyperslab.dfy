/** Selections of an array: turning slices into raw hyperslabs, and enumerating what they select. */
module Hyperslab {
  import opened Wrappers
  import opened Bytes
  import opened NdIndex
  import Seqs

  datatype SliceError = RankMismatch | IndexOutOfBounds | BadStride | StartOutOfBounds | EndOutOfBounds
                      | PointOutOfBounds | SelectionOutOfBounds | NotSupported

  datatype SliceOrIndex = Index(index: nat)
                        | SliceTo(start: nat, step: nat, end: nat, block: nat)
                        | SliceCount(start: nat, step: nat, count: nat, block: nat)
                        | Unlimited(start: nat, step: nat, block: nat)

  datatype RawSlice = RawSlice(start: nat, step: nat, count: nat, block: nat)

  /** Points come with the number of columns of their table. */
  datatype Selection = All | Points(coords: seq<seq<nat>>, ndim: nat) | Slab(dims: seq<SliceOrIndex>)

  datatype RawSelection = RawNone | RawAll | RawPoints(coords: seq<seq<nat>>, ndim: nat) | Regular(dims: seq<RawSlice>)

  function Pred(n: nat): nat {
    if n == 0 then 0 else n - 1
  }

  /** Elements of lo, lo + step, ... below `end`. */
  function StepsBelow(lo: nat, step: nat, end: nat): (n: nat)
    requires step > 0
  {
    if lo >= end then 0 else
      DivNonNegative(end - lo - 1, step);
      (end - lo - 1) / step + 1
  }

  /** `slice_info_to_raw`. */
  function ToRaw(s: SliceOrIndex, dim: nat): Result<RawSlice, SliceError> {
    match s
    case Index(i) => if i < dim then Success(RawSlice(i, 1, 1, 1)) else Failure(IndexOutOfBounds)
    case SliceTo(start, step, end, block) =>
      if step < 1 then Failure(BadStride)
      else if start > dim then Failure(StartOutOfBounds)
      else if end > dim then Failure(EndOutOfBounds)
      else Success(RawSlice(start, step, StepsBelow(start + Pred(block), step, end), block))
    case SliceCount(start, step, count, block) =>
      if step < 1 then Failure(BadStride)
      else if start > dim then Failure(StartOutOfBounds)
      else if start + Pred(block) + Times(Pred(count), step) > dim then Failure(EndOutOfBounds)
      else Success(RawSlice(start, step, count, block))
    case Unlimited(start, step, block) =>
      if step < 1 then Failure(BadStride)
      else if start > dim then Failure(StartOutOfBounds)
      else Success(RawSlice(start, step, StepsBelow(start + Pred(block), step, dim), block))
  }

  // ----- one axis

  function Iota(from: nat, n: nat): (s: seq<nat>)
    ensures |s| == n
  {
    seq(n, i requires 0 <= i < n => from + i)
  }

  /** The coordinates a slice selects: `count` blocks, `step` apart. */
  function AxisCoords(r: RawSlice, count: nat): (s: seq<nat>)
    ensures |s| == Times(count, r.block)
  {
    if count == 0 then [] else AxisCoords(r, count - 1) + Iota(r.start + Times(count - 1, r.step), r.block)
  }

  /** One past the greatest coordinate. */
  function Reach(r: RawSlice): nat {
    if r.count == 0 || r.block == 0 then 0 else r.start + Times(r.count - 1, r.step) + r.block
  }

  /** Block i of the slice holds coordinate c. */
  predicate InBlock(r: RawSlice, i: nat, c: nat) {
    r.start + Times(i, r.step) <= c < r.start + Times(i, r.step) + r.block
  }

  lemma {:induction false} AxisMembers(r: RawSlice, count: nat, c: nat)
    ensures c in AxisCoords(r, count) <==> exists i: nat :: i < count && InBlock(r, i, c)
  {
    if count > 0 {
      AxisMembers(r, count - 1, c);
      var base := r.start + Times(count - 1, r.step);
      if base <= c < base + r.block {
        assert Iota(base, r.block)[c - base] == c;
        assert InBlock(r, count - 1, c);
      }
    }
  }

  lemma {:induction false} AxisBound(r: RawSlice, count: nat)
    requires count <= r.count
    ensures forall k :: 0 <= k < |AxisCoords(r, count)| ==> AxisCoords(r, count)[k] < Reach(r)
  {
    if count > 0 {
      AxisBound(r, count - 1);
      TimesMonotone(count - 1, r.count - 1, r.step);
    }
  }

  ghost predicate Increasing(s: seq<nat>) {
    forall i, j :: 0 <= i < j < |s| ==> s[i] < s[j]
  }

  /** Blocks that do not overlap give increasing coordinates. */
  lemma {:induction false} AxisIncreasing(r: RawSlice, count: nat)
    requires r.step >= r.block
    ensures Increasing(AxisCoords(r, count))
    ensures forall k :: 0 <= k < |AxisCoords(r, count)| ==> AxisCoords(r, count)[k] < r.start + Times(count, r.step)
  {
    if count > 0 {
      AxisIncreasing(r, count - 1);
    }
  }

  /** Blocks side by side from 0 select everything. */
  lemma {:induction false} FullAxis(r: RawSlice, count: nat)
    requires r.start == 0 && r.step == r.block
    ensures AxisCoords(r, count) == Iota(0, Times(count, r.block))
  {
    if count > 0 {
      FullAxis(r, count - 1);
    }
  }

  /** The coordinates of one block, as long as they are below `dim`. */
  method Block(before: seq<nat>, base: nat, n: nat, dim: nat) returns (c: Result<seq<nat>, SliceError>)
    ensures c == if n == 0 || base + n <= dim then Success(before + Iota(base, n)) else Failure(SelectionOutOfBounds)
  {
    var coords := before;
    Seqs.Empty(before);
    for j := 0 to n
      invariant coords == before + Iota(base, j) && (j > 0 ==> base + j <= dim)
    {
      if base + j >= dim {
        return Failure(SelectionOutOfBounds);
      }
      IotaStep(base, j);
      Seqs.Assoc(before, Iota(base, j), [base + j]);
      coords := coords + [base + j];
    }
    c := Success(coords);
  }

  lemma IotaStep(base: nat, j: nat)
    ensures Iota(base, j + 1) == Iota(base, j) + [base + j]
  {
  }

  method Axis(r: RawSlice, dim: nat) returns (c: Result<seq<nat>, SliceError>)
    ensures c == if Reach(r) <= dim then Success(AxisCoords(r, r.count)) else Failure(SelectionOutOfBounds)
  {
    var coords: seq<nat> := [];
    for i := 0 to r.count
      invariant coords == AxisCoords(r, i)
      invariant i > 0 && r.block > 0 ==> r.start + Times(i - 1, r.step) + r.block <= dim
    {
      var base := r.start + Times(i, r.step);
      TimesMonotone(i, r.count - 1, r.step);
      var blocks := Block(coords, base, r.block, dim);
      if blocks.Failure? {
        return blocks;
      }
      coords := blocks.value;
    }
    c := Success(coords);
  }

  // ----- accepted slices and their reach

  lemma StepsReach(lo: nat, step: nat, end: nat)
    requires step > 0
    ensures var n := StepsBelow(lo, step, end); n > 0 ==> lo + Times(n - 1, step) < end
  {
    if lo < end {
      var q := (end - lo - 1) / step;
      DivisionFacts(end - lo - 1, step);
      TimesIsProduct(q, step);
    }
  }

  /** A counted slice is accepted with its last element one past the end. */
  predicate Overhangs(s: SliceOrIndex, dim: nat) {
    s.SliceCount? && s.count > 0 && s.block > 0 && s.start + Pred(s.block) + Times(s.count - 1, s.step) == dim
  }

  /** Four elements from the start of an axis of three are accepted, and reach past its end. */
  lemma OverhangExample()
    ensures var s := SliceCount(0, 1, 4, 1);
            ToRaw(s, 3).Success? && Reach(ToRaw(s, 3).value) > 3
  {
    assert Times(3, 1) == 3;
  }

  /** What is accepted stays in bounds, but for the counted slices that overhang by one. */
  lemma AcceptedReach(s: SliceOrIndex, dim: nat)
    ensures ToRaw(s, dim).Success? ==> (Reach(ToRaw(s, dim).value) <= dim <==> !Overhangs(s, dim))
  {
    match s {
      case Index(i) => assert Times(0, 1) == 0;
      case SliceTo(start, step, end, block) =>
        if step > 0 {
          StepsReach(start + Pred(block), step, end);
        }
      case SliceCount(start, step, count, block) =>
      case Unlimited(start, step, block) =>
        if step > 0 {
          StepsReach(start + Pred(block), step, dim);
        }
    }
  }

  // ----- the whole selection

  function Lens(axes: seq<seq<nat>>): (n: seq<nat>)
    ensures |n| == |axes|
  {
    seq(|axes|, i requires 0 <= i < |axes| => |axes[i]|)
  }

  /** One coordinate from every axis. */
  function Pick(axes: seq<seq<nat>>, idx: seq<nat>): (c: seq<nat>)
    requires InRange(idx, Lens(axes))
    ensures |c| == |axes|
  {
    seq(|axes|, i requires 0 <= i < |axes| => axes[i][idx[i]])
  }

  /** All combinations of axis coordinates, as positions, the last axis fastest. */
  ghost predicate Enumerates(out: seq<nat>, axes: seq<seq<nat>>, shape: seq<nat>) {
    && |axes| == |shape| && |out| == Product(Lens(axes))
    && (Positive(Lens(axes)) ==> forall k :: 0 <= k < |out| ==> EnumeratesAt(out, axes, shape, k))
  }

  ghost predicate EnumeratesAt(out: seq<nat>, axes: seq<seq<nat>>, shape: seq<nat>, k: nat)
    requires |axes| == |shape| && k < |out| && Positive(Lens(axes))
  {
    InRange(Coord(k, Lens(axes)), Lens(axes)) && out[k] == Linear(Pick(axes, Coord(k, Lens(axes))), shape)
  }

  ghost predicate InShape(axes: seq<seq<nat>>, shape: seq<nat>) {
    |axes| == |shape| && forall i, k :: 0 <= i < |axes| && 0 <= k < |axes[i]| ==> axes[i][k] < shape[i]
  }

  method LinearOf(c: seq<nat>, shape: seq<nat>, strides: seq<nat>) returns (lin: nat)
    requires |c| == |shape| && strides == StridesOf(shape)
    ensures lin == Linear(c, shape)
  {
    hide Linear, Product, StridesOf;
    lin := 0;
    assert c[0..] == c && shape[0..] == shape;
    for i := 0 to |c|
      invariant lin + Linear(c[i..], shape[i..]) == Linear(c, shape)
    {
      StrideAt(shape, i);
      LinearStep(c[i..], shape[i..]);
      assert c[i..][1..] == c[i + 1..] && shape[i..][1..] == shape[i + 1..];
      MulMonotone(strides[i], 0, c[i]);
      lin := lin + c[i] * strides[i];
    }
    NothingLeft(c, shape);
  }

  lemma NothingLeft(c: seq<nat>, shape: seq<nat>)
    requires |c| == |shape|
    ensures Linear(c[|c|..], shape[|c|..]) == 0
  {
  }

  lemma {:induction false} EmptyProduct(n: seq<nat>, i: nat)
    requires i < |n| && n[i] == 0
    ensures Product(n) == 0
  {
    if i > 0 {
      EmptyProduct(n[1..], i - 1);
    }
  }

  method Combine(axes: seq<seq<nat>>, shape: seq<nat>) returns (out: seq<nat>)
    requires |axes| == |shape|
    ensures Enumerates(out, axes, shape)
  {
    hide Product, Linear, Coord;
    out := [];
    var strides := Strides(shape);
    var lens := Lens(axes);
    if i :| 0 <= i < |axes| && axes[i] == [] {
      EmptyProduct(lens, i);
      return;
    }
    var idx: seq<nat> := seq(|axes|, _ => 0);
    FirstCoord(lens);
    for k := 0 to Product(lens)
      invariant |out| == k && forall m :: 0 <= m < k ==> EnumeratesAt(out, axes, shape, m)
      invariant |idx| == |axes| && (k < Product(lens) ==> idx == Coord(k, lens))
    {
      LinearOfCoord(k, lens);
      var lin := LinearOf(Pick(axes, idx), shape, strides);
      ghost var before := out;
      out := out + [lin];
      forall m | 0 <= m < k ensures EnumeratesAt(out, axes, shape, m) {
        assert EnumeratesAt(before, axes, shape, m);
      }
      OdometerStep(k, lens);
      idx := Turn(idx, lens);
    }
  }

  /** The positions listed are those of the coordinates selected on every axis. */
  lemma SelectedExactly(out: seq<nat>, axes: seq<seq<nat>>, shape: seq<nat>, c: seq<nat>)
    requires Enumerates(out, axes, shape) && InShape(axes, shape) && InRange(c, shape)
    ensures Linear(c, shape) in out <==> forall i :: 0 <= i < |axes| ==> c[i] in axes[i]
  {
    hide Product, Linear, Coord;
    var lens := Lens(axes);
    if forall i :: 0 <= i < |axes| ==> c[i] in axes[i] {
      var idx := IndicesOf(axes, c);
      LinearBound(idx, lens);
      CoordOfLinear(idx, lens);
      assert EnumeratesAt(out, axes, shape, Linear(idx, lens));
      assert Pick(axes, idx) == c;
    }
    if Linear(c, shape) in out {
      var k :| 0 <= k < |out| && out[k] == Linear(c, shape);
      if !Positive(lens) {
        var i :| 0 <= i < |lens| && lens[i] == 0;
        EmptyProduct(lens, i);
      }
      assert EnumeratesAt(out, axes, shape, k);
      PickInRange(axes, shape, Coord(k, lens));
      LinearInjective(Pick(axes, Coord(k, lens)), c, shape);
    }
  }

  lemma PickInRange(axes: seq<seq<nat>>, shape: seq<nat>, idx: seq<nat>)
    requires InShape(axes, shape) && InRange(idx, Lens(axes))
    ensures InRange(Pick(axes, idx), shape)
  {
  }

  lemma IndicesOf(axes: seq<seq<nat>>, c: seq<nat>) returns (idx: seq<nat>)
    requires |c| == |axes| && forall i :: 0 <= i < |axes| ==> c[i] in axes[i]
    ensures InRange(idx, Lens(axes)) && forall i :: 0 <= i < |axes| ==> axes[i][idx[i]] == c[i]
  {
    idx := [];
    for i := 0 to |axes|
      invariant |idx| == i && forall k :: 0 <= k < i ==> idx[k] < |axes[k]| && axes[k][idx[k]] == c[k]
    {
      var j :| 0 <= j < |axes[i]| && axes[i][j] == c[i];
      idx := idx + [j];
    }
  }

  /** With increasing coordinates on every axis, the positions increase. */
  lemma PositionsIncrease(out: seq<nat>, axes: seq<seq<nat>>, shape: seq<nat>)
    requires Enumerates(out, axes, shape) && InShape(axes, shape)
    requires forall i :: 0 <= i < |axes| ==> Increasing(axes[i])
    ensures Increasing(out)
  {
    hide Product, Linear, Coord;
    var lens := Lens(axes);
    forall a, b | 0 <= a < b < |out| ensures out[a] < out[b] {
      if !Positive(lens) {
        var i :| 0 <= i < |lens| && lens[i] == 0;
        EmptyProduct(lens, i);
      }
      assert EnumeratesAt(out, axes, shape, a) && EnumeratesAt(out, axes, shape, b);
      LinearOfCoord(a, lens);
      LinearOfCoord(b, lens);
      LinearIsLexicographic(Coord(a, lens), Coord(b, lens), lens);
      PickKeepsOrder(axes, Coord(a, lens), Coord(b, lens));
      PickInRange(axes, shape, Coord(a, lens));
      PickInRange(axes, shape, Coord(b, lens));
      LexicographicIsLinear(Pick(axes, Coord(a, lens)), Pick(axes, Coord(b, lens)), shape);
    }
  }

  lemma {:induction false} PickKeepsOrder(axes: seq<seq<nat>>, a: seq<nat>, b: seq<nat>)
    requires InRange(a, Lens(axes)) && InRange(b, Lens(axes)) && LexLess(a, b)
    requires forall i :: 0 <= i < |axes| ==> Increasing(axes[i])
    ensures LexLess(Pick(axes, a), Pick(axes, b))
  {
    assert Increasing(axes[0]);
    if a[0] == b[0] {
      LensTail(axes);
      assert forall i :: 0 <= i < |axes[1..]| ==> axes[1..][i] == axes[i + 1];
      PickKeepsOrder(axes[1..], a[1..], b[1..]);
      assert Pick(axes, a)[1..] == Pick(axes[1..], a[1..]) && Pick(axes, b)[1..] == Pick(axes[1..], b[1..]);
    }
  }

  lemma LensTail(axes: seq<seq<nat>>)
    requires axes != []
    ensures Lens(axes)[1..] == Lens(axes[1..])
  {
  }

  // ----- raw selections

  predicate IsNone(dims: seq<RawSlice>) {
    exists i :: 0 <= i < |dims| && dims[i].count == 0
  }

  predicate IsAll(dims: seq<RawSlice>, shape: seq<nat>) {
    forall i :: 0 <= i < |dims| && i < |shape| ==>
      dims[i].start == 0 && dims[i].step == dims[i].block && Times(dims[i].count, dims[i].block) == shape[i]
  }

  function AllRaw(dims: seq<SliceOrIndex>, shape: seq<nat>): Result<seq<RawSlice>, SliceError>
    requires |dims| == |shape|
  {
    if dims == [] then Success([])
    else match ToRaw(dims[0], shape[0])
      case Failure(e) => Failure(e)
      case Success(r) =>
        match AllRaw(dims[1..], shape[1..])
        case Failure(e) => Failure(e)
        case Success(rest) => Success([r] + rest)
  }

  /** `Hyperslab::into_raw`. */
  function SlabToRaw(dims: seq<SliceOrIndex>, shape: seq<nat>): Result<seq<RawSlice>, SliceError> {
    if |dims| != |shape| then Failure(RankMismatch) else AllRaw(dims, shape)
  }

  function CheckCoords(coords: seq<seq<nat>>, ndim: nat, shape: seq<nat>): Option<SliceError> {
    if coords == [] && ndim == 0 then None
    else if ndim != |shape| then Some(RankMismatch)
    else if forall p :: 0 <= p < |coords| ==> InRange(coords[p], shape) then None
    else Some(PointOutOfBounds)
  }

  /** `Selection::into_raw`. */
  function IntoRaw(s: Selection, shape: seq<nat>): Result<RawSelection, SliceError> {
    match s
    case All => Success(RawAll)
    case Points(coords, ndim) =>
      if CheckCoords(coords, ndim, shape).Some? then Failure(CheckCoords(coords, ndim, shape).value)
      else Success(if coords == [] then RawNone else RawPoints(coords, ndim))
    case Slab(dims) =>
      match SlabToRaw(dims, shape)
      case Failure(e) => Failure(e)
      case Success(raw) => Success(if IsNone(raw) then RawNone else if IsAll(raw, shape) then RawAll else Regular(raw))
  }

  function Axes(dims: seq<RawSlice>): (axes: seq<seq<nat>>)
    ensures |axes| == |dims|
  {
    seq(|dims|, i requires 0 <= i < |dims| => AxisCoords(dims[i], dims[i].count))
  }

  ghost predicate FitsShape(dims: seq<RawSlice>, shape: seq<nat>) {
    |dims| == |shape| && forall i :: 0 <= i < |dims| ==> Reach(dims[i]) <= shape[i]
  }

  /** `linear_indices` of a regular hyperslab. */
  method SlabIndices(dims: seq<RawSlice>, shape: seq<nat>) returns (r: Result<seq<nat>, SliceError>)
    ensures r.Success? <==> FitsShape(dims, shape)
    ensures r.Failure? && |dims| == |shape| ==> r.error == SelectionOutOfBounds
    ensures r.Success? ==> Enumerates(r.value, Axes(dims), shape)
  {
    hide Reach, AxisCoords, Enumerates;
    if |dims| != |shape| {
      return Failure(RankMismatch);
    }
    var axes: seq<seq<nat>> := [];
    for i := 0 to |dims|
      invariant |axes| == i && forall k :: 0 <= k < i ==> Reach(dims[k]) <= shape[k] && axes[k] == AxisCoords(dims[k], dims[k].count)
    {
      var coords := Axis(dims[i], shape[i]);
      if coords.Failure? {
        return Failure(coords.error);
      }
      axes := axes + [coords.value];
    }
    assert axes == Axes(dims);
    var out := Combine(axes, shape);
    r := Success(out);
  }

  method LinearIndices(s: RawSelection, shape: seq<nat>) returns (r: Result<seq<nat>, SliceError>)
    ensures s.RawNone? ==> r == Success([])
    ensures s.RawAll? ==> r == Success(Iota(0, Product(shape)))
    ensures s.RawPoints? ==>
              if CheckCoords(s.coords, s.ndim, shape).Some? then r == Failure(CheckCoords(s.coords, s.ndim, shape).value)
              else r.Success? && |r.value| == |s.coords| &&
                   forall p :: 0 <= p < |s.coords| && |s.coords[p]| == |shape| ==> r.value[p] == Linear(s.coords[p], shape)
    ensures s.Regular? ==> (r.Success? <==> FitsShape(s.dims, shape))
    ensures s.Regular? && r.Failure? && |s.dims| == |shape| ==> r.error == SelectionOutOfBounds
    ensures s.Regular? && r.Success? ==> Enumerates(r.value, Axes(s.dims), shape)
  {
    hide Product, Linear, Enumerates, FitsShape;
    match s {
      case RawNone => r := Success([]);
      case RawAll => r := Success(Iota(0, Product(shape)));
      case RawPoints(coords, ndim) =>
        if CheckCoords(coords, ndim, shape).Some? {
          return Failure(CheckCoords(coords, ndim, shape).value);
        }
        var out := [];
        var strides := Strides(shape);
        for p := 0 to |coords|
          invariant |out| == p && forall k :: 0 <= k < p ==> out[k] == Linear(coords[k], shape)
        {
          var lin := LinearOf(coords[p], shape, strides);
          out := out + [lin];
        }
        r := Success(out);
      case Regular(dims) => r := SlabIndices(dims, shape);
    }
  }

  // ----- what is selected

  lemma AxesInShape(dims: seq<RawSlice>, shape: seq<nat>)
    requires FitsShape(dims, shape)
    ensures InShape(Axes(dims), shape)
  {
    hide AxisCoords, Reach;
    forall i, k | 0 <= i < |dims| && 0 <= k < |Axes(dims)[i]| ensures Axes(dims)[i][k] < shape[i] {
      AxisBound(dims[i], dims[i].count);
    }
  }

  ghost predicate InSlice(r: RawSlice, c: nat) {
    exists i: nat :: i < r.count && InBlock(r, i, c)
  }

  /** A position is listed exactly when its coordinate lies in a block of the slice on every axis. */
  lemma SlabSelectsExactly(out: seq<nat>, dims: seq<RawSlice>, shape: seq<nat>, c: seq<nat>)
    requires FitsShape(dims, shape) && Enumerates(out, Axes(dims), shape) && InRange(c, shape)
    ensures Linear(c, shape) in out <==> forall i :: 0 <= i < |dims| ==> InSlice(dims[i], c[i])
  {
    hide AxisCoords, Linear, Enumerates, InShape, InBlock, Reach;
    AxesInShape(dims, shape);
    SelectedExactly(out, Axes(dims), shape, c);
    forall i | 0 <= i < |dims| ensures c[i] in Axes(dims)[i] <==> InSlice(dims[i], c[i]) {
      AxisMembers(dims[i], dims[i].count, c[i]);
    }
  }

  /** When no two blocks of an axis overlap, positions are listed in strictly increasing order. */
  lemma SlabPositionsIncrease(out: seq<nat>, dims: seq<RawSlice>, shape: seq<nat>)
    requires FitsShape(dims, shape) && Enumerates(out, Axes(dims), shape)
    requires forall i :: 0 <= i < |dims| ==> dims[i].step >= dims[i].block
    ensures Increasing(out)
  {
    hide AxisCoords, Linear, Enumerates, FitsShape, InShape, Increasing;
    AxesInShape(dims, shape);
    forall i | 0 <= i < |dims| ensures Increasing(Axes(dims)[i]) {
      AxisIncreasing(dims[i], dims[i].count);
    }
    PositionsIncrease(out, Axes(dims), shape);
  }

  /** Every position of the shape is below its size, so the listed ones are in bounds. */
  lemma SlabInBounds(out: seq<nat>, dims: seq<RawSlice>, shape: seq<nat>)
    requires FitsShape(dims, shape) && Enumerates(out, Axes(dims), shape)
    ensures forall k :: 0 <= k < |out| ==> out[k] < Product(shape)
  {
    hide AxisCoords, Linear, Coord, Product;
    AxesInShape(dims, shape);
    var lens := Lens(Axes(dims));
    forall k | 0 <= k < |out| ensures out[k] < Product(shape) {
      PositiveShape(lens, k);
      assert EnumeratesAt(out, Axes(dims), shape, k);
      PickInRange(Axes(dims), shape, Coord(k, lens));
      LinearBound(Pick(Axes(dims), Coord(k, lens)), shape);
    }
  }

  // ----- the shortcuts

  /** A slab that `IsNone` recognises selects nothing. */
  lemma NoneSelectsNothing(dims: seq<RawSlice>, shape: seq<nat>, out: seq<nat>)
    requires IsNone(dims) && |dims| == |shape|
    ensures Enumerates(out, Axes(dims), shape) <==> out == []
  {
    hide AxisCoords, Product;
    var i :| 0 <= i < |dims| && dims[i].count == 0;
    assert Lens(Axes(dims))[i] == 0 by { EmptyAxis(dims[i]); }
    EmptyProduct(Lens(Axes(dims)), i);
  }

  lemma EmptyAxis(r: RawSlice)
    requires r.count == 0
    ensures AxisCoords(r, r.count) == []
  {
  }

  /** A slab that `IsAll` recognises selects every position, in order, and is in bounds. */
  lemma AllSelectsEverything(dims: seq<RawSlice>, shape: seq<nat>, out: seq<nat>)
    requires |dims| == |shape| && IsAll(dims, shape)
    ensures FitsShape(dims, shape)
    ensures Enumerates(out, Axes(dims), shape) <==> out == Iota(0, Product(shape))
  {
    hide Product, Linear, Coord, AxisCoords, Reach;
    var axes := Axes(dims);
    forall i | 0 <= i < |dims| ensures Reach(dims[i]) <= shape[i] && axes[i] == Iota(0, shape[i]) {
      FullAxis(dims[i], dims[i].count);
      FullReach(dims[i], shape[i]);
    }
    assert Lens(axes) == shape;
    if Enumerates(out, axes, shape) {
      forall k | 0 <= k < |out| ensures out[k] == k {
        PositiveShape(shape, k);
        assert EnumeratesAt(out, axes, shape, k);
        LinearOfCoord(k, shape);
        assert Pick(axes, Coord(k, shape)) == Coord(k, shape);
      }
    }
    if out == Iota(0, Product(shape)) {
      forall k | 0 <= k < |out| && Positive(shape) ensures EnumeratesAt(out, axes, shape, k) {
        LinearOfCoord(k, shape);
        assert Pick(axes, Coord(k, shape)) == Coord(k, shape);
      }
    }
  }

  lemma FullReach(r: RawSlice, dim: nat)
    requires r.start == 0 && r.step == r.block && Times(r.count, r.block) == dim
    ensures Reach(r) <= dim
  {
    if r.count > 0 {
      TimesMonotone(r.count - 1, r.count, r.block);
    }
  }

  lemma PositiveShape(shape: seq<nat>, k: nat)
    requires k < Product(shape)
    ensures Positive(shape)
  {
    hide Product;
    if !Positive(shape) {
      var i :| 0 <= i < |shape| && shape[i] == 0;
      EmptyProduct(shape, i);
    }
  }

  // ----- slices that are accepted and then refused

  lemma {:induction false} AllRawAt(dims: seq<SliceOrIndex>, shape: seq<nat>, i: nat)
    requires |dims| == |shape| && AllRaw(dims, shape).Success? && i < |dims|
    ensures var raw := AllRaw(dims, shape).value;
            |raw| == |dims| && ToRaw(dims[i], shape[i]) == Success(raw[i])
  {
    hide ToRaw;
    AllRawLength(dims, shape);
    if i > 0 {
      AllRawAt(dims[1..], shape[1..], i - 1);
    }
  }

  lemma {:induction false} AllRawLength(dims: seq<SliceOrIndex>, shape: seq<nat>)
    requires |dims| == |shape| && AllRaw(dims, shape).Success?
    ensures |AllRaw(dims, shape).value| == |dims|
  {
    hide ToRaw;
    if dims != [] {
      AllRawLength(dims[1..], shape[1..]);
    }
  }

  /** Whether enumerating an accepted selection succeeds: an overhanging counted slice is refused
      after all, unless some other axis selects nothing. */
  lemma AcceptedFits(dims: seq<SliceOrIndex>, shape: seq<nat>)
    requires SlabToRaw(dims, shape).Success?
    ensures var raw := SlabToRaw(dims, shape).value;
            && |raw| == |dims| == |shape|
            && (FitsShape(raw, shape) <==> forall i :: 0 <= i < |dims| ==> !Overhangs(dims[i], shape[i]))
            && ((IsNone(raw) || IsAll(raw, shape) || FitsShape(raw, shape)) <==>
                (IsNone(raw) || forall i :: 0 <= i < |dims| ==> !Overhangs(dims[i], shape[i])))
  {
    hide ToRaw, Reach, Overhangs;
    var raw := AllRaw(dims, shape).value;
    AllRawLength(dims, shape);
    forall i | 0 <= i < |dims| ensures Reach(raw[i]) <= shape[i] <==> !Overhangs(dims[i], shape[i]) {
      AllRawAt(dims, shape, i);
      AcceptedReach(dims[i], shape[i]);
    }
    if IsAll(raw, shape) {
      AllSelectsEverything(raw, shape, []);
    }
  }

  // ----- the shape of the result

  /** The output shape of a hyperslab: axes selected by an index disappear. */
  function OutShape(dims: seq<SliceOrIndex>, raw: seq<RawSlice>): seq<nat>
    requires |dims| == |raw|
  {
    if dims == [] then []
    else (if dims[0].Index? then [] else [Times(raw[0].count, raw[0].block)]) + OutShape(dims[1..], raw[1..])
  }

  /** Its product is the number of selected positions. */
  lemma {:induction false} OutShapeCounts(dims: seq<SliceOrIndex>, shape: seq<nat>)
    requires |dims| == |shape| && AllRaw(dims, shape).Success?
    ensures var raw := AllRaw(dims, shape).value;
            |raw| == |dims| && Product(OutShape(dims, raw)) == Product(Lens(Axes(raw)))
  {
    hide AxisCoords, Product, ToRaw, Lens, Axes;
    AllRawLength(dims, shape);
    var raw := AllRaw(dims, shape).value;
    if dims == [] {
      assert Lens(Axes(raw)) == [] && OutShape(dims, raw) == [];
    } else {
      OutShapeCounts(dims[1..], shape[1..]);
      AllRawAt(dims, shape, 0);
      AxesTail(raw);
      ProductStep(Lens(Axes(raw)));
      FirstExtent(dims[0], shape[0], raw[0], OutShape(dims[1..], raw[1..]));
    }
  }

  lemma FirstExtent(s: SliceOrIndex, dim: nat, r: RawSlice, rest: seq<nat>)
    requires ToRaw(s, dim) == Success(r)
    ensures Product((if s.Index? then [] else [Times(r.count, r.block)]) + rest) == Times(r.count, r.block) * Product(rest)
  {
    hide Product;
    if s.Index? {
      assert Times(1, 1) == 1;
      Seqs.Empty(rest);
    } else {
      ProductStep([Times(r.count, r.block)] + rest);
      Seqs.HeadOf(Times(r.count, r.block), rest);
    }
  }

  lemma AxesTail(raw: seq<RawSlice>)
    requires raw != []
    ensures Lens(Axes(raw))[0] == Times(raw[0].count, raw[0].block) && Lens(Axes(raw))[1..] == Lens(Axes(raw[1..]))
  {
    hide AxisCoords;
    assert Axes(raw)[1..] == Axes(raw[1..]);
  }

  /** A table of no points without columns: what a list of no coordinates becomes. */
  predicate EmptyTable(s: Selection) {
    s.Points? && s.coords == [] && s.ndim == 0
  }

  /** `out_shape`. */
  function ShapeOf(s: Selection, shape: seq<nat>): Result<seq<nat>, SliceError> {
    match s
    case All => Success(shape)
    case Points(coords, ndim) =>
      if CheckCoords(coords, ndim, shape).Some? then Failure(CheckCoords(coords, ndim, shape).value)
      else Success(if EmptyTable(s) then [] else [|coords|])
    case Slab(dims) =>
      match SlabToRaw(dims, shape)
      case Failure(e) => Failure(e)
      case Success(raw) => if |raw| == |dims| then Success(OutShape(dims, raw)) else Failure(RankMismatch)
  }

  lemma OneExtent(n: nat)
    ensures Product([n]) == n && Product([]) == 1
  {
    assert [n][1..] == [];
    ProductStep([n]);
  }

  lemma SlabShape(dims: seq<SliceOrIndex>, shape: seq<nat>, out: seq<nat>)
    requires SlabToRaw(dims, shape).Success? && Enumerates(out, Axes(SlabToRaw(dims, shape).value), shape)
    ensures ShapeOf(Slab(dims), shape).Success? && Product(ShapeOf(Slab(dims), shape).value) == |out|
  {
    hide Product, ToRaw, OutShape, Lens, Axes;
    OutShapeCounts(dims, shape);
  }
}
