/** Reductions over one number per rank: an all-gather, then the same fold on every rank. */
module Reduce {
  import opened Wrappers
  import opened Bytes
  import opened Collectives
  import opened CollectiveRuns
  import Seqs

  datatype Op = Sum | Min | Max

  function Combine(op: Op, a: u64, b: u64): u64 {
    match op
    case Sum => (a + b) % TWO_64
    case Min => if b < a then b else a
    case Max => if b < a then a else b
  }

  function Fold(op: Op, values: seq<u64>): u64
    requires values != []
  {
    if |values| == 1 then values[0] else Combine(op, Fold(op, values[..|values| - 1]), values[|values| - 1])
  }

  function Total(values: seq<u64>): nat {
    if values == [] then 0 else Total(values[..|values| - 1]) + values[|values| - 1]
  }

  /** The sum on 64 bits. */
  lemma {:induction false} FoldIsSum(values: seq<u64>)
    requires values != []
    ensures Fold(Sum, values) == Total(values) % TWO_64
  {
    var init, last := values[..|values| - 1], values[|values| - 1];
    if init == [] {
      assert Total(init) == 0;
      SmallRemainder(last);
    } else {
      FoldIsSum(init);
      AddModulo(Total(init), last);
    }
  }

  lemma AddModulo(a: nat, b: nat)
    ensures (a % TWO_64 + b) % TWO_64 == (a + b) % TWO_64
  {
  }

  /** The least or greatest of all. */
  lemma {:induction false} FoldIsExtreme(op: Op, values: seq<u64>)
    requires values != [] && op != Sum
    ensures Fold(op, values) in values
    ensures forall v :: v in values ==> if op == Min then Fold(op, values) <= v else v <= Fold(op, values)
  {
    var init, last := values[..|values| - 1], values[|values| - 1];
    assert values == init + [last];
    if init != [] {
      FoldIsExtreme(op, init);
    }
  }

  function Encoded(values: seq<u64>): (parts: seq<seq<u8>>)
    ensures |parts| == |values|
  {
    seq(|values|, i requires 0 <= i < |values| => Le(values[i], 8))
  }

  predicate Readable(parts: seq<seq<u8>>) {
    parts != [] && forall i :: 0 <= i < |parts| ==> |parts[i]| >= 8
  }

  /** The first eight bytes of a part. */
  function Number(part: seq<u8>): u64
    requires |part| >= 8
  {
    FromLeBound(part[..8]);
    Pow2Constants();
    FromLe(part[..8])
  }

  function Numbers(parts: seq<seq<u8>>): (values: seq<u64>)
    requires forall i :: 0 <= i < |parts| ==> |parts[i]| >= 8
    ensures |values| == |parts|
  {
    seq(|parts|, i requires 0 <= i < |parts| => Number(parts[i]))
  }

  lemma NumbersOfEncoded(values: seq<u64>)
    requires values != []
    ensures Readable(Encoded(values)) && Numbers(Encoded(values)) == values
  {
    hide Le, FromLe;
    forall i | 0 <= i < |values| ensures Number(Encoded(values)[i]) == values[i] {
      EightBytes(values[i]);
      Seqs.TakeAll(Le(values[i], 8), 8);
    }
  }

  /** What `allreduce_u64` does with the gathered parts. */
  method FoldParts(op: Op, parts: seq<seq<u8>>) returns (r: u64)
    requires Readable(parts)
    ensures r == Fold(op, Numbers(parts))
  {
    hide FromLe;
    ghost var values := Numbers(parts);
    r := Number(parts[0]);
    for i := 1 to |parts|
      invariant r == Fold(op, values[..i])
    {
      assert values[..i + 1][..i] == values[..i];
      r := Combine(op, r, Number(parts[i]));
    }
    assert values[..|values|] == values;
  }

  /** The reduction a rank returns, from what its all-gather returned. */
  ghost function Reduced(op: Op, o: Outcome): Option<u64> {
    if o.Gathered? && o.parts.Some? && Readable(o.parts.value) then Some(Fold(op, Numbers(o.parts.value))) else None
  }

  /** In every run, the reduction of every rank that has returned from the all-gather is the sum on 64
      bits, the least or the greatest of the numbers that all ranks passed. */
  lemma AllreduceAgrees(w: World, run: seq<State>, i: nat, r: nat, k: nat, op: Op, values: seq<u64>)
    requires w.Valid() && Run(w, run) && i < |run| && r < w.n
    requires k < |w.script| && w.script[k] == Allgather && w.input[k] == Encoded(values)
    ensures |run[i].leaves| == w.n && |values| == w.n
    ensures k < |ResultsOf(run[i], r)| ==>
              var v := Reduced(op, ResultsOf(run[i], r)[k]);
              && v.Some?
              && (op.Sum? ==> v.value == Total(values) % TWO_64)
              && (op.Min? ==> v.value in values && forall q :: 0 <= q < w.n ==> v.value <= values[q])
              && (op.Max? ==> v.value in values && forall q :: 0 <= q < w.n ==> values[q] <= v.value)
  {
    hide Run, Encoded, Numbers, Fold, Total;
    ResultsAreMeaning(w, run, i, r, k);
    NumbersOfEncoded(values);
    if op == Sum {
      FoldIsSum(values);
    } else {
      FoldIsExtreme(op, values);
      assert forall q :: 0 <= q < |values| ==> values[q] in values;
    }
  }
}
