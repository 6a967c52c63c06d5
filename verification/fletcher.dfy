/** The fletcher32 checksum: its 32-bit sums never wrap, and its halves are plain sums modulo 65535. */
module Fletcher {
  import opened Bytes
  import Seqs

  /** The 16-bit big-endian words; an odd last byte is the high half of a word. */
  function Words(data: seq<u8>): (ws: seq<nat>)
    ensures |ws| == CeilDiv(|data|, 2)
    ensures forall i :: 0 <= i < |ws| ==> ws[i] < 0x1_0000
  {
    seq(CeilDiv(|data|, 2), i requires 0 <= i < CeilDiv(|data|, 2) => WordAt(data, i))
  }

  function WordAt(data: seq<u8>, i: nat): (w: nat)
    requires 2 * i < |data|
    ensures w < 0x1_0000
  {
    data[2 * i] as int * 0x100 + if 2 * i + 1 < |data| then data[2 * i + 1] as int else 0
  }

  function Sum(ws: seq<nat>): nat {
    if ws == [] then 0 else Sum(ws[..|ws| - 1]) + ws[|ws| - 1]
  }

  /** The sum of the sums of all prefixes. */
  function PrefixSums(ws: seq<nat>): nat {
    if ws == [] then 0 else PrefixSums(ws[..|ws| - 1]) + Sum(ws)
  }

  /** s modulo 65535, except that a positive multiple of 65535 stays 65535. */
  function Reduce(s: nat): (r: nat)
    ensures r <= 0xffff
  {
    if s == 0 then 0 else (s - 1) % 0xffff + 1
  }

  /** The checksum in terms of unbounded sums. */
  function Checksum(data: seq<u8>): u32 {
    Reduce(PrefixSums(Words(data))) * 0x1_0000 + Reduce(Sum(Words(data)))
  }

  /** x stands for the unbounded sum s. */
  ghost predicate Stands(x: nat, s: nat) {
    (x == 0 <==> s == 0) && Multiple(x - s)
  }

  ghost predicate Multiple(d: int) {
    d % 0xffff == 0
  }

  lemma MultipleAdd(a: int, b: int)
    requires Multiple(a) && Multiple(b)
    ensures Multiple(a + b) && Multiple(a - b)
  {
    assert a == 0xffff * (a / 0xffff) && b == 0xffff * (b / 0xffff);
    assert a + b == 0xffff * (a / 0xffff + b / 0xffff);
    assert a - b == 0xffff * (a / 0xffff - b / 0xffff);
  }

  lemma StandsAdd(x: nat, s: nat, y: nat, t: nat)
    requires Stands(x, s) && Stands(y, t)
    ensures Stands(x + y, s + t)
  {
    MultipleAdd(x - s, y - t);
    assert (x - s) + (y - t) == (x + y) - (s + t);
  }

  lemma StandsReduced(x: nat, s: nat)
    requires Stands(x, s) && x <= 0xffff
    ensures x == Reduce(s)
  {
  }

  lemma ReduceDifference(s: nat, t: nat)
    requires Reduce(s) == Reduce(t)
    ensures Multiple(s - t)
  {
  }

  /** `wrapping_add` on 32 bits. */
  function WrappingAdd(a: u32, b: u32): u32 {
    (a + b) % TWO_32
  }

  /** One end-around carry step. */
  function Fold(x: u32): (r: u32)
    ensures r <= 0xffff + x / 0x1_0000
    ensures r + 0xffff * (x / 0x1_0000) == x
  {
    WrappingAdd(x % 0x1_0000, x / 0x1_0000)
  }

  lemma FoldStands(x: u32, s: nat)
    requires Stands(x, s)
    ensures Stands(Fold(x), s)
  {
    assert Multiple(-0xffff * (x / 0x1_0000));
    MultipleAdd(x - s, -0xffff * (x / 0x1_0000));
  }

  const BLOCK: nat := 360

  /** The 360 words of one block, added without reduction. No addition wraps. */
  method AddBlock(data: seq<u8>, start: nat, count: nat, s1: u32, s2: u32) returns (sum1: u32, sum2: u32)
    requires count <= BLOCK && 2 * (start + count) <= |data|
    requires s1 <= 65895 && s2 <= 131070
    requires Stands(s1, Sum(Words(data)[..start])) && Stands(s2, PrefixSums(Words(data)[..start]))
    ensures sum1 <= 65895 + count * 0xffff
    ensures sum2 <= SecondSumBound(count)
    ensures Stands(sum1, Sum(Words(data)[..start + count]))
    ensures Stands(sum2, PrefixSums(Words(data)[..start + count]))
  {
    hide Reduce, Words, WordAt, Stands, Sum, PrefixSums, SecondSumBound;
    BoundStep(0);
    sum1, sum2 := s1, s2;
    for i := 0 to count
      invariant sum1 <= 65895 + i * 0xffff
      invariant sum2 <= SecondSumBound(i)
      invariant Stands(sum1, Sum(Words(data)[..start + i]))
      invariant Stands(sum2, PrefixSums(Words(data)[..start + i]))
    {
      var word := WordAt(data, start + i);
      NextWord(data, start + i, sum1, sum2);
      SecondSumFits(i + 1);
      BoundStep(i);
      assert sum1 + word < TWO_32 && sum2 + (sum1 + word) < TWO_32;
      sum1 := WrappingAdd(sum1, word);
      sum2 := WrappingAdd(sum2, sum1);
    }
  }

  /** How large the second sum can be i words into a block. */
  function SecondSumBound(i: nat): nat {
    if i == 0 then 131070 else SecondSumBound(i - 1) + 65895 + i * 0xffff
  }

  lemma BoundStep(i: nat)
    ensures SecondSumBound(0) == 131070
    ensures SecondSumBound(i + 1) == SecondSumBound(i) + 65895 + (i + 1) * 0xffff
  {
  }

  lemma {:induction false} SecondSumClosed(i: nat)
    ensures 2 * SecondSumBound(i) == 262140 + 131790 * i + 0xffff * (i * (i + 1))
  {
    if i > 0 {
      SecondSumClosed(i - 1);
      Distribute(i, i - 1, 2);
    }
  }

  lemma SecondSumFits(i: nat)
    requires i <= BLOCK
    ensures SecondSumBound(i) <= 4282317570 < TWO_32
  {
    SecondSumClosed(i);
    MulMonotone(i, i + 1, 361);
  }

  lemma NextWord(data: seq<u8>, i: nat, s1: nat, s2: nat)
    requires 2 * i < |data|
    requires Stands(s1, Sum(Words(data)[..i])) && Stands(s2, PrefixSums(Words(data)[..i]))
    ensures var w := WordAt(data, i);
            Stands(s1 + w, Sum(Words(data)[..i + 1])) && Stands(s2 + (s1 + w), PrefixSums(Words(data)[..i + 1]))
  {
    var ws, w := Words(data), WordAt(data, i);
    assert ws[..i + 1][..i] == ws[..i];
    StandsAdd(s1, Sum(ws[..i]), w, w);
    StandsAdd(s2, PrefixSums(ws[..i]), s1 + w, Sum(ws[..i + 1]));
  }

  method Fletcher32(data: seq<u8>) returns (r: u32)
    ensures r == Checksum(data)
  {
    hide Reduce, Words, WordAt, Stands, Sum, PrefixSums;
    var sum1: u32, sum2: u32 := 0, 0;
    NothingSummed(Words(data));
    var len, pos := |data| / 2, 0;
    ghost var ws := Words(data);
    while len > 0
      invariant 0 <= len && pos + len == |data| / 2
      invariant sum1 <= 65895 && sum2 <= 131070
      invariant Stands(sum1, Sum(ws[..pos])) && Stands(sum2, PrefixSums(ws[..pos]))
    {
      var tlen := Min(len, BLOCK);
      len := len - tlen;
      sum1, sum2 := AddBlock(data, pos, tlen, sum1, sum2);
      pos := pos + tlen;
      FoldStands(sum1, Sum(ws[..pos]));
      FoldStands(sum2, PrefixSums(ws[..pos]));
      sum1, sum2 := Fold(sum1), Fold(sum2);
    }
    r := FinishSums(data, pos, sum1, sum2);
  }

  /** A last odd byte counts as the high half of a word; then both sums are folded to 16 bits. */
  method FinishSums(data: seq<u8>, words: nat, s1: u32, s2: u32) returns (r: u32)
    requires words == |data| / 2 && s1 <= 65895 && s2 <= 131070
    requires Stands(s1, Sum(Words(data)[..words])) && Stands(s2, PrefixSums(Words(data)[..words]))
    ensures r == Checksum(data)
  {
    hide Reduce, Words, WordAt, Stands, Sum, PrefixSums;
    var sum1, sum2, pos := s1, s2, words;
    ghost var ws := Words(data);
    if |data| % 2 != 0 {
      NextWord(data, pos, sum1, sum2);
      OddWord(data, pos);
      sum1 := WrappingAdd(sum1, WordAt(data, pos));
      sum2 := WrappingAdd(sum2, sum1);
      pos := pos + 1;
      FoldStands(sum1, Sum(ws[..pos]));
      FoldStands(sum2, PrefixSums(ws[..pos]));
      sum1, sum2 := Fold(sum1), Fold(sum2);
    }
    Seqs.TakeAll(ws, pos);
    FoldFits(sum1);
    FoldFits(sum2);
    FoldStands(sum1, Sum(ws));
    FoldStands(sum2, PrefixSums(ws));
    sum1, sum2 := Fold(sum1), Fold(sum2);
    StandsReduced(sum1, Sum(ws));
    StandsReduced(sum2, PrefixSums(ws));
    r := sum2 * 0x1_0000 + sum1;
  }

  lemma NothingSummed(ws: seq<nat>)
    ensures Stands(0, Sum(ws[..0])) && Stands(0, PrefixSums(ws[..0]))
  {
  }

  lemma OddWord(data: seq<u8>, i: nat)
    requires 2 * i + 1 == |data|
    ensures WordAt(data, i) <= 0xff00
  {
  }

  lemma FoldFits(x: u32)
    requires x <= 131070
    ensures Fold(x) <= 0xffff
  {
  }

  // ----- what the checksum detects

  lemma {:induction false} SumUpdate(ws: seq<nat>, i: nat, w: nat)
    requires i < |ws|
    ensures Sum(ws[i := w]) == Sum(ws) - ws[i] + w
  {
    var last := |ws| - 1;
    if i < last {
      assert ws[i := w][..last] == ws[..last][i := w];
      SumUpdate(ws[..last], i, w);
    } else {
      assert ws[i := w][..last] == ws[..last];
    }
  }

  lemma SameHalves(a: seq<u8>, b: seq<u8>)
    requires Checksum(a) == Checksum(b)
    ensures Multiple(Sum(Words(a)) - Sum(Words(b)))
    ensures Multiple(PrefixSums(Words(a)) - PrefixSums(Words(b)))
  {
    ReduceDifference(Sum(Words(a)), Sum(Words(b)));
    ReduceDifference(PrefixSums(Words(a)), PrefixSums(Words(b)));
  }

  /** Changing one word is noticed by the low half, unless the words agree modulo 65535. */
  lemma WordChangeDetected(a: seq<u8>, b: seq<u8>, i: nat)
    requires |a| == |b| && 2 * i < |a|
    requires Words(b) == Words(a)[i := WordAt(b, i)]
    requires Checksum(a) == Checksum(b)
    ensures Multiple(WordAt(a, i) - WordAt(b, i))
  {
    hide Reduce, WordAt;
    SumUpdate(Words(a), i, WordAt(b, i));
    SameHalves(a, b);
  }

  lemma {:induction false} PrefixSumsSwap(ws: seq<nat>, i: nat)
    requires i + 1 < |ws|
    ensures Sum(ws[i := ws[i + 1]][i + 1 := ws[i]]) == Sum(ws)
    ensures PrefixSums(ws[i := ws[i + 1]][i + 1 := ws[i]]) == PrefixSums(ws) - ws[i] + ws[i + 1]
  {
    var last := |ws| - 1;
    var vs := ws[i := ws[i + 1]][i + 1 := ws[i]];
    SumUpdate(ws, i, ws[i + 1]);
    SumUpdate(ws[i := ws[i + 1]], i + 1, ws[i]);
    if i + 1 < last {
      assert vs[..last] == ws[..last][i := ws[i + 1]][i + 1 := ws[i]];
      PrefixSumsSwap(ws[..last], i);
    } else {
      assert vs[..last] == ws[..i] + [ws[last]] && ws[..last] == ws[..i] + [ws[i]];
      assert vs[..last][..i] == ws[..i] && ws[..last][..i] == ws[..i];
    }
  }

  /** Swapping neighbouring words is noticed by the high half, unless they agree modulo 65535. */
  lemma SwapDetected(a: seq<u8>, b: seq<u8>, i: nat)
    requires |a| == |b| && 2 * (i + 1) < |a|
    requires Words(b) == Words(a)[i := WordAt(a, i + 1)][i + 1 := WordAt(a, i)]
    requires Checksum(a) == Checksum(b)
    ensures Multiple(WordAt(a, i) - WordAt(a, i + 1))
  {
    hide Reduce, WordAt;
    PrefixSumsSwap(Words(a), i);
    SameHalves(a, b);
  }

  // ----- which words are summed

  type Word = w: nat | w < 0x1_0000

  /** Words as bytes, the high byte first. */
  function Spelled(ws: seq<Word>): (s: seq<u8>)
    ensures |s| == 2 * |ws|
  {
    if ws == [] then [] else [ws[0] / 0x100, ws[0] % 0x100] + Spelled(ws[1..])
  }

  lemma WordsCons(a: u8, b: u8, rest: seq<u8>)
    ensures Words([a, b] + rest) == [a as int * 0x100 + b as int] + Words(rest)
  {
    hide WordAt;
    var data := [a, b] + rest;
    var ws, tail := Words(data), Words(rest);
    assert ws[0] == WordAt(data, 0);
    FirstWord(a, b, rest);
    forall i | 0 < i < |ws| ensures ws[i] == tail[i - 1] {
      LaterWord(a, b, rest, i);
    }
    SameTail(ws, a as int * 0x100 + b as int, tail);
  }

  lemma FirstWord(a: u8, b: u8, rest: seq<u8>)
    ensures WordAt([a, b] + rest, 0) == a as int * 0x100 + b as int
  {
  }

  lemma LaterWord(a: u8, b: u8, rest: seq<u8>, i: nat)
    requires i > 0 && 2 * i < 2 + |rest|
    ensures WordAt([a, b] + rest, i) == WordAt(rest, i - 1)
  {
    Seqs.DropAppended([a, b], rest);
    assert ([a, b] + rest)[2 * i] == rest[2 * (i - 1)];
  }

  lemma SameTail(ws: seq<nat>, w: nat, tail: seq<nat>)
    requires |ws| == 1 + |tail| && ws[0] == w && forall i :: 0 < i < |ws| ==> ws[i] == tail[i - 1]
    ensures ws == [w] + tail
  {
  }

  /** The words of a buffer are those it spells; an odd last byte is a word without its low byte. */
  lemma {:induction false} WordsSpelled(ws: seq<Word>, odd: seq<u8>)
    requires |odd| <= 1
    ensures Words(Spelled(ws) + odd) == ws + if odd == [] then [] else [odd[0] as int * 0x100]
  {
    hide Words;
    if ws == [] {
      Seqs.Empty(odd);
      OddWords(odd);
    } else {
      WordsSpelled(ws[1..], odd);
      Seqs.Assoc([ws[0] / 0x100, ws[0] % 0x100], Spelled(ws[1..]), odd);
      WordsCons(ws[0] / 0x100, ws[0] % 0x100, Spelled(ws[1..]) + odd);
      Seqs.HeadAndTail(ws);
    }
  }

  lemma OddWords(odd: seq<u8>)
    requires |odd| <= 1
    ensures Words(odd) == if odd == [] then [] else [odd[0] as int * 0x100]
  {
  }

  /** All words added up, and added up with the number of words from each to the end. */
  function Total(ws: seq<nat>): nat {
    if ws == [] then 0 else ws[0] + Total(ws[1..])
  }

  function Weighted(ws: seq<nat>): nat {
    if ws == [] then 0 else Times(|ws|, ws[0]) + Weighted(ws[1..])
  }

  lemma {:induction false} TotalIsSum(ws: seq<nat>)
    ensures Total(ws) == Sum(ws)
  {
    if ws != [] {
      TotalIsSum(ws[1..]);
      SumFirst(ws);
    }
  }

  lemma {:induction false} SumFirst(ws: seq<nat>)
    requires ws != []
    ensures Sum(ws) == ws[0] + Sum(ws[1..])
  {
    var last := |ws| - 1;
    if last > 0 {
      SumFirst(ws[..last]);
      assert ws[..last][1..] == ws[1..][..last - 1];
    } else {
      assert ws[..0] == [] && ws[1..] == [];
    }
  }

  lemma {:induction false} WeightedIsPrefixSums(ws: seq<nat>)
    ensures Weighted(ws) == PrefixSums(ws)
  {
    if ws != [] {
      WeightedIsPrefixSums(ws[1..]);
      PrefixSumsFirst(ws);
    }
  }

  lemma {:induction false} PrefixSumsFirst(ws: seq<nat>)
    requires ws != []
    ensures PrefixSums(ws) == Times(|ws|, ws[0]) + PrefixSums(ws[1..])
  {
    var last := |ws| - 1;
    SumFirst(ws);
    if last > 0 {
      PrefixSumsFirst(ws[..last]);
      assert ws[..last][1..] == ws[1..][..last - 1];
    } else {
      assert ws[..0] == [] && ws[1..] == [];
      assert Times(1, ws[0]) == ws[0];
    }
  }

  /** The checksum of words, high byte first: their sum in the low half and the weighted sum in the high
      half, both modulo 65535 and zero only if the sum itself is. An odd byte is a word without its low byte. */
  lemma ChecksumMeans(ws: seq<Word>, odd: seq<u8>)
    requires |odd| <= 1
    ensures var all: seq<nat> := ws + if odd == [] then [] else [odd[0] as int * 0x100];
            var c := Checksum(Spelled(ws) + odd);
            && Stands(c % 0x1_0000, Total(all)) && Stands(c / 0x1_0000, Weighted(all))
  {
    hide Words, Sum, PrefixSums, Total, Weighted, Reduce, Stands;
    var data := Spelled(ws) + odd;
    WordsSpelled(ws, odd);
    TotalIsSum(Words(data));
    WeightedIsPrefixSums(Words(data));
    ReduceStands(Sum(Words(data)));
    ReduceStands(PrefixSums(Words(data)));
    DivUnique(Checksum(data), 0x1_0000, Reduce(PrefixSums(Words(data))), Reduce(Sum(Words(data))));
  }

  lemma ReduceStands(s: nat)
    ensures Stands(Reduce(s), s)
  {
    if s > 0 {
      DivisionFacts(s - 1, 0xffff);
      assert Reduce(s) - s == 0xffff * -((s - 1) / 0xffff);
      DivUnique(Reduce(s) - s, 0xffff, -((s - 1) / 0xffff), 0);
    }
  }
}
