/** Machine-width integers, powers of two and little-endian fields. */
module Bytes {

  type u8 = x: int | 0 <= x < 0x100
  type u32 = x: int | 0 <= x < 0x1_0000_0000
  type u64 = x: int | 0 <= x < 0x1_0000_0000_0000_0000

  const TWO_32: int := 0x1_0000_0000
  const TWO_64: int := 0x1_0000_0000_0000_0000

  /** The address that stands for none. */
  const UNDEF: nat := TWO_64 - 1

  function Min(a: int, b: int): int {
    if a <= b then a else b
  }

  function Max(a: int, b: int): int {
    if a <= b then b else a
  }

  function CeilDiv(a: nat, b: nat): nat
    requires b > 0
  {
    (a + b - 1) / b
  }

  function Pow2(n: nat): (p: nat)
    ensures p > 0
  {
    if n == 0 then 1 else 2 * Pow2(n - 1)
  }

  lemma {:induction false} Pow2Add(a: nat, b: nat)
    ensures Pow2(a + b) == Pow2(a) * Pow2(b)
  {
    if a > 0 {
      Pow2Add(a - 1, b);
      MulAssociative(2, Pow2(a - 1), Pow2(b));
      assert Pow2(a + b) == 2 * Pow2(a - 1 + b);
    }
  }

  lemma {:induction false} Pow2Monotone(a: nat, b: nat)
    requires a <= b
    ensures Pow2(a) <= Pow2(b)
  {
    if a < b {
      Pow2Monotone(a, b - 1);
    }
  }

  lemma Pow2Constants()
    ensures Pow2(3) == 8 && Pow2(4) == 16 && Pow2(5) == 32 && Pow2(8) == 0x100
    ensures Pow2(28) == 0x1000_0000 && Pow2(32) == TWO_32 && Pow2(64) == TWO_64
  {
    assert Pow2(8) == 0x100;
    Pow2Square(8, 0x100);
    Pow2Square(16, 0x1_0000);
    Pow2Square(32, TWO_32);
    Pow2Add(12, 16);
    assert Pow2(12) == 0x1000;
  }

  lemma Pow2Square(a: nat, v: nat)
    requires Pow2(a) == v
    ensures Pow2(2 * a) == v * v
  {
    Pow2Add(a, a);
  }

  /** Shifts and products below are defined one step at a time, so that the proofs about them
      need linear arithmetic only; ShrIsDivision and TimesIsProduct give the closed forms. */
  function Shr(v: nat, i: nat): nat {
    if i == 0 then v else Shr(v, i - 1) / 2
  }

  /** `v << k` on 32 bits. */
  function Shl(v: nat, k: nat): u32 {
    if k == 0 then v % TWO_32 else Shl(v, k - 1) * 2 % TWO_32
  }

  /** The k low bits of v. */
  function Low(v: nat, k: nat): (r: nat)
    ensures r < Pow2(k)
  {
    if k == 0 then 0 else 2 * Low(v / 2, k - 1) + v % 2
  }

  function Times(a: nat, b: nat): nat {
    if a == 0 then 0 else Times(a - 1, b) + b
  }

  lemma {:induction false} TimesIsProduct(a: nat, b: nat)
    ensures Times(a, b) == a * b
  {
    if a > 0 {
      TimesIsProduct(a - 1, b);
    }
  }

  /** The number of blocks of b that n items need. */
  function BlocksFor(n: nat, b: nat): (c: nat)
    requires b > 0
    ensures n <= Times(c, b) && (n > 0 ==> Times(c, b) < n + b)
  {
    if n == 0 then 0 else if n <= b then assert Times(1, b) == b; 1 else 1 + BlocksFor(n - b, b)
  }

  lemma {:induction false} TimesMonotone(a: nat, c: nat, b: nat)
    requires a <= c
    ensures Times(a, b) <= Times(c, b)
    ensures a < c ==> Times(a, b) + b <= Times(c, b)
  {
    if a < c {
      TimesMonotone(a, c - 1, b);
    }
  }

  lemma {:induction false} ShrIsDivision(v: nat, i: nat)
    ensures Shr(v, i) == v / Pow2(i)
  {
    if i > 0 {
      ShrIsDivision(v, i - 1);
      DivDiv(v, Pow2(i - 1), 2);
    }
  }

  lemma {:induction false} LowIsRemainder(v: nat, k: nat)
    ensures v == Pow2(k) * Shr(v, k) + Low(v, k)
  {
    if k > 0 {
      ShrOfHalf(v, k - 1);
      LowIsRemainder(v / 2, k - 1);
      MulAssociative(2, Pow2(k - 1), Shr(v, k));
    }
  }

  lemma {:induction false} LowOfSmall(v: nat, k: nat)
    requires v < Pow2(k)
    ensures Low(v, k) == v
  {
    if k > 0 {
      LowOfSmall(v / 2, k - 1);
    }
  }

  lemma {:induction false} ShrOfHalf(v: nat, i: nat)
    ensures Shr(v / 2, i) == Shr(v, i + 1)
  {
    if i > 0 {
      ShrOfHalf(v, i - 1);
    }
  }

  /** A 32-bit value is its high part, shifted out and in again, plus its low bits. */
  lemma {:induction false} HighAndLow(v: u32, k: nat)
    ensures Shl(Shr(v, k), k) + Low(v, k) == v
  {
    if k > 0 {
      HighAndLow(v / 2, k - 1);
      ShrOfHalf(v, k - 1);
      SmallRemainder(2 * Shl(Shr(v, k), k - 1));
    } else {
      SmallRemainder(v);
    }
  }

  lemma SmallRemainder(v: int)
    ensures 0 <= v < TWO_32 ==> v % TWO_32 == v
    ensures 0 <= v < TWO_64 ==> v % TWO_64 == v
  {
  }

  /** The top bit of a value of i + 1 bits. */
  lemma {:induction false} TopBit(v: nat, i: nat)
    requires v < Pow2(i + 1)
    ensures Shr(v, i) == if v >= Pow2(i) then 1 else 0
  {
    if i > 0 {
      TopBit(v / 2, i - 1);
      ShrOfHalf(v, i - 1);
    }
  }

  lemma DivNonNegative(a: int, b: int)
    requires a >= 0 && b > 0
    ensures a / b >= 0
  {
  }

  lemma DivisionFacts(v: nat, m: nat)
    requires m > 0
    ensures v == m * (v / m) + v % m && 0 <= v % m < m && 0 <= v / m
  {
    DivNonNegative(v, m);
  }

  lemma DivDiv(v: nat, a: nat, b: nat)
    requires a > 0 && b > 0
    ensures a * b > 0 && v / (a * b) == v / a / b
  {
    MulMonotone(a, 1, b);
    var q, r := v / a, v % a;
    var t, u := q / b, q % b;
    MulMonotone(a, u, b - 1);
    Distribute(a, b * t, u);
    Distribute(a, b, -1);
    MulAssociative(a, b, t);
    DivUnique(v, a * b, t, a * u + r);
  }

  lemma MulMonotone(a: int, x: int, y: int)
    requires 0 <= a && x <= y
    ensures a * x <= a * y
  {
  }

  lemma Distribute(a: int, x: int, y: int)
    ensures a * (x + y) == a * x + a * y
  {
  }

  lemma MulAssociative(a: int, b: int, c: int)
    ensures a * b * c == a * (b * c)
  {
  }

  /** Division with remainder has one answer. */
  lemma DivUnique(v: int, d: int, q: int, r: int)
    requires d > 0 && v == d * q + r && 0 <= r < d
    ensures v / d == q && v % d == r
  {
    var q', r' := v / d, v % d;
    if q' < q {
      MulMonotone(d, q' + 1, q);
      Distribute(d, q', 1);
    } else if q < q' {
      MulMonotone(d, q + 1, q');
      Distribute(d, q, 1);
    }
  }

  /** The n low bytes of v, least significant first. */
  function Le(v: nat, n: nat): (s: seq<u8>)
    ensures |s| == n
  {
    if n == 0 then [] else [v % 0x100] + Le(v / 0x100, n - 1)
  }

  function FromLe(s: seq<u8>): nat {
    if s == [] then 0 else s[0] + 0x100 * FromLe(s[1..])
  }

  lemma {:induction false} FromLeOfLe(v: nat, n: nat)
    ensures FromLe(Le(v, n)) == v % Pow2(8 * n)
    ensures v < Pow2(8 * n) ==> FromLe(Le(v, n)) == v
  {
    if n > 0 {
      FromLeOfLe(v / 0x100, n - 1);
      Pow2Times256(n - 1);
      assert Le(v, n)[1..] == Le(v / 0x100, n - 1);
      ModByDigit(v, Pow2(8 * (n - 1)));
    }
    if v < Pow2(8 * n) {
      DivUnique(v, Pow2(8 * n), 0, v);
    }
  }

  lemma TwoBytes(v: nat)
    ensures FromLe(Le(v, 2)) == v % 0x1_0000
    ensures v < 0x1_0000 ==> FromLe(Le(v, 2)) == v
  {
    FromLeOfLe(v, 2);
    assert Pow2(16) == 0x1_0000 by { Pow2Square(8, 0x100); assert Pow2(8) == 0x100; }
  }

  lemma FourBytes(v: nat)
    requires v < TWO_32
    ensures FromLe(Le(v, 4)) == v
  {
    FromLeOfLe(v, 4);
    Pow2Constants();
  }

  lemma EightBytes(v: nat)
    requires v < TWO_64
    ensures FromLe(Le(v, 8)) == v
  {
    FromLeOfLe(v, 8);
    Pow2Constants();
  }

  lemma Pow2Times256(n: nat)
    ensures Pow2(8 * (n + 1)) == 0x100 * Pow2(8 * n)
  {
    Pow2Add(8, 8 * n);
    assert Pow2(8) == 0x100;
  }

  lemma ModByDigit(v: nat, m: nat)
    requires m > 0
    ensures v % (0x100 * m) == v % 0x100 + 0x100 * (v / 0x100 % m)
  {
    var q, r := v / 0x100 / m, v / 0x100 % m;
    MulAssociative(0x100, m, q);
    DivUnique(v, 0x100 * m, q, 0x100 * r + v % 0x100);
  }

  lemma {:induction false} FromLeBound(s: seq<u8>)
    ensures FromLe(s) < Pow2(8 * |s|)
  {
    if s != [] {
      FromLeBound(s[1..]);
      Pow2Add(8, 8 * (|s| - 1));
      assert Pow2(8) == 0x100;
      assert 0x100 * Pow2(8 * (|s| - 1)) >= 0x100 * (FromLe(s[1..]) + 1);
    }
  }

  function Reversed(s: seq<u8>): (r: seq<u8>)
    ensures |r| == |s|
  {
    if s == [] then [] else Reversed(s[1..]) + [s[0]]
  }

  lemma {:induction false} ReversedTwice(s: seq<u8>)
    ensures Reversed(Reversed(s)) == s
  {
    if s != [] {
      ReversedTwice(s[1..]);
      ReversedAppend(Reversed(s[1..]), s[0]);
    }
  }

  lemma {:induction false} ReversedAppend(s: seq<u8>, x: u8)
    ensures Reversed(s + [x]) == [x] + Reversed(s)
  {
    if s == [] {
      assert (s + [x])[1..] == [];
    } else {
      assert (s + [x])[1..] == s[1..] + [x];
      ReversedAppend(s[1..], x);
    }
  }

  lemma {:induction false} LeOfFromLe(s: seq<u8>)
    ensures Le(FromLe(s), |s|) == s
  {
    if s != [] {
      LeOfFromLe(s[1..]);
      DivUnique(FromLe(s), 0x100, FromLe(s[1..]), s[0]);
    }
  }

  function Align8(n: nat): (a: nat)
    ensures a >= n && a % 8 == 0 && a < n + 8
  {
    (n + 7) / 8 * 8
  }

  function Zeroed(n: nat): (z: seq<u8>)
    ensures |z| == n
  {
    seq(n, _ => 0)
  }
}
