/** MSB-first bit strings, and the bit reader and writer of the szip codec. */
module Bits {
  import opened Wrappers
  import opened Bytes

  datatype SzipError =
    | Truncated | TruncatedFs | UnterminatedFs | BadGamma
    | MissingParameters | InvalidParameters | RawUnsupported

  type Parse<T> = Result<(T, seq<bool>), SzipError>

  /** The longest fundamental sequence the reader accepts. */
  const MAX_FS: nat := 0x1000_0000

  /** The n low bits of v, most significant first. */
  function ToBits(v: nat, n: nat): (s: seq<bool>)
    ensures |s| == n
  {
    if n == 0 then [] else ToBits(v / 2, n - 1) + [v % 2 == 1]
  }

  function FromBits(s: seq<bool>): nat {
    if s == [] then 0 else 2 * FromBits(s[..|s| - 1]) + (if s[|s| - 1] then 1 else 0)
  }

  function Zeros(n: nat): (s: seq<bool>)
    ensures |s| == n && forall i :: 0 <= i < n ==> !s[i]
  {
    seq(n, _ => false)
  }

  /** The fundamental sequence of v: v zeros, then a one. */
  function Unary(v: nat): (s: seq<bool>)
    ensures |s| == v + 1
  {
    Zeros(v) + [true]
  }

  function Unpack(s: seq<u8>): (b: seq<bool>)
    ensures |b| == 8 * |s|
  {
    if s == [] then [] else Unpack(s[..|s| - 1]) + ToBits(s[|s| - 1], 8)
  }

  lemma {:induction false} FromToBits(v: nat, n: nat)
    requires v < Pow2(n)
    ensures FromBits(ToBits(v, n)) == v
  {
    if n > 0 {
      FromToBits(v / 2, n - 1);
      assert ToBits(v, n)[..n - 1] == ToBits(v / 2, n - 1);
    }
  }

  lemma {:induction false} FromBitsBound(s: seq<bool>)
    ensures FromBits(s) < Pow2(|s|)
  {
    if s != [] {
      FromBitsBound(s[..|s| - 1]);
    }
  }

  lemma {:induction false} ToBitsAt(v: nat, n: nat, i: nat)
    requires i < n
    ensures ToBits(v, n)[i] == (Shr(v, n - 1 - i) % 2 == 1)
  {
    if i < n - 1 {
      ToBitsAt(v / 2, n - 1, i);
      ShrOfHalf(v, n - 2 - i);
    }
  }

  lemma {:induction false} UnpackAt(s: seq<u8>, p: nat)
    requires p < 8 * |s|
    ensures Unpack(s)[p] == (Shr(s[p / 8], 7 - p % 8) % 2 == 1)
  {
    var last := |s| - 1;
    if p < 8 * last {
      UnpackAt(s[..last], p);
    } else {
      ToBitsAt(s[last], 8, p - 8 * last);
    }
  }

  /** Shifting in zeros on the right pads the bit string with zeros. */
  lemma {:induction false} ToBitsShifted(v: nat, n: nat, pad: nat)
    ensures ToBits(v * Pow2(pad), n + pad) == ToBits(v, n) + Zeros(pad)
  {
    if pad > 0 {
      ToBitsShifted(v, n, pad - 1);
      MulAssociative(v, Pow2(pad - 1), 2);
      assert v * Pow2(pad) == (v * Pow2(pad - 1)) * 2;
      assert Zeros(pad) == Zeros(pad - 1) + [false];
    }
  }

  // ----- specification parsers: each takes the remaining bits

  function ReadBits(s: seq<bool>, n: nat): (r: Parse<nat>)
    ensures r.Success? ==> |r.value.1| == |s| - n && r.value.0 < Pow2(n)
  {
    if |s| < n then Failure(Truncated) else
      FromBitsBound(s[..n]);
      Success((FromBits(s[..n]), s[n..]))
  }

  /** `zeros` is the number of zero bits already seen. */
  function ReadUnary(s: seq<bool>, zeros: nat): (r: Parse<nat>)
    ensures r.Success? ==> |r.value.1| < |s|
  {
    if s == [] then Failure(TruncatedFs)
    else if s[0] then Success((zeros, s[1..]))
    else if zeros + 1 > MAX_FS then Failure(UnterminatedFs)
    else ReadUnary(s[1..], zeros + 1)
  }

  lemma ReadBitsOfToBits(v: nat, n: nat, rest: seq<bool>)
    requires v < Pow2(n)
    ensures ReadBits(ToBits(v, n) + rest, n) == Success((v, rest))
  {
    FromToBits(v, n);
    assert (ToBits(v, n) + rest)[..n] == ToBits(v, n);
    assert (ToBits(v, n) + rest)[n..] == rest;
  }

  lemma {:induction false} ReadUnaryOfUnary(v: nat, seen: nat, rest: seq<bool>)
    requires seen + v <= MAX_FS
    ensures ReadUnary(Unary(v) + rest, seen) == Success((seen + v, rest))
  {
    var s := Unary(v) + rest;
    if v > 0 {
      assert s[1..] == Unary(v - 1) + rest;
      ReadUnaryOfUnary(v - 1, seen + 1, rest);
    } else {
      assert s[1..] == rest;
    }
  }

  /** A run of zeros holds no complete fundamental sequence. */
  lemma {:induction false} ReadUnaryOfZeros(n: nat, seen: nat)
    ensures ReadUnary(Zeros(n), seen).Failure?
  {
    if n > 0 && seen + 1 <= MAX_FS {
      assert Zeros(n)[1..] == Zeros(n - 1);
      ReadUnaryOfZeros(n - 1, seen + 1);
    }
  }

  // ----- the stateful reader and writer

  /** A reading step returned what the parser says, and left the bits the parser leaves. */
  ghost predicate Agrees<T>(r: Result<T, SzipError>, rest: seq<bool>, spec: Parse<T>) {
    match spec
    case Success(v) => r == Success(v.0) && rest == v.1
    case Failure(e) => r == Failure(e)
  }

  class BitReader {
    const data: seq<u8>
    var pos: nat // bit position

    ghost predicate Valid()
      reads this
    {
      pos <= 8 * |data|
    }

    /** The bits not read yet. */
    ghost function Rest(): seq<bool>
      reads this
      requires Valid()
    {
      Unpack(data)[pos..]
    }

    constructor (data: seq<u8>)
      ensures Valid() && this.data == data && Rest() == Unpack(data)
    {
      this.data := data;
      this.pos := 0;
    }

    method ReadBit() returns (bit: bool)
      requires Valid() && pos < 8 * |data|
      modifies this
      ensures Valid() && [bit] + Rest() == old(Rest())
    {
      UnpackAt(data, pos);
      bit := Shr(data[pos / 8], 7 - pos % 8) % 2 == 1;
      pos := pos + 1;
    }

    method Bits(n: nat) returns (r: Result<nat, SzipError>)
      requires Valid()
      modifies this
      ensures Valid()
      ensures Agrees(r, Rest(), ReadBits(old(Rest()), n))
    {
      var v: nat := 0;
      ghost var all := Rest();
      for i := 0 to n
        invariant Valid() && i <= |all| && Rest() == all[i..] && v == FromBits(all[..i])
      {
        if pos / 8 >= |data| {
          return Failure(Truncated);
        }
        var bit := ReadBit();
        assert all[..i + 1][..i] == all[..i];
        v := 2 * v + (if bit then 1 else 0);
      }
      return Success(v);
    }

    /** The number of zero bits before the next one bit. */
    method Fs() returns (r: Result<nat, SzipError>)
      requires Valid()
      modifies this
      ensures Valid()
      ensures Agrees(r, Rest(), ReadUnary(old(Rest()), 0))
    {
      var n: nat := 0;
      while true
        invariant Valid()
        invariant ReadUnary(old(Rest()), 0) == ReadUnary(Rest(), n)
        decreases 8 * |data| - pos
      {
        if pos / 8 >= |data| {
          return Failure(TruncatedFs);
        }
        ghost var before := Rest();
        var bit := ReadBit();
        assert before[1..] == Rest();
        if bit {
          return Success(n);
        }
        n := n + 1;
        if n > MAX_FS {
          return Failure(UnterminatedFs);
        }
      }
    }
  }

  class BitWriter {
    var out: seq<u8>
    var cur: nat
    var nbits: nat

    ghost predicate Valid()
      reads this
    {
      nbits < 8 && cur < Pow2(nbits)
    }

    /** Every bit written so far. */
    ghost function Contents(): seq<bool>
      reads this
    {
      Unpack(out) + ToBits(cur, nbits)
    }

    constructor ()
      ensures Valid() && Contents() == []
    {
      out, cur, nbits := [], 0, 0;
    }

    method PutBit(bit: nat)
      requires Valid() && bit < 2
      modifies this
      ensures Valid() && Contents() == old(Contents()) + [bit == 1]
    {
      cur := cur * 2 + bit;
      nbits := nbits + 1;
      assert ToBits(cur, nbits) == ToBits(old(cur), old(nbits)) + [bit == 1];
      if nbits == 8 {
        assert Pow2(8) == 0x100;
        out := out + [cur];
        cur, nbits := 0, 0;
        assert out[..|out| - 1] == old(out);
      }
    }

    method Put(v: nat, n: nat)
      requires Valid()
      modifies this
      ensures Valid() && Contents() == old(Contents()) + ToBits(v, n)
    {
      var i: nat := n;
      while i > 0
        invariant Valid() && i <= n
        invariant Contents() == old(Contents()) + ToBits(Shr(v, i), n - i)
      {
        i := i - 1;
        PutBit(Shr(v, i) % 2);
      }

    }

    method Fs(v: nat)
      requires Valid()
      modifies this
      ensures Valid() && Contents() == old(Contents()) + Unary(v)
    {
      for i := 0 to v
        invariant Valid() && Contents() == old(Contents()) + Zeros(i)
      {
        Put(0, 1);
        assert ToBits(0, 1) == [false];
      }
      Put(1, 1);
      assert ToBits(1, 1) == [true];
    }

    /** The last byte is padded with zero bits. */
    method Finish() returns (r: seq<u8>)
      requires Valid()
      ensures exists pad: nat :: pad < 8 && Unpack(r) == Contents() + Zeros(pad)
    {
      r := out;
      ghost var pad := 0;
      if nbits > 0 {
        pad := 8 - nbits;
        ToBitsShifted(cur, nbits, 8 - nbits);
        ShiftedFits(cur, nbits);
        r := out + [cur * Pow2(8 - nbits)];
        assert r[..|r| - 1] == out;
      }
      assert Unpack(r) == Contents() + Zeros(pad);
    }
  }

  lemma ShiftedFits(v: nat, n: nat)
    requires n <= 8 && v < Pow2(n)
    ensures v * Pow2(8 - n) < 0x100
  {
    Pow2Add(n, 8 - n);
    assert Pow2(8) == 0x100;
    MulMonotone(Pow2(8 - n), v, Pow2(n) - 1);
    Distribute(Pow2(8 - n), Pow2(n), -1);
  }
}
