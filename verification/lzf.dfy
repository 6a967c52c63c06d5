/** The LZF filter: every input survives compression, which adds at most one byte per 32. */
module Lzf {
  import opened Wrappers
  import opened Bytes
  import opened Lz
  import Seqs

  datatype LzfError = TruncatedLiterals | TruncatedLength | TruncatedOffset | ReferenceBeforeStart

  const MAX_OFF: nat := 0x2000
  const MAX_REF: nat := 264

  /** Decodes stream `s` behind the bytes `out` already restored. */
  function Decode(s: seq<u8>, out: seq<u8>): Result<seq<u8>, LzfError>
    decreases |s|
  {
    if s == [] then Success(out)
    else if s[0] < 32 then
      if |s| < s[0] + 2 then Failure(TruncatedLiterals)
      else Decode(s[s[0] + 2..], out + s[1..s[0] + 2])
    else if s[0] / 32 == 7 then
      if |s| < 2 then Failure(TruncatedLength)
      else DecodeReference(s[2..], s[1] as int + 9, s[0] % 32, out)
    else DecodeReference(s[1..], s[0] / 32 + 2, s[0] % 32, out)
  }

  function DecodeReference(s: seq<u8>, len: nat, high: nat, out: seq<u8>): Result<seq<u8>, LzfError>
    decreases |s|
  {
    if s == [] then Failure(TruncatedOffset)
    else if high * 0x100 + s[0] + 1 > |out| then Failure(ReferenceBeforeStart)
    else Decode(s[1..], CopyBack(out, high * 0x100 + s[0] + 1, len))
  }

  /** A stream followed by another decodes as the second, behind what the first restores. */
  lemma {:induction false} DecodeAppend(a: seq<u8>, b: seq<u8>, out: seq<u8>)
    requires Decode(a, out).Success?
    ensures Decode(a + b, out) == Decode(b, Decode(a, out).value)
    decreases |a|
  {
    hide DecodeReference;
    if a == [] {
      Seqs.Empty(b);
    } else if a[0] < 32 {
      var n := a[0] + 2;
      Seqs.DropInto(a, b, n);
      Seqs.SliceInto(a, b, 1, n);
      DecodeAppend(a[n..], b, out + a[1..n]);
    } else if a[0] / 32 == 7 {
      Seqs.DropInto(a, b, 2);
      DecodeReferenceAppend(a[2..], b, a[1] as int + 9, a[0] % 32, out);
    } else {
      Seqs.DropInto(a, b, 1);
      DecodeReferenceAppend(a[1..], b, a[0] / 32 + 2, a[0] % 32, out);
    }
  }

  lemma {:induction false} DecodeReferenceAppend(a: seq<u8>, b: seq<u8>, len: nat, high: nat, out: seq<u8>)
    requires DecodeReference(a, len, high, out).Success?
    ensures DecodeReference(a + b, len, high, out) == Decode(b, DecodeReference(a, len, high, out).value)
    decreases |a|
  {
    hide Decode, CopyBack;
    Seqs.DropInto(a, b, 1);
    DecodeAppend(a[1..], b, CopyBack(out, high * 0x100 + a[0] + 1, len));
  }

  lemma {:induction false} DecodeLiterals(s: seq<u8>, out: seq<u8>)
    ensures Decode(LiteralRuns(s), out) == Success(out + s)
    decreases |s|
  {
    if s == [] {
      Seqs.Empty(out);
    } else {
      var run := Min(|s|, MAX_LITERALS);
      var code, more := LiteralRuns(s), LiteralRuns(s[run..]);
      Seqs.DropAppended([run - 1] + s[..run], more);
      Seqs.SliceInto([run - 1] + s[..run], more, 1, run + 1);
      Seqs.DropAppended([run - 1 as u8], s[..run]);
      DecodeLiterals(s[run..], out + s[..run]);
      Seqs.MovePrefix(out, s, run);
    }
  }

  /** The two- or three-byte reference to `len` bytes at distance off + 1. */
  function Reference(off: nat, len: nat): (t: seq<u8>)
    requires off < MAX_OFF && 3 <= len <= MAX_REF
    ensures |t| == if len < 9 then 2 else 3
  {
    ReferenceBytes(off / 0x100, off % 0x100, len)
  }

  function ReferenceBytes(high: nat, low: u8, len: nat): (t: seq<u8>)
    requires high < 32 && 3 <= len <= MAX_REF
    ensures |t| == if len < 9 then 2 else 3
  {
    if len - 2 < 7 then [high + (len - 2) * 32, low] else [high + 7 * 32, len - 9, low]
  }

  lemma DecodeOfReference(off: nat, len: nat, out: seq<u8>)
    requires off < MAX_OFF && 3 <= len <= MAX_REF && off < |out|
    ensures Decode(Reference(off, len), out) == Success(CopyBack(out, off + 1, len))
  {
    hide CopyBack, Decode, ReferenceBytes, DecodeReference;
    DecodeOfBytes(off / 0x100, off % 0x100, len, out);
  }

  lemma DecodeOfBytes(high: nat, low: u8, len: nat, out: seq<u8>)
    requires high < 32 && 3 <= len <= MAX_REF && high * 0x100 + low < |out|
    ensures Decode(ReferenceBytes(high, low, len), out) == Success(CopyBack(out, high * 0x100 + low + 1, len))
  {
    hide CopyBack, Decode, DecodeReference;
    DecodeLowByte(low, high, len, out);
    DecodeControl(ReferenceBytes(high, low, len), high, Min(len - 2, 7), out);
  }

  lemma DecodeControl(t: seq<u8>, high: nat, top: nat, out: seq<u8>)
    requires 0 < top <= 7 && high < 32 && |t| == (if top == 7 then 3 else 2) && t[0] == high + top * 32
    ensures top == 7 ==> Decode(t, out) == DecodeReference([t[2]], t[1] as int + 9, high, out)
    ensures top < 7 ==> Decode(t, out) == DecodeReference([t[1]], top + 2, high, out)
  {
    hide DecodeReference;
    assert t[0] / 32 == top && t[0] % 32 == high;
    if top == 7 {
      assert t[2..] == [t[2]];
    } else {
      assert t[1..] == [t[1]];
    }
  }

  lemma DecodeLowByte(low: u8, high: nat, len: nat, out: seq<u8>)
    requires high * 0x100 + low < |out|
    ensures DecodeReference([low], len, high, out) == Success(CopyBack(out, high * 0x100 + low + 1, len))
  {
    assert [low][1..] == [];
  }

  /** The bytes a literal run needs besides its literals, summed over the stream so far. */
  function Allowance(n: nat): nat {
    CeilDiv(n, MAX_LITERALS)
  }

  /** What the compressor has emitted restores the input up to `done`, and after the first
      reference a byte of the allowance is still unspent. */
  ghost predicate Emitted(out: seq<u8>, input: seq<u8>, done: nat) {
    && done <= |input|
    && Decode(out, []) == Success(input[..done])
    && |out| <= done + Allowance(done)
    && (done > 0 ==> |out| < done + Allowance(done))
  }

  /** Literals up to `pos`, then a reference for `len` bytes. */
  lemma EmitReference(out: seq<u8>, input: seq<u8>, done: nat, pos: nat, cand: nat, len: nat)
    requires Emitted(out, input, done) && done <= pos && pos + len <= |input|
    requires cand < pos && pos - cand <= MAX_OFF && 3 <= len <= MAX_REF && Repeats(input, cand, pos, len)
    ensures Emitted(out + LiteralRuns(input[done..pos]) + Reference(pos - cand - 1, len), input, pos + len)
  {
    hide Decode, LiteralRuns, Reference, CopyBack, Repeats;
    EmitTail(out, input, done, pos);
    DecodeOfReference(pos - cand - 1, len, input[..pos]);
    DecodeAppend(out + LiteralRuns(input[done..pos]), Reference(pos - cand - 1, len), []);
    CopyOfRepetition(input, cand, pos, len);
  }

  lemma EmitTail(out: seq<u8>, input: seq<u8>, done: nat, pos: nat)
    requires Emitted(out, input, done) && done <= pos <= |input|
    ensures Decode(out + LiteralRuns(input[done..pos]), []) == Success(input[..pos])
    ensures |out + LiteralRuns(input[done..pos])| <= pos + Allowance(pos)
  {
    DecodeAppend(out, LiteralRuns(input[done..pos]), []);
    DecodeLiterals(input[done..pos], input[..done]);
    Seqs.JoinSlices(input, done, pos);
  }

  method Compress(input: seq<u8>) returns (out: seq<u8>)
    ensures Decode(out, []) == Success(input)
    ensures |out| <= |input| + CeilDiv(|input|, 32)
  {
    Seqs.TakeAll(input[..0], 0);
    assert Emitted([], input, 0);
    hide CeilDiv, Emitted, Decode, LiteralRuns, Reference, Hash, Repeats, SameTriple, Below;
    var n := |input|;
    var table := NewTable();
    var litStart, pos := 0, 0;
    out := [];
    while pos + 2 < n
      invariant 0 <= litStart <= pos <= n && Emitted(out, input, litStart)
      invariant Below(table[..], pos)
    {
      var slot := Probe(table, input, pos);
      if slot.Some? && pos - slot.value <= MAX_OFF && SameTriple(input, slot.value, pos) {
        var cand := slot.value;
        TripleRepeats(input, cand, pos);
        var len := ExtendMatch(input, cand, pos, Min(n - pos, MAX_REF));
        EmitReference(out, input, litStart, pos, cand, len);
        out := EmitLiterals(out, input, litStart, pos);
        out := out + Reference(pos - cand - 1, len);
        BelowLater(table[..], pos + 1, pos + len);
        pos := pos + len;
        litStart := pos;
      } else {
        pos := pos + 1;
      }
    }
    EmitTail(out, input, litStart, n);
    Seqs.TakeAll(input, n);
    out := EmitLiterals(out, input, litStart, n);
  }

  /** One reference, after its control byte and length have been read. */
  method ReadReference(input: seq<u8>, i: nat, len: nat, high: nat, out: seq<u8>)
    returns (r: Result<seq<u8>, LzfError>)
    requires i <= |input|
    ensures r.Failure? ==> DecodeReference(input[i..], len, high, out) == Failure(r.error)
    ensures r.Success? ==> i < |input| && DecodeReference(input[i..], len, high, out) == Decode(input[i + 1..], r.value)
  {
    if i >= |input| {
      return Failure(TruncatedOffset);
    }
    var off := high * 0x100 + input[i];
    if off + 1 > |out| {
      return Failure(ReferenceBeforeStart);
    }
    Seqs.SliceOfDrop(input, i, 1);
    var copied := CopyLoop(out, off + 1, len);
    return Success(copied);
  }

  /** What the decoder does at position i, by the control byte found there. */
  lemma ControlByte(input: seq<u8>, i: nat, out: seq<u8>)
    requires i < |input|
    ensures var c: int := input[i];
            Decode(input[i..], out) ==
              if c < 32 then
                if i + c + 2 > |input| then Failure(TruncatedLiterals)
                else Decode(input[i + c + 2..], out + input[i + 1..i + c + 2])
              else if c / 32 == 7 then
                if i + 1 >= |input| then Failure(TruncatedLength)
                else DecodeReference(input[i + 2..], input[i + 1] as int + 9, c % 32, out)
              else DecodeReference(input[i + 1..], c / 32 + 2, c % 32, out)
  {
    hide DecodeReference;
    var c: int := input[i];
    if c < 32 {
      if i + c + 2 <= |input| {
        Seqs.SliceOfDrop(input, i, c + 2);
        Seqs.SliceSlice(input, i, 1, c + 2);
      }
    } else if c / 32 == 7 {
      if i + 1 < |input| {
        Seqs.SliceOfDrop(input, i, 2);
      }
    } else {
      Seqs.SliceOfDrop(input, i, 1);
    }
  }

  method Decompress(input: seq<u8>) returns (r: Result<seq<u8>, LzfError>)
    ensures r == Decode(input, [])
  {
    hide DecodeReference, Decode;
    var out := [];
    var i := 0;
    while i < |input|
      invariant 0 <= i <= |input|
      invariant Decode(input[i..], out) == Decode(input, [])
    {
      ControlByte(input, i, out);
      var ctrl: int := input[i];
      if ctrl < 32 {
        if i + ctrl + 2 > |input| {
          return Failure(TruncatedLiterals);
        }
        out := out + input[i + 1..i + ctrl + 2];
        i := i + ctrl + 2;
      } else {
        var len, size := ctrl / 32, 1;
        if len == 7 {
          if i + 1 >= |input| {
            return Failure(TruncatedLength);
          }
          len := len + input[i + 1] as int;
          size := 2;
        }
        var copied := ReadReference(input, i + size, len + 2, ctrl % 32, out);
        if copied.Failure? {
          return copied;
        }
        out := copied.value;
        i := i + size + 1;
      }
    }
    DecodeNothing(input[i..], out);
    return Success(out);
  }

  lemma DecodeNothing(s: seq<u8>, out: seq<u8>)
    requires s == []
    ensures Decode(s, out) == Success(out)
  {
  }

  // ----- streams of any compressor

  /** Bytes as they are, or `len` bytes again from `distance` bytes before. */
  datatype Token = Literals(bytes: seq<u8>) | Match(distance: nat, len: nat)

  function PrintToken(t: Token): seq<u8>
    requires t.Match? ==> 1 <= t.distance <= 0x2000 && 3 <= t.len <= 264
    requires t.Literals? ==> 1 <= |t.bytes| <= 32
  {
    match t
    case Literals(bytes) => [|bytes| - 1] + bytes
    case Match(distance, len) =>
      var high, low := (distance - 1) / 0x100, (distance - 1) % 0x100;
      if len <= 8 then [(len - 2) * 32 + high, low] else [7 * 32 + high, len - 9, low]
  }

  /** Matches begin within what is restored. */
  predicate TokensFit(tokens: seq<Token>, restored: nat) {
    tokens != [] ==>
      match tokens[0]
      case Literals(bytes) => 1 <= |bytes| <= 32 && TokensFit(tokens[1..], restored + |bytes|)
      case Match(distance, len) =>
        1 <= distance <= 0x2000 && distance <= restored && 3 <= len <= 264 && TokensFit(tokens[1..], restored + len)
  }

  function PrintTokens(tokens: seq<Token>, restored: nat): seq<u8>
    requires TokensFit(tokens, restored)
  {
    if tokens == [] then []
    else PrintToken(tokens[0])
         + PrintTokens(tokens[1..], restored + if tokens[0].Literals? then |tokens[0].bytes| else tokens[0].len)
  }

  function Restored(tokens: seq<Token>, out: seq<u8>): seq<u8>
    requires TokensFit(tokens, |out|)
  {
    if tokens == [] then out
    else match tokens[0]
      case Literals(bytes) => Restored(tokens[1..], out + bytes)
      case Match(distance, len) => Restored(tokens[1..], CopyBack(out, distance, len))
  }

  lemma DecodeOfLiterals(bytes: seq<u8>, out: seq<u8>)
    requires 1 <= |bytes| <= 32
    ensures Decode([|bytes| - 1] + bytes, out) == Success(out + bytes)
  {
    hide DecodeReference;
    var s: seq<u8> := [|bytes| - 1] + bytes;
    assert s[1..|bytes| + 1] == bytes && s[|bytes| + 1..] == [];
    DecodeNothing([], out + bytes);
  }

  lemma DecodeOfToken(t: Token, out: seq<u8>)
    requires t.Match? ==> 1 <= t.distance <= 0x2000 && t.distance <= |out| && 3 <= t.len <= 264
    requires t.Literals? ==> 1 <= |t.bytes| <= 32
    ensures t.Literals? ==> Decode(PrintToken(t), out) == Success(out + t.bytes)
    ensures t.Match? ==> Decode(PrintToken(t), out) == Success(CopyBack(out, t.distance, t.len))
  {
    hide CopyBack, Decode;
    match t {
      case Literals(bytes) => DecodeOfLiterals(bytes, out);
      case Match(distance, len) => DecodeOfReference(distance - 1, len, out);
    }
  }

  /** Whatever compressor made it: a stream restores what its tokens say. */
  lemma {:induction false} AnyStreamDecodes(tokens: seq<Token>, out: seq<u8>)
    requires TokensFit(tokens, |out|)
    ensures Decode(PrintTokens(tokens, |out|), out) == Success(Restored(tokens, out))
    decreases |tokens|
  {
    hide Decode, PrintToken, CopyBack;
    if tokens == [] {
      DecodeNothing([], out);
    } else {
      var t := tokens[0];
      var out' := if t.Literals? then out + t.bytes else CopyBack(out, t.distance, t.len);
      DecodeOfToken(t, out);
      AnyStreamDecodes(tokens[1..], out');
      DecodeAppend(PrintToken(t), PrintTokens(tokens[1..], |out'|), out);
    }
  }
}
