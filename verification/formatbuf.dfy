/** The byte writer and the byte reader under every part of the format. */
module FormatBuf {
  import opened Wrappers
  import opened Bytes
  import Seqs

  /** What reading can fail with: the end of the bytes, or a datatype message that makes no sense. */
  datatype FormatError = Eof | BadSize | BadEnumBase | BadClass

  /** The n-byte number at a position. */
  function UintAt(data: seq<u8>, pos: nat, n: nat): Result<nat, FormatError> {
    if pos + n > |data| then Failure(Eof) else Success(FromLe(data[pos..pos + n]))
  }

  /** A growing buffer; integers are written in little-endian order. */
  class Buf {
    var bytes: seq<u8>

    constructor ()
      ensures bytes == []
    {
      bytes := [];
    }

    /** One, two, four or eight bytes of v; what does not fit is cut off. */
    method Put(v: nat, width: nat)
      modifies this
      ensures bytes == old(bytes) + Le(v, width)
    {
      bytes := bytes + Le(v, width);
    }

    method Raw(s: seq<u8>)
      modifies this
      ensures bytes == old(bytes) + s
    {
      bytes := bytes + s;
    }

    method Zeros(n: nat)
      modifies this
      ensures bytes == old(bytes) + Zeroed(n)
    {
      bytes := bytes + Zeroed(n);
    }

    method Pad8()
      modifies this
      ensures |bytes| == Align8(|old(bytes)|) && bytes == old(bytes) + Zeroed(|bytes| - |old(bytes)|)
    {
      bytes := bytes + Zeroed(Align8(|bytes|) - |bytes|);
    }

    /** Overwrites a field that was reserved before. */
    method Patch(at: nat, v: nat, width: nat)
      requires at + width <= |bytes|
      modifies this
      ensures |bytes| == |old(bytes)| && bytes[at..at + width] == Le(v, width)
      ensures bytes[..at] == old(bytes)[..at] && bytes[at + width..] == old(bytes)[at + width..]
    {
      bytes := bytes[..at] + Le(v, width) + bytes[at + width..];
    }
  }

  /** A position in a buffer; skipping may leave it behind the end. */
  class Cursor {
    const data: seq<u8>
    var pos: nat

    constructor (data: seq<u8>, pos: nat)
      ensures this.data == data && this.pos == pos
    {
      this.data, this.pos := data, pos;
    }

    method Take(n: nat) returns (r: Result<seq<u8>, FormatError>)
      modifies this
      ensures old(pos) + n > |data| ==> r == Failure(Eof) && pos == old(pos)
      ensures old(pos) + n <= |data| ==> r == Success(data[old(pos)..old(pos) + n]) && pos == old(pos) + n
    {
      if pos + n > |data| {
        return Failure(Eof);
      }
      r := Success(data[pos..pos + n]);
      pos := pos + n;
    }

    method Uint(n: nat) returns (r: Result<nat, FormatError>)
      modifies this
      ensures r == UintAt(data, old(pos), n)
      ensures pos == if r.Success? then old(pos) + n else old(pos)
    {
      var s := Take(n);
      r := if s.Failure? then Failure(s.error) else Success(FromLe(s.value));
    }

    method Byte() returns (r: Result<u8, FormatError>)
      modifies this
      ensures old(pos) >= |data| ==> r == Failure(Eof) && pos == old(pos)
      ensures old(pos) < |data| ==> r == Success(data[old(pos)]) && pos == old(pos) + 1
    {
      if pos >= |data| {
        return Failure(Eof);
      }
      r := Success(data[pos]);
      pos := pos + 1;
    }

    method Skip(n: nat)
      modifies this
      ensures pos == old(pos) + n
    {
      pos := pos + n;
    }
  }
}
