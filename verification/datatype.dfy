/** Datatype messages: how a type descriptor is written, and how any bytes are read. */
module Datatype {
  import opened Wrappers
  import opened Bytes
  import opened FormatBuf
  import Seqs

  datatype Member = Member(name: seq<u8>, value: nat)

  datatype Field = Field(name: seq<u8>, ty: Type, offset: nat, index: nat)

  /** Names are UTF-8 bytes; sizes are in bytes. */
  datatype Type = Integer(size: nat) | Unsigned(size: nat) | Float(size: nat) | Boolean
                | Enum(size: nat, signed: bool, members: seq<Member>)
                | Compound(size: nat, fields: seq<Field>)
                | FixedArray(base: Type, n: nat) | FixedAscii(n: nat) | FixedUnicode(n: nat)
                | VarLenArray(base: Type) | VarLenAscii | VarLenUnicode

  /** Which parts of a value are stored big-endian. */
  datatype OrderTree = NoOrder | SwapLeaf(size: nat) | CompoundOrder(parts: seq<(nat, OrderTree)>)
                     | ArrayOrder(n: nat, stride: nat, inner: OrderTree) | VarLenOrder(stride: nat, inner: OrderTree)

  datatype Decoded = Decoded(ty: Type, order: OrderTree, pos: nat)

  const INT: u8 := 0
  const FLOAT: u8 := 1
  const STRING: u8 := 3
  const BITFIELD: u8 := 4
  const OPAQUE: u8 := 5
  const COMPOUND: u8 := 6
  const REFERENCE: u8 := 7
  const ENUM: u8 := 8
  const VLEN: u8 := 9
  const ARRAY: u8 := 10

  // ----- writing

  /** Version and class, three bytes of class bits, and the size. */
  function Head(version: u8, class_: u8, bits: nat, size: nat): (h: seq<u8>)
    requires version <= 3 && class_ <= 10
    ensures |h| == 8
  {
    [version * 16 + class_] + Le(bits, 3) + Le(size, 4)
  }

  function EncodeInt(size: nat, signed: bool): seq<u8> {
    Head(1, INT, if signed then 8 else 0, size) + (Le(0, 2) + Le(size * 8, 2))
  }

  /** Precision, exponent position and size, mantissa size, bias. */
  function FloatFields(size: nat): (s: seq<u8>)
    ensures |s| == 12
  {
    if size == 4 then Le(0, 2) + Le(32, 2) + [23, 8, 0, 23] + Le(127, 4) else Le(0, 2) + Le(64, 2) + [52, 11, 0, 52] + Le(1023, 4)
  }

  /** The sign sits at the top. */
  function EncodeFloat(size: nat): seq<u8> {
    if size == 4 then Head(1, FLOAT, 0x20 + 31 * 0x100, 4) + FloatFields(4) else Head(1, FLOAT, 0x20 + 63 * 0x100, 8) + FloatFields(8)
  }

  /** A name with its terminator, padded to a multiple of 8. */
  function PaddedName(name: seq<u8>): (s: seq<u8>)
    ensures |s| == Align8(|name| + 1)
  {
    name + ([0] + Zeroed(Align8(|name| + 1) - (|name| + 1)))
  }

  function EncodeNames(members: seq<Member>): seq<u8> {
    if members == [] then [] else PaddedName(members[0].name) + EncodeNames(members[1..])
  }

  function EncodeValues(members: seq<Member>, size: nat): seq<u8> {
    if members == [] then [] else Le(members[0].value, size) + EncodeValues(members[1..], size)
  }

  function EncodeEnum(size: nat, signed: bool, members: seq<Member>): seq<u8> {
    Head(1, ENUM, |members| % 0x1_0000, size) + (EncodeInt(size, signed) + (EncodeNames(members) + EncodeValues(members, size)))
  }

  const FALSE_NAME: seq<u8> := [0x46, 0x41, 0x4C, 0x53, 0x45]
  const TRUE_NAME: seq<u8> := [0x54, 0x52, 0x55, 0x45]
  const BOOL_MEMBERS: seq<Member> := [Member(FALSE_NAME, 0), Member(TRUE_NAME, 1)]

  function DiskSize(t: Type): nat {
    match t
    case Integer(n) => n
    case Unsigned(n) => n
    case Float(n) => n
    case Boolean => 1
    case Enum(n, _, _) => n
    case Compound(n, _) => n
    case FixedArray(base, n) => Times(DiskSize(base), n)
    case FixedAscii(n) => n
    case FixedUnicode(n) => n
    case VarLenArray(_) => 16
    case VarLenAscii => 16
    case VarLenUnicode => 16
  }

  /** Fields in the order of their indices; fields with the same index keep their order. */
  function Insert(p: (nat, seq<u8>), sorted: seq<(nat, seq<u8>)>): seq<(nat, seq<u8>)> {
    if sorted == [] || p.0 <= sorted[0].0 then [p] + sorted else [sorted[0]] + Insert(p, sorted[1..])
  }

  function SortByIndex(parts: seq<(nat, seq<u8>)>): seq<(nat, seq<u8>)> {
    if parts == [] then [] else Insert(parts[0], SortByIndex(parts[1..]))
  }

  function Joined(parts: seq<(nat, seq<u8>)>): seq<u8> {
    if parts == [] then [] else parts[0].1 + Joined(parts[1..])
  }

  /** A field: name, offset, the room of the old array description, and its type. */
  function EncodeField(name: seq<u8>, offset: nat, ty: seq<u8>): seq<u8> {
    PaddedName(name) + (Le(offset, 4) + (Zeroed(28) + ty))
  }

  function EncodeFields(fields: seq<Field>): (parts: seq<(nat, seq<u8>)>)
    ensures |parts| == |fields|
    decreases fields
  {
    if fields == [] then []
    else [(fields[0].index, EncodeField(fields[0].name, fields[0].offset, Encode(fields[0].ty)))] + EncodeFields(fields[1..])
  }

  function Encode(t: Type): seq<u8>
    decreases t
  {
    match t
    case Integer(size) => EncodeInt(size, true)
    case Unsigned(size) => EncodeInt(size, false)
    case Float(size) => EncodeFloat(size)
    case Boolean => EncodeEnum(1, true, BOOL_MEMBERS)
    case Enum(size, signed, members) => EncodeEnum(size, signed, members)
    case Compound(size, fields) =>
      Head(1, COMPOUND, |fields| % 0x1_0000, size) + Joined(SortByIndex(EncodeFields(fields)))
    case FixedArray(base, n) =>
      Head(2, ARRAY, 0, Times(DiskSize(base), n)) + ([1, 0, 0, 0] + Le(n, 4) + Le(0, 4) + Encode(base))
    case FixedAscii(n) => Head(1, STRING, 0x01, n)
    case FixedUnicode(n) => Head(1, STRING, 0x11, n)
    case VarLenArray(base) => Head(1, VLEN, 0, 16) + Encode(base)
    case VarLenAscii => Head(1, VLEN, 0x0001, 16) + EncodeInt(1, false)
    case VarLenUnicode => Head(1, VLEN, 0x0101, 16) + EncodeInt(1, false)
  }

  // ----- reading

  /** What is left of the data; positions may lie behind its end. */
  function Left(data: seq<u8>, pos: nat): (n: nat)
    ensures pos < |data| ==> n == |data| - pos
    ensures pos >= |data| ==> n == 0
  {
    if pos < |data| then |data| - pos else 0
  }

  /** Bytes up to a NUL, and the position behind it. */
  function ReadName(data: seq<u8>, pos: nat): (r: Result<(seq<u8>, nat), FormatError>)
    ensures r.Success? ==> pos < r.value.1 <= |data| && |r.value.0| == r.value.1 - pos - 1
    decreases Left(data, pos)
  {
    if pos >= |data| then Failure(Eof)
    else if data[pos] == 0 then Success(([], pos + 1))
    else match ReadName(data, pos + 1)
      case Failure(e) => Failure(e)
      case Success((rest, next)) => Success(([data[pos]] + rest, next))
  }

  /** Versions before 3 pad names to a multiple of 8. */
  function ReadPadded(data: seq<u8>, pos: nat, version: nat): (r: Result<(seq<u8>, nat), FormatError>)
    ensures r.Success? ==> pos < |data| && pos < r.value.1
  {
    match ReadName(data, pos)
    case Failure(e) => Failure(e)
    case Success((name, next)) => Success((name, if version < 3 then pos + Align8(next - pos) else next))
  }

  function ReadNames(data: seq<u8>, pos: nat, n: nat, version: nat): (r: Result<(seq<seq<u8>>, nat), FormatError>)
    ensures r.Success? ==> |r.value.0| == n && pos <= r.value.1
    decreases n
  {
    if n == 0 then Success(([], pos))
    else match ReadPadded(data, pos, version)
      case Failure(e) => Failure(e)
      case Success((name, next)) =>
        match ReadNames(data, next, n - 1, version)
        case Failure(e) => Failure(e)
        case Success((names, end)) => Success(([name] + names, end))
  }

  /** Members take their values, in the base type's byte order. */
  function ReadMembers(data: seq<u8>, pos: nat, names: seq<seq<u8>>, size: nat, swapped: bool): (r: Result<(seq<Member>, nat), FormatError>)
    ensures r.Success? ==> |r.value.0| == |names| && pos <= r.value.1
    decreases |names|
  {
    if names == [] then Success(([], pos))
    else if pos + size > |data| then Failure(Eof)
    else
      var raw := data[pos..pos + size];
      var value := FromLe(if swapped then Reversed(raw) else raw);
      match ReadMembers(data, pos + size, names[1..], size, swapped)
      case Failure(e) => Failure(e)
      case Success((members, end)) => Success(([Member(names[0], value)] + members, end))
  }

  predicate IsBoolEnum(size: nat, members: seq<Member>) {
    size == 1 && |members| == 2 && Member(FALSE_NAME, 0) in members && Member(TRUE_NAME, 1) in members
  }

  predicate IntSize(n: nat) {
    n == 1 || n == 2 || n == 4 || n == 8
  }

  function BytesFor(n: nat): nat {
    if n < 0x100 then 1 else 1 + BytesFor(n / 0x100)
  }

  function FromParts(parts: seq<(nat, OrderTree)>): OrderTree {
    if forall i :: 0 <= i < |parts| ==> parts[i].1 == NoOrder then NoOrder else CompoundOrder(parts)
  }

  datatype FieldList = FieldList(fields: seq<Field>, orders: seq<(nat, OrderTree)>, pos: nat)

  function DecodeFields(data: seq<u8>, pos: nat, n: nat, index: nat, version: nat, size: nat): (r: Result<FieldList, FormatError>)
    ensures r.Success? ==> pos <= r.value.pos
    decreases Left(data, pos), 1
  {
    if n == 0 then Success(FieldList([], [], pos))
    else match ReadPadded(data, pos, version)
      case Failure(e) => Failure(e)
      case Success((name, next)) =>
        var width := if version >= 3 then BytesFor(size) else 4;
        match UintAt(data, next, width)
        case Failure(e) => Failure(e)
        case Success(offset) =>
          match Decode(data, next + width + if version == 1 then 28 else 0)
          case Failure(e) => Failure(e)
          case Success(d) =>
            match DecodeFields(data, d.pos, n - 1, index + 1, version, size)
            case Failure(e) => Failure(e)
            case Success(more) =>
              Success(FieldList([Field(name, d.ty, offset, index)] + more.fields, [(offset, d.order)] + more.orders, more.pos))
  }

  function ReadDims(data: seq<u8>, pos: nat, n: nat): (r: Result<(seq<nat>, nat), FormatError>)
    ensures r.Success? ==> pos <= r.value.1
    decreases n
  {
    if n == 0 then Success(([], pos))
    else match UintAt(data, pos, 4)
      case Failure(e) => Failure(e)
      case Success(d) =>
        match ReadDims(data, pos + 4, n - 1)
        case Failure(e) => Failure(e)
        case Success((dims, end)) => Success(([d] + dims, end))
  }

  function ProductOf(dims: seq<nat>): nat {
    if dims == [] then 1 else Times(ProductOf(dims[..|dims| - 1]), dims[|dims| - 1])
  }

  /** The innermost dimension is the last. */
  function Wrapped(base: Type, dims: seq<nat>): Type {
    if dims == [] then base else FixedArray(Wrapped(base, dims[1..]), dims[0])
  }

  function DecodeInt(data: seq<u8>, pos: nat, bits: u8, size: nat): Result<Decoded, FormatError> {
    if pos + 4 > |data| then Failure(Eof)
    else if !IntSize(size) then Failure(BadSize)
    else
      Success(Decoded(if bits as int / 8 % 2 == 1 then Integer(size) else Unsigned(size),
                      if bits as int % 2 == 1 then SwapLeaf(size) else NoOrder, pos + 4))
  }

  function DecodeEnum(data: seq<u8>, pos: nat, n: nat, version: nat, base: Decoded): (r: Result<Decoded, FormatError>)
    ensures r.Success? ==> base.pos <= r.value.pos
  {
    if !(base.ty.Integer? || base.ty.Unsigned?) then Failure(BadEnumBase)
    else
      match ReadNames(data, base.pos, n, version)
      case Failure(e) => Failure(e)
      case Success((names, next)) =>
        match ReadMembers(data, next, names, base.ty.size, base.order != NoOrder)
        case Failure(e) => Failure(e)
        case Success((members, end)) =>
          if !IntSize(base.ty.size) then Failure(BadSize)
          else
            Success(Decoded(if IsBoolEnum(base.ty.size, members) then Boolean else Enum(base.ty.size, base.ty.Integer?, members),
                            base.order, end))
  }

  /** `decode_ordered` at a position of the data. */
  function Decode(data: seq<u8>, pos: nat): (r: Result<Decoded, FormatError>)
    ensures r.Success? ==> pos + 8 <= |data| && pos + 8 <= r.value.pos
    decreases Left(data, pos), 0
  {
    if pos + 8 > |data| then Failure(Eof)
    else
      var version: nat, class_ := data[pos] as int / 16, data[pos] as int % 16;
      var b0, b1 := data[pos + 1], data[pos + 2];
      var size, body := FromLe(data[pos + 4..pos + 8]), pos + 8;
      var count: nat := b0 as int + b1 as int * 0x100;
      if class_ == INT as int then DecodeInt(data, body, b0, size)
      else if class_ == FLOAT as int then
        if body + 12 > |data| then Failure(Eof)
        else if size != 4 && size != 8 then Failure(BadSize)
        else Success(Decoded(Float(size), if b0 as int % 2 == 1 then SwapLeaf(size) else NoOrder, body + 12))
      else if class_ == STRING as int then
        Success(Decoded(if b0 as int / 16 == 1 then FixedUnicode(size) else FixedAscii(size), NoOrder, body))
      else if class_ == ENUM as int then
        match Decode(data, body)
        case Failure(e) => Failure(e)
        case Success(base) => DecodeEnum(data, body, count, version, base)
      else if class_ == COMPOUND as int then
        match DecodeFields(data, body, count, 0, version, size)
        case Failure(e) => Failure(e)
        case Success(list) => Success(Decoded(Compound(size, list.fields), FromParts(list.orders), list.pos))
      else if class_ == ARRAY as int then
        if body >= |data| then Failure(Eof)
        else
          var ndim: nat := data[body];
          match ReadDims(data, body + 1 + if version == 2 then 3 else 0, ndim)
          case Failure(e) => Failure(e)
          case Success((dims, next)) =>
            match Decode(data, next + if version == 2 then 4 * ndim else 0)
            case Failure(e) => Failure(e)
            case Success(base) =>
              Success(Decoded(Wrapped(base.ty, dims),
                              if base.order == NoOrder then NoOrder else ArrayOrder(ProductOf(dims), DiskSize(base.ty), base.order),
                              base.pos))
      else if class_ == VLEN as int then
        match Decode(data, body)
        case Failure(e) => Failure(e)
        case Success(base) =>
          if b0 as int % 16 == 1 then Success(Decoded(if b1 as int % 16 == 1 then VarLenUnicode else VarLenAscii, NoOrder, base.pos))
          else
            Success(Decoded(VarLenArray(base.ty),
                            if base.order == NoOrder then NoOrder else VarLenOrder(DiskSize(base.ty), base.order), base.pos))
      else if class_ == BITFIELD as int then DecodeInt(data, body, b0 - b0 / 8 % 2 * 8, size)
      else if class_ == OPAQUE as int then
        Success(Decoded(FixedArray(Unsigned(1), size), NoOrder, body + b0 as int))
      else if class_ == REFERENCE as int then Success(Decoded(FixedArray(Unsigned(1), size), NoOrder, body))
      else Failure(BadClass)
  }
}
