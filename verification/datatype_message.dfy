/** Datatype messages of any version and byte order, as files of any origin hold them, and what reading
    them gives. */
module DatatypeMessage {
  import opened Wrappers
  import opened Bytes
  import opened Datatype
  import opened FormatBuf
  import NdIndex
  import Seqs

  /** Bits and bytes that reading skips are arbitrary: `pad`, `ignored` and the tag of an opaque type. */
  datatype Message =
    | IntMessage(size: nat, signed: bool, big: bool, pad: nat, ignored: seq<u8>)
    | BitsMessage(size: nat, big: bool, pad: nat, ignored: seq<u8>)
    | FloatMessage(size: nat, big: bool, pad: nat, sign: u8, ignored: seq<u8>)
    | StringMessage(size: nat, charset: nat, pad: nat)
    | EnumMessage(version: nat, base: Message, members: seq<Member>)
    | CompoundMessage(version: nat, size: nat, width: nat, parts: seq<Part>)
    | ArrayMessage(version: nat, size: nat, dims: seq<nat>, base: Message)
    | VlenMessage(base: Message)
    | VlenStringMessage(charset: nat, base: Message)
    | OpaqueMessage(size: nat, tag: seq<u8>)
    | ReferenceMessage(size: nat)

  datatype Part = Part(name: seq<u8>, offset: nat, ty: Message)

  // ----- the bytes of a message

  /** Version and class, three bytes of class bits, and the size. */
  function Start(version: nat, class_: u8, b0: nat, b1: nat, size: nat): (h: seq<u8>)
    requires version <= 3 && class_ <= 10 && b0 < 0x100 && b1 < 0x100
    ensures |h| == 8
  {
    [(version * 16 + class_ as int) as u8, b0 as u8, b1 as u8, 0] + Le(size, 4)
  }

  /** The low bytes of v, most significant first. */
  function Be(v: nat, n: nat): (s: seq<u8>)
    ensures |s| == n
  {
    if n == 0 then [] else Be(v / 0x100, n - 1) + [v % 0x100]
  }

  function PrintName(name: seq<u8>, version: nat): (s: seq<u8>)
    ensures |s| > |name|
  {
    name + [0] + Zeroed(if version < 3 then Align8(|name| + 1) - (|name| + 1) else 0)
  }

  function PrintNames(members: seq<Member>, version: nat): seq<u8> {
    if members == [] then [] else PrintName(members[0].name, version) + PrintNames(members[1..], version)
  }

  function ValueBytes(v: nat, size: nat, big: bool): (s: seq<u8>)
    ensures |s| == size
  {
    if big then Be(v, size) else Le(v, size)
  }

  function PrintValues(members: seq<Member>, size: nat, big: bool): seq<u8> {
    if members == [] then []
    else ValueBytes(members[0].value, size, big) + PrintValues(members[1..], size, big)
  }

  function PrintDims(dims: seq<nat>): (s: seq<u8>)
    ensures |s| == 4 * |dims|
  {
    if dims == [] then [] else Le(dims[0], 4) + PrintDims(dims[1..])
  }

  function PrintParts(parts: seq<Part>, version: nat, width: nat): seq<u8>
    requires WellFormedParts(parts)
    decreases parts
  {
    if parts == [] then []
    else PrintName(parts[0].name, version)
         + (Le(parts[0].offset, if version < 3 then 4 else width)
         + (Zeroed(if version == 1 then 28 else 0)
         + (Print(parts[0].ty)
         + PrintParts(parts[1..], version, width))))
  }

  /** Classes: 0 integer, 1 float, 3 string, 4 bit field, 5 opaque, 6 compound, 7 reference, 8 enumeration,
      9 variable length, 10 array. */
  function Print(m: Message): seq<u8>
    requires WellFormed(m)
    decreases m
  {
    match m
    case IntMessage(size, signed, big, pad, ignored) =>
      Start(1, 0, (if big then 1 else 0) + 2 * pad + (if signed then 8 else 0), 0, size) + ignored
    case BitsMessage(size, big, pad, ignored) => Start(1, 4, (if big then 1 else 0) + 2 * pad, 0, size) + ignored
    case FloatMessage(size, big, pad, sign, ignored) =>
      Start(1, 1, (if big then 1 else 0) + 2 * pad, sign as int, size) + ignored
    case StringMessage(size, charset, pad) => Start(1, 3, pad + 16 * charset, 0, size)
    case EnumMessage(version, base, members) =>
      Start(version, 8, |members| % 0x100, |members| / 0x100, SizeOf(base))
      + (Print(base) + (PrintNames(members, version) + PrintValues(members, SizeOf(base), base.big)))
    case CompoundMessage(version, size, width, parts) =>
      Start(version, 6, |parts| % 0x100, |parts| / 0x100, size) + PrintParts(parts, version, width)
    case ArrayMessage(version, size, dims, base) =>
      Start(version, 10, 0, 0, size)
      + ([|dims| as u8] + (Zeroed(if version == 2 then 3 else 0)
      + (PrintDims(dims) + (Zeroed(if version == 2 then 4 * |dims| else 0) + Print(base)))))
    case VlenMessage(base) => Start(1, 9, 0, 0, 16) + Print(base)
    case VlenStringMessage(charset, base) => Start(1, 9, 1, charset, 16) + Print(base)
    case OpaqueMessage(size, tag) => Start(1, 5, |tag|, 0, size) + tag
    case ReferenceMessage(size) => Start(1, 7, 0, 0, size)
  }

  /** Sizes the reader knows, fields wide enough for their contents, and names without NUL. */
  predicate WellFormed(m: Message)
    decreases m
  {
    match m
    case IntMessage(size, _, _, pad, ignored) => WordSize(size) && pad < 4 && |ignored| == 4
    case BitsMessage(size, _, pad, ignored) => WordSize(size) && pad < 0x80 && |ignored| == 4
    case FloatMessage(size, _, pad, _, ignored) => (size == 4 || size == 8) && pad < 0x80 && |ignored| == 12
    case StringMessage(size, charset, pad) => size < TWO_32 && charset < 16 && pad < 16
    case EnumMessage(version, base, members) =>
      && 1 <= version <= 3 && (base.IntMessage? || base.BitsMessage?) && WellFormed(base) && |members| < 0x1_0000
      && forall i :: 0 <= i < |members| ==> MemberFits(members[i], base.size)
    case CompoundMessage(version, size, width, parts) =>
      && 1 <= version <= 3 && size < TWO_32 && |parts| < 0x1_0000 && WellFormedParts(parts)
      && (forall i :: 0 <= i < |parts| ==> parts[i].offset < if version < 3 then TWO_32 else Pow2(8 * width))
      && width >= 1 && size < Pow2(8 * width) && (width > 1 ==> size >= Pow2(8 * (width - 1)))
    case ArrayMessage(version, size, dims, base) =>
      && 1 <= version <= 3 && size < TWO_32 && |dims| < 0x100 && (forall i :: 0 <= i < |dims| ==> dims[i] < TWO_32)
      && WellFormed(base)
    case VlenMessage(base) => WellFormed(base)
    case VlenStringMessage(charset, base) => charset < 16 && WellFormed(base)
    case OpaqueMessage(size, tag) => size < TWO_32 && |tag| < 0x100
    case ReferenceMessage(size) => size < TWO_32
  }

  predicate WellFormedParts(parts: seq<Part>)
    decreases parts
  {
    parts != [] ==> 0 !in parts[0].name && WellFormed(parts[0].ty) && WellFormedParts(parts[1..])
  }

  predicate WordSize(n: nat) {
    n in {1, 2, 4, 8}
  }

  predicate MemberFits(m: Member, size: nat) {
    0 !in m.name && m.value < Pow2(8 * size)
  }

  // ----- what a message says

  /** Bytes of one value. */
  function SizeOf(m: Message): nat {
    match m
    case EnumMessage(_, base, _) => SizeOf(base)
    case ArrayMessage(_, _, dims, base) =>
      MulMonotone(NdIndex.Product(dims), 0, SizeOf(base));
      NdIndex.Product(dims) * SizeOf(base)
    case VlenMessage(_) => 16
    case VlenStringMessage(_, _) => 16
    case _ => m.size
  }

  /** The last dimension is the innermost. */
  function Nested(base: Type, dims: seq<nat>): Type
    decreases |dims|
  {
    if dims == [] then base else Nested(FixedArray(base, dims[|dims| - 1]), dims[..|dims| - 1])
  }

  /** Two members that spell the boolean type, in either order. */
  predicate SaysBoolean(size: nat, members: seq<Member>) {
    var no, yes := Member([0x46, 0x41, 0x4C, 0x53, 0x45], 0), Member([0x54, 0x52, 0x55, 0x45], 1);
    size == 1 && (members == [no, yes] || members == [yes, no])
  }

  function TypeOf(m: Message): Type
    decreases m
  {
    match m
    case IntMessage(size, signed, _, _, _) => if signed then Integer(size) else Unsigned(size)
    case BitsMessage(size, _, _, _) => Unsigned(size)
    case FloatMessage(size, _, _, _, _) => Float(size)
    case StringMessage(size, charset, _) => if charset == 1 then FixedUnicode(size) else FixedAscii(size)
    case EnumMessage(_, base, members) =>
      if SaysBoolean(SizeOf(base), members) then Boolean else Enum(SizeOf(base), base.IntMessage? && base.signed, members)
    case CompoundMessage(_, size, _, parts) => Compound(size, FieldsOf(parts, 0))
    case ArrayMessage(_, _, dims, base) => Nested(TypeOf(base), dims)
    case VlenMessage(base) => VarLenArray(TypeOf(base))
    case VlenStringMessage(charset, _) => if charset == 1 then VarLenUnicode else VarLenAscii
    case OpaqueMessage(size, _) => FixedArray(Unsigned(1), size)
    case ReferenceMessage(size) => FixedArray(Unsigned(1), size)
  }

  /** Fields are numbered in the order of the message. */
  function FieldsOf(parts: seq<Part>, index: nat): (fields: seq<Field>)
    ensures |fields| == |parts|
    decreases parts
  {
    if parts == [] then []
    else [Field(parts[0].name, TypeOf(parts[0].ty), parts[0].offset, index)] + FieldsOf(parts[1..], index + 1)
  }

  /** Big-endian words anywhere in a value. Strings and references have none. */
  predicate HasBig(m: Message)
    decreases m
  {
    match m
    case IntMessage(_, _, big, _, _) => big
    case BitsMessage(_, big, _, _) => big
    case FloatMessage(_, big, _, _, _) => big
    case EnumMessage(_, base, _) => HasBig(base)
    case CompoundMessage(_, _, _, parts) => PartsHaveBig(parts)
    case ArrayMessage(_, _, _, base) => HasBig(base)
    case VlenMessage(base) => HasBig(base)
    case _ => false
  }

  predicate PartsHaveBig(parts: seq<Part>)
    decreases parts
  {
    parts != [] && (HasBig(parts[0].ty) || PartsHaveBig(parts[1..]))
  }

  /** Where they are: fields at their offsets, elements of an array one element size apart. */
  function OrderOf(m: Message): OrderTree
    decreases m
  {
    if !HasBig(m) then NoOrder
    else match m
      case EnumMessage(_, base, _) => OrderOf(base)
      case CompoundMessage(_, _, _, parts) => CompoundOrder(PartOrders(parts))
      case ArrayMessage(_, _, dims, base) => ArrayOrder(NdIndex.Product(dims), SizeOf(base), OrderOf(base))
      case VlenMessage(base) => VarLenOrder(SizeOf(base), OrderOf(base))
      case _ => SwapLeaf(SizeOf(m))
  }

  function PartOrders(parts: seq<Part>): (orders: seq<(nat, OrderTree)>)
    ensures |orders| == |parts|
    decreases parts
  {
    if parts == [] then [] else [(parts[0].offset, OrderOf(parts[0].ty))] + PartOrders(parts[1..])
  }

  // ----- bytes at a position

  lemma StartAt(data: seq<u8>, pos: nat, version: nat, class_: u8, b0: nat, b1: nat, size: nat)
    requires version <= 3 && class_ <= 10 && b0 < 0x100 && b1 < 0x100 && size < TWO_32
    requires Seqs.At(data, pos, Start(version, class_, b0, b1, size))
    ensures pos + 8 <= |data| && data[pos] as int / 16 == version && data[pos] as int % 16 == class_ as int
    ensures data[pos + 1] as int == b0 && data[pos + 2] as int == b1 && FromLe(data[pos + 4..pos + 8]) == size
  {
    hide Le, FromLe;
    var first: seq<u8> := [(version * 16 + class_ as int) as u8, b0 as u8, b1 as u8, 0];
    Seqs.AtSplit(data, pos, first, Le(size, 4));
    Seqs.AtElement(data, pos, first, 0);
    Seqs.AtElement(data, pos, first, 1);
    Seqs.AtElement(data, pos, first, 2);
    FourBytes(size);
  }

  lemma AtEnd(data: seq<u8>, pos: nat, s: seq<u8>)
    requires Seqs.At(data, pos, s)
    ensures pos + |s| <= |data|
  {
  }

  lemma UintFound(data: seq<u8>, pos: nat, v: nat, n: nat)
    requires Seqs.At(data, pos, Le(v, n)) && v < Pow2(8 * n)
    ensures UintAt(data, pos, n) == Success(v)
  {
    FromLeOfLe(v, n);
  }

  // ----- names and members

  lemma {:induction false} ReadNameAt(data: seq<u8>, pos: nat, name: seq<u8>)
    requires Seqs.At(data, pos, name + [0]) && 0 !in name
    ensures ReadName(data, pos) == Success((name, pos + |name| + 1))
    decreases |name|
  {
    Seqs.AtElement(data, pos, name + [0], 0);
    if name != [] {
      assert name[0] in name;
      Seqs.AtSplit(data, pos, [name[0]], name[1..] + [0]) by {
        assert [name[0]] + (name[1..] + [0]) == name + [0];
      }
      assert 0 !in name[1..] by {
        forall b | b in name[1..] ensures b in name {
        }
      }
      ReadNameAt(data, pos + 1, name[1..]);
      Seqs.HeadAndTail(name);
    }
  }

  lemma NameAt(data: seq<u8>, pos: nat, name: seq<u8>, version: nat)
    requires Seqs.At(data, pos, PrintName(name, version)) && 0 !in name
    ensures ReadPadded(data, pos, version) == Success((name, pos + |PrintName(name, version)|))
  {
    hide ReadName, Seqs.At;
    Seqs.AtSplit(data, pos, name + [0], Zeroed(if version < 3 then Align8(|name| + 1) - (|name| + 1) else 0));
    ReadNameAt(data, pos, name);
  }

  function NamesOf(members: seq<Member>): (s: seq<seq<u8>>)
    ensures |s| == |members|
  {
    if members == [] then [] else [members[0].name] + NamesOf(members[1..])
  }

  lemma {:induction false} NamesAt(data: seq<u8>, pos: nat, members: seq<Member>, version: nat)
    requires Seqs.At(data, pos, PrintNames(members, version)) && forall i :: 0 <= i < |members| ==> 0 !in members[i].name
    ensures ReadNames(data, pos, |members|, version) == Success((NamesOf(members), pos + |PrintNames(members, version)|))
    decreases |members|
  {
    hide PrintName, ReadPadded, ReadNames, Seqs.At;
    if members == [] {
      NoNames(data, pos, version);
    } else {
      var name := members[0].name;
      Seqs.AtSplit(data, pos, PrintName(name, version), PrintNames(members[1..], version));
      NameAt(data, pos, name, version);
      NamesAt(data, pos + |PrintName(name, version)|, members[1..], version);
      NextName(data, pos, |members|, name, pos + |PrintName(name, version)|, version);
    }
  }

  lemma NoNames(data: seq<u8>, pos: nat, version: nat)
    ensures ReadNames(data, pos, 0, version) == Success(([], pos))
  {
  }

  lemma NextName(data: seq<u8>, pos: nat, n: nat, name: seq<u8>, next: nat, version: nat)
    requires n > 0 && ReadPadded(data, pos, version) == Success((name, next)) && ReadNames(data, next, n - 1, version).Success?
    ensures var rest := ReadNames(data, next, n - 1, version).value;
            ReadNames(data, pos, n, version) == Success(([name] + rest.0, rest.1))
  {
    hide ReadPadded;
  }

  lemma {:induction false} ReversedBe(v: nat, n: nat)
    ensures Reversed(Be(v, n)) == Le(v, n)
  {
    if n > 0 {
      ReversedBe(v / 0x100, n - 1);
      ReversedAppend(Be(v / 0x100, n - 1), v % 0x100);
    }
  }

  lemma ValueAt(v: nat, size: nat, big: bool)
    requires v < Pow2(8 * size)
    ensures var raw := ValueBytes(v, size, big); FromLe(if big then Reversed(raw) else raw) == v
  {
    hide Le, Be, FromLe, Reversed;
    ReversedBe(v, size);
    FromLeOfLe(v, size);
  }

  lemma {:induction false} ValuesAt(data: seq<u8>, pos: nat, members: seq<Member>, size: nat, big: bool)
    requires Seqs.At(data, pos, PrintValues(members, size, big))
    requires forall i :: 0 <= i < |members| ==> MemberFits(members[i], size)
    ensures ReadMembers(data, pos, NamesOf(members), size, big) == Success((members, pos + |PrintValues(members, size, big)|))
    decreases |members|
  {
    hide ValueBytes, Seqs.At, ReadMembers, MemberFits;
    if members == [] {
      NoMembers(data, pos, size, big);
    } else {
      assert MemberFits(members[0], size);
      Seqs.AtSplit(data, pos, ValueBytes(members[0].value, size, big), PrintValues(members[1..], size, big));
      ValuesAt(data, pos + size, members[1..], size, big);
      NextMember(data, pos, members, size, big, pos + |PrintValues(members, size, big)|);
    }
  }

  lemma NoMembers(data: seq<u8>, pos: nat, size: nat, big: bool)
    ensures ReadMembers(data, pos, [], size, big) == Success(([], pos))
  {
  }

  lemma NextMember(data: seq<u8>, pos: nat, members: seq<Member>, size: nat, big: bool, end: nat)
    requires members != [] && MemberFits(members[0], size) && Seqs.At(data, pos, ValueBytes(members[0].value, size, big))
    requires ReadMembers(data, pos + size, NamesOf(members[1..]), size, big) == Success((members[1..], end))
    ensures ReadMembers(data, pos, NamesOf(members), size, big) == Success((members, end))
  {
    hide ValueBytes, FromLe, Reversed, Pow2;
    var m := members[0];
    ValueAt(m.value, size, big);
    Seqs.HeadOf(m.name, NamesOf(members[1..]));
    Seqs.HeadAndTail(members);
  }

  // ----- the classes

  /** Reading at a position gives what the message says, and its end. */
  ghost predicate Reads(data: seq<u8>, pos: nat, m: Message)
    requires WellFormed(m)
  {
    Decode(data, pos) == Success(Decoded(TypeOf(m), OrderOf(m), pos + |Print(m)|))
  }

  lemma IntAt(data: seq<u8>, pos: nat, size: nat, signed: bool, big: bool, pad: nat, ignored: seq<u8>)
    requires WordSize(size) && pad < 4 && |ignored| == 4
    requires Seqs.At(data, pos, Start(1, INT, (if big then 1 else 0) + 2 * pad + (if signed then 8 else 0), 0, size) + ignored)
    ensures Decode(data, pos) == Success(Decoded(if signed then Integer(size) else Unsigned(size),
                                                 if big then SwapLeaf(size) else NoOrder, pos + 12))
  {
    hide Start, FromLe, DecodeEnum, DecodeFields, ReadDims, Seqs.At;
    var b0 := (if big then 1 else 0) + 2 * pad + (if signed then 8 else 0);
    Seqs.AtSplit(data, pos, Start(1, INT, b0, 0, size), ignored);
    AtEnd(data, pos + 8, ignored);
    StartAt(data, pos, 1, INT, b0, 0, size);
  }

  lemma BitsAt(data: seq<u8>, pos: nat, size: nat, big: bool, pad: nat, ignored: seq<u8>)
    requires WordSize(size) && pad < 0x80 && |ignored| == 4
    requires Seqs.At(data, pos, Start(1, BITFIELD, (if big then 1 else 0) + 2 * pad, 0, size) + ignored)
    ensures Decode(data, pos) == Success(Decoded(Unsigned(size), if big then SwapLeaf(size) else NoOrder, pos + 12))
  {
    hide Start, FromLe, DecodeEnum, DecodeFields, ReadDims, Seqs.At, DecodeInt;
    var b0 := (if big then 1 else 0) + 2 * pad;
    Seqs.AtSplit(data, pos, Start(1, BITFIELD, b0, 0, size), ignored);
    AtEnd(data, pos + 8, ignored);
    StartAt(data, pos, 1, BITFIELD, b0, 0, size);
    UnsignedBits(data, pos + 8, b0, big, pad, size);
  }

  lemma UnsignedBits(data: seq<u8>, pos: nat, b0: nat, big: bool, pad: nat, size: nat)
    requires b0 == (if big then 1 else 0) + 2 * pad < 0x100 && WordSize(size) && pos + 4 <= |data|
    ensures DecodeInt(data, pos, (b0 - b0 / 8 % 2 * 8) as u8, size)
            == Success(Decoded(Unsigned(size), if big then SwapLeaf(size) else NoOrder, pos + 4))
  {
  }

  lemma FloatAt(data: seq<u8>, pos: nat, size: nat, big: bool, pad: nat, sign: u8, ignored: seq<u8>)
    requires (size == 4 || size == 8) && pad < 0x80 && |ignored| == 12
    requires Seqs.At(data, pos, Start(1, FLOAT, (if big then 1 else 0) + 2 * pad, sign as int, size) + ignored)
    ensures Decode(data, pos) == Success(Decoded(Float(size), if big then SwapLeaf(size) else NoOrder, pos + 20))
  {
    hide Start, FromLe, DecodeInt, DecodeEnum, DecodeFields, ReadDims, Seqs.At;
    var b0 := (if big then 1 else 0) + 2 * pad;
    Seqs.AtSplit(data, pos, Start(1, FLOAT, b0, sign as int, size), ignored);
    AtEnd(data, pos + 8, ignored);
    StartAt(data, pos, 1, FLOAT, b0, sign as int, size);
  }

  lemma StringAt(data: seq<u8>, pos: nat, size: nat, charset: nat, pad: nat)
    requires size < TWO_32 && charset < 16 && pad < 16 && Seqs.At(data, pos, Start(1, STRING, pad + 16 * charset, 0, size))
    ensures Decode(data, pos)
            == Success(Decoded(if charset == 1 then FixedUnicode(size) else FixedAscii(size), NoOrder, pos + 8))
  {
    hide Start, FromLe, DecodeInt, DecodeEnum, DecodeFields, ReadDims, Seqs.At;
    StartAt(data, pos, 1, STRING, pad + 16 * charset, 0, size);
  }

  lemma BytesAt(data: seq<u8>, pos: nat, class_: u8, tag: seq<u8>, size: nat)
    requires size < TWO_32 && |tag| < 0x100 && (class_ == OPAQUE || (class_ == REFERENCE && tag == []))
    requires Seqs.At(data, pos, Start(1, class_, |tag|, 0, size) + tag)
    ensures Decode(data, pos) == Success(Decoded(FixedArray(Unsigned(1), size), NoOrder, pos + 8 + |tag|))
  {
    hide Start, FromLe, DecodeInt, DecodeEnum, DecodeFields, ReadDims, Seqs.At;
    Seqs.AtSplit(data, pos, Start(1, class_, |tag|, 0, size), tag);
    StartAt(data, pos, 1, class_, |tag|, 0, size);
  }

  lemma WordOrder(m: Message)
    requires m.IntMessage? || m.BitsMessage?
    ensures SizeOf(m) == m.size && OrderOf(m) == if m.big then SwapLeaf(m.size) else NoOrder
  {
  }

  lemma BooleanSpelling(size: nat, members: seq<Member>)
    ensures SaysBoolean(size, members) <==> IsBoolEnum(size, members)
  {
  }

  lemma EnumAt(data: seq<u8>, pos: nat, m: Message)
    requires m.EnumMessage? && WellFormed(m) && Seqs.At(data, pos, Print(m)) && Reads(data, pos + 8, m.base)
    ensures Reads(data, pos, m)
  {
    hide Start, FromLe, PrintNames, PrintValues, Decode, DecodeEnum, Seqs.At, SaysBoolean;
    var n, size := |m.members|, m.base.size;
    var base, names, values := Print(m.base), PrintNames(m.members, m.version), PrintValues(m.members, size, m.base.big);
    WordOrder(m.base);
    Seqs.AtSplit(data, pos, Start(m.version, ENUM, n % 0x100, n / 0x100, size), base + (names + values));
    Seqs.AtSplit(data, pos + 8, base, names + values);
    Seqs.AtSplit(data, pos + 8 + |base|, names, values);
    StartAt(data, pos, m.version, ENUM, n % 0x100, n / 0x100, size);
    EnumBody(data, pos, m.version, n);
    EnumMembersAt(data, pos + 8, m, pos + 8 + |base|);
  }

  lemma EnumBody(data: seq<u8>, pos: nat, version: nat, n: nat)
    requires pos + 8 <= |data| && data[pos] as int / 16 == version && data[pos] as int % 16 == ENUM as int
    requires data[pos + 1] as int + data[pos + 2] as int * 0x100 == n && Decode(data, pos + 8).Success?
    ensures Decode(data, pos) == DecodeEnum(data, pos + 8, n, version, Decode(data, pos + 8).value)
  {
    hide DecodeEnum, DecodeFields, DecodeInt, ReadDims, FromLe;
  }

  lemma EnumMembersAt(data: seq<u8>, body: nat, m: Message, pos: nat)
    requires m.EnumMessage? && WellFormed(m)
    requires Seqs.At(data, pos, PrintNames(m.members, m.version))
    requires Seqs.At(data, pos + |PrintNames(m.members, m.version)|, PrintValues(m.members, m.base.size, m.base.big))
    ensures DecodeEnum(data, body, |m.members|, m.version, Decoded(TypeOf(m.base), OrderOf(m.base), pos))
            == Success(Decoded(TypeOf(m), OrderOf(m),
                               pos + |PrintNames(m.members, m.version)| + |PrintValues(m.members, m.base.size, m.base.big)|))
  {
    hide PrintNames, PrintValues, ReadNames, ReadMembers, IsBoolEnum, SaysBoolean, Seqs.At;
    WordOrder(m.base);
    BooleanSpelling(m.base.size, m.members);
    forall i | 0 <= i < |m.members| ensures 0 !in m.members[i].name {
      assert MemberFits(m.members[i], m.base.size);
    }
    NamesAt(data, pos, m.members, m.version);
    ValuesAt(data, pos + |PrintNames(m.members, m.version)|, m.members, m.base.size, m.base.big);
  }

  // ----- dimensions and sizes

  lemma {:induction false} DimsAt(data: seq<u8>, pos: nat, dims: seq<nat>)
    requires Seqs.At(data, pos, PrintDims(dims)) && forall i :: 0 <= i < |dims| ==> dims[i] < TWO_32
    ensures ReadDims(data, pos, |dims|) == Success((dims, pos + 4 * |dims|))
    decreases |dims|
  {
    hide Le, UintAt, Seqs.At;
    if dims != [] {
      Seqs.AtSplit(data, pos, Le(dims[0], 4), PrintDims(dims[1..]));
      Pow2Constants();
      UintFound(data, pos, dims[0], 4);
      DimsAt(data, pos + 4, dims[1..]);
      Seqs.HeadAndTail(dims);
    }
  }

  lemma {:induction false} WrappedIsNested(base: Type, dims: seq<nat>)
    ensures Wrapped(base, dims) == Nested(base, dims)
    decreases |dims|
  {
    if dims != [] {
      var last := |dims| - 1;
      WrappedLast(base, dims);
      WrappedIsNested(FixedArray(base, dims[last]), dims[..last]);
    }
  }

  lemma {:induction false} WrappedLast(base: Type, dims: seq<nat>)
    requires dims != []
    ensures Wrapped(base, dims) == Wrapped(FixedArray(base, dims[|dims| - 1]), dims[..|dims| - 1])
    decreases |dims|
  {
    if |dims| > 1 {
      WrappedLast(base, dims[1..]);
      assert dims[1..][..|dims| - 2] == dims[..|dims| - 1][1..];
    }
  }

  lemma {:induction false} ProductIsProduct(dims: seq<nat>)
    ensures ProductOf(dims) == NdIndex.Product(dims)
    decreases |dims|
  {
    if dims != [] {
      var last := |dims| - 1;
      ProductIsProduct(dims[..last]);
      ProductLast(dims);
      TimesIsProduct(ProductOf(dims[..last]), dims[last]);
    }
  }

  lemma {:induction false} ProductLast(dims: seq<nat>)
    requires dims != []
    ensures NdIndex.Product(dims) == NdIndex.Product(dims[..|dims| - 1]) * dims[|dims| - 1]
    decreases |dims|
  {
    NdIndex.ProductStep(dims);
    if |dims| > 1 {
      hide NdIndex.Product;
      ProductLast(dims[1..]);
      NdIndex.ProductStep(dims[..|dims| - 1]);
      assert dims[1..][..|dims| - 2] == dims[..|dims| - 1][1..];
      MulAssociative(dims[0], NdIndex.Product(dims[1..][..|dims| - 2]), dims[|dims| - 1]);
    }
  }

  lemma {:induction false} WrappedSize(base: Type, dims: seq<nat>)
    ensures DiskSize(Wrapped(base, dims)) == NdIndex.Product(dims) * DiskSize(base)
    decreases |dims|
  {
    if dims != [] {
      WrappedSize(base, dims[1..]);
      NdIndex.ProductStep(dims);
      hide NdIndex.Product;
      TimesIsProduct(DiskSize(Wrapped(base, dims[1..])), dims[0]);
      MulAssociative(dims[0], NdIndex.Product(dims[1..]), DiskSize(base));
    }
  }

  /** The size of a value on disk is the one its message means. */
  lemma {:induction false} SizeOnDisk(m: Message)
    requires WellFormed(m)
    ensures DiskSize(TypeOf(m)) == SizeOf(m)
  {
    match m {
      case EnumMessage(_, base, _) => WordOrder(base);
      case ArrayMessage(_, _, dims, base) =>
        hide NdIndex.Product, Nested;
        SizeOnDisk(base);
        WrappedIsNested(TypeOf(base), dims);
        WrappedSize(TypeOf(base), dims);
      case OpaqueMessage(size, _) => TimesIsProduct(1, size);
      case ReferenceMessage(size) => TimesIsProduct(1, size);
      case _ =>
    }
  }

  lemma {:induction false} OrderExactly(m: Message)
    ensures OrderOf(m) == NoOrder <==> !HasBig(m)
  {
    if m.EnumMessage? {
      OrderExactly(m.base);
    }
  }

  lemma {:induction false} OrdersExactly(parts: seq<Part>)
    ensures FromParts(PartOrders(parts)) == if PartsHaveBig(parts) then CompoundOrder(PartOrders(parts)) else NoOrder
    decreases |parts|
  {
    hide OrderOf, HasBig;
    if parts != [] {
      var orders := PartOrders(parts);
      OrderExactly(parts[0].ty);
      OrdersExactly(parts[1..]);
      assert orders[1..] == PartOrders(parts[1..]);
      assert forall i :: 0 <= i < |orders| - 1 ==> orders[1..][i] == orders[i + 1];
      assert (forall i :: 0 <= i < |orders| ==> orders[i].1 == NoOrder) <==>
             orders[0].1 == NoOrder && forall i :: 0 <= i < |orders[1..]| ==> orders[1..][i].1 == NoOrder by {
        assert forall i :: 0 < i < |orders| ==> orders[i] == orders[1..][i - 1];
      }
    }
  }

  lemma {:induction false} BytesWide(n: nat, width: nat)
    requires width >= 1 && n < Pow2(8 * width) && (width > 1 ==> n >= Pow2(8 * (width - 1)))
    ensures BytesFor(n) == width
  {
    if width == 1 {
      assert Pow2(8) == 0x100;
    } else {
      Pow2Times256(width - 1);
      Pow2Times256(width - 2);
      Pow2Monotone(8, 8 * (width - 1));
      assert Pow2(8) == 0x100;
      BytesWide(n / 0x100, width - 1);
    }
  }

  // ----- nested messages

  lemma ArrayAt(data: seq<u8>, pos: nat, m: Message, next: nat)
    requires m.ArrayMessage? && WellFormed(m) && Seqs.At(data, pos, Print(m)) && next == pos + |Print(m)| - |Print(m.base)|
    requires Reads(data, next, m.base)
    ensures Reads(data, pos, m)
  {
    hide Start, PrintDims, Print, Nested, NdIndex.Product, Decode, ReadDims, Seqs.At;
    DimensionsAt(data, pos, m);
    OrderExactly(m.base);
    SizeOnDisk(m.base);
    WrappedIsNested(TypeOf(m.base), m.dims);
    ProductIsProduct(m.dims);
    ArrayBody(data, pos, m.version, m.dims, next);
  }

  /** Where the rank, the dimensions and the base of an array message begin. */
  lemma ArraySplit(data: seq<u8>, pos: nat, m: Message, at: nat, next: nat)
    requires m.ArrayMessage? && WellFormed(m) && Seqs.At(data, pos, Print(m))
    requires at == pos + 9 + (if m.version == 2 then 3 else 0)
    requires next == at + 4 * |m.dims| + (if m.version == 2 then 4 * |m.dims| else 0)
    ensures Seqs.At(data, pos, Start(m.version, ARRAY, 0, 0, m.size)) && Seqs.At(data, pos + 8, [|m.dims| as u8])
    ensures Seqs.At(data, at, PrintDims(m.dims)) && Seqs.At(data, next, Print(m.base)) && next == pos + |Print(m)| - |Print(m.base)|
  {
    hide Start, PrintDims, Seqs.At;
    var rank: seq<u8> := [|m.dims| as u8];
    var gap, dims := Zeroed(if m.version == 2 then 3 else 0), PrintDims(m.dims);
    var skipped := Zeroed(if m.version == 2 then 4 * |m.dims| else 0);
    Seqs.AtSplit(data, pos, Start(m.version, ARRAY, 0, 0, m.size), rank + (gap + (dims + (skipped + Print(m.base)))));
    Seqs.AtSplit(data, pos + 8, rank, gap + (dims + (skipped + Print(m.base))));
    Seqs.AtSplit(data, pos + 9, gap, dims + (skipped + Print(m.base)));
    Seqs.AtSplit(data, at, dims, skipped + Print(m.base));
    Seqs.AtSplit(data, at + |dims|, skipped, Print(m.base));
  }

  /** The parts of an array message in front of its base. */
  lemma DimensionsAt(data: seq<u8>, pos: nat, m: Message)
    requires m.ArrayMessage? && WellFormed(m) && Seqs.At(data, pos, Print(m))
    ensures pos + 9 <= |data| && data[pos] as int / 16 == m.version && data[pos] as int % 16 == ARRAY as int
    ensures data[pos + 8] as int == |m.dims|
    ensures var at := pos + 9 + if m.version == 2 then 3 else 0;
            var next := at + 4 * |m.dims| + if m.version == 2 then 4 * |m.dims| else 0;
            && ReadDims(data, at, |m.dims|) == Success((m.dims, at + 4 * |m.dims|))
            && next == pos + |Print(m)| - |Print(m.base)| && Seqs.At(data, next, Print(m.base))
  {
    hide Start, PrintDims, ReadDims, Seqs.At, FromLe, Print;
    var at := pos + 9 + if m.version == 2 then 3 else 0;
    ArraySplit(data, pos, m, at, at + 4 * |m.dims| + if m.version == 2 then 4 * |m.dims| else 0);
    StartAt(data, pos, m.version, ARRAY, 0, 0, m.size);
    AtEnd(data, pos + 8, [|m.dims| as u8]);
    Seqs.AtElement(data, pos + 8, [|m.dims| as u8], 0);
    DimsAt(data, at, m.dims);
  }

  lemma ArrayBody(data: seq<u8>, pos: nat, version: nat, dims: seq<nat>, next: nat)
    requires pos + 9 <= |data| && data[pos] as int / 16 == version && data[pos] as int % 16 == ARRAY as int
    requires data[pos + 8] as int == |dims|
    requires var at := pos + 9 + if version == 2 then 3 else 0;
             && ReadDims(data, at, |dims|) == Success((dims, at + 4 * |dims|))
             && next == at + 4 * |dims| + if version == 2 then 4 * |dims| else 0
    requires Decode(data, next).Success?
    ensures var base := Decode(data, next).value;
            Decode(data, pos) == Success(Decoded(Wrapped(base.ty, dims),
              if base.order == NoOrder then NoOrder else ArrayOrder(ProductOf(dims), DiskSize(base.ty), base.order), base.pos))
  {
    hide DecodeEnum, DecodeFields, DecodeInt, ReadDims, FromLe, Wrapped, ProductOf, DiskSize;
  }

  lemma VlenAt(data: seq<u8>, pos: nat, m: Message)
    requires m.VlenMessage? && WellFormed(m) && Seqs.At(data, pos, Print(m)) && Reads(data, pos + 8, m.base)
    ensures Reads(data, pos, m)
  {
    hide Start, Decode, Seqs.At, DiskSize;
    Seqs.AtSplit(data, pos, Start(1, VLEN, 0, 0, 16), Print(m.base));
    StartAt(data, pos, 1, VLEN, 0, 0, 16);
    OrderExactly(m.base);
    SizeOnDisk(m.base);
    VlenBody(data, pos, 0, 0);
  }

  lemma VlenStringAt(data: seq<u8>, pos: nat, m: Message)
    requires m.VlenStringMessage? && WellFormed(m) && Seqs.At(data, pos, Print(m)) && Reads(data, pos + 8, m.base)
    ensures Reads(data, pos, m)
  {
    hide Start, Decode, Seqs.At, DiskSize;
    Seqs.AtSplit(data, pos, Start(1, VLEN, 1, m.charset, 16), Print(m.base));
    StartAt(data, pos, 1, VLEN, 1, m.charset, 16);
    VlenBody(data, pos, 1, m.charset);
  }

  lemma VlenBody(data: seq<u8>, pos: nat, kind: nat, charset: nat)
    requires pos + 8 <= |data| && data[pos] as int % 16 == VLEN as int && data[pos + 1] as int == kind < 16
    requires data[pos + 2] as int == charset < 16 && Decode(data, pos + 8).Success?
    ensures var base := Decode(data, pos + 8).value;
            Decode(data, pos) == Success(
              if kind == 1 then Decoded(if charset == 1 then VarLenUnicode else VarLenAscii, NoOrder, base.pos)
              else Decoded(VarLenArray(base.ty), if base.order == NoOrder then NoOrder else VarLenOrder(DiskSize(base.ty), base.order), base.pos))
  {
    hide DecodeEnum, DecodeFields, DecodeInt, ReadDims, FromLe, DiskSize;
  }

  ghost predicate ReadsParts(data: seq<u8>, pos: nat, parts: seq<Part>, version: nat, width: nat, index: nat, size: nat)
    requires WellFormedParts(parts)
  {
    DecodeFields(data, pos, |parts|, index, version, size)
    == Success(FieldList(FieldsOf(parts, index), PartOrders(parts), pos + |PrintParts(parts, version, width)|))
  }

  /** Offsets take four bytes, or from version 3 as many as the size of the compound needs. */
  ghost predicate OffsetsFit(parts: seq<Part>, version: nat, width: nat, size: nat) {
    && (version >= 3 ==> BytesFor(size) == width)
    && forall i :: 0 <= i < |parts| ==> parts[i].offset < if version < 3 then TWO_32 else Pow2(8 * width)
  }

  /** Where the name, the offset, the type and the following parts begin. */
  lemma PartSplit(data: seq<u8>, pos: nat, parts: seq<Part>, version: nat, width: nat, named: nat, at: nat, next: nat)
    requires parts != [] && WellFormedParts(parts) && Seqs.At(data, pos, PrintParts(parts, version, width))
    requires named == pos + |PrintName(parts[0].name, version)|
    requires at == named + (if version < 3 then 4 else width) + (if version == 1 then 28 else 0)
    requires next == at + |Print(parts[0].ty)|
    ensures Seqs.At(data, pos, PrintName(parts[0].name, version))
    ensures Seqs.At(data, named, Le(parts[0].offset, if version < 3 then 4 else width))
    ensures Seqs.At(data, at, Print(parts[0].ty)) && Seqs.At(data, next, PrintParts(parts[1..], version, width))
    ensures pos + |PrintParts(parts, version, width)| == next + |PrintParts(parts[1..], version, width)|
  {
    hide PrintName, Seqs.At, Le, Print, PrintParts;
    var p := parts[0];
    var w := if version < 3 then 4 else width;
    var rest := Print(p.ty) + PrintParts(parts[1..], version, width);
    var gap := Zeroed(if version == 1 then 28 else 0);
    PrintPartsStep(parts, version, width);
    Seqs.AtSplit(data, pos, PrintName(p.name, version), Le(p.offset, w) + (gap + rest));
    Seqs.AtSplit(data, named, Le(p.offset, w), gap + rest);
    Seqs.AtSplit(data, named + w, gap, rest);
    Seqs.AtSplit(data, at, Print(p.ty), PrintParts(parts[1..], version, width));
  }

  lemma PartAt(data: seq<u8>, pos: nat, parts: seq<Part>, version: nat, width: nat, index: nat, size: nat, named: nat, at: nat, next: nat)
    requires parts != [] && WellFormedParts(parts) && OffsetsFit(parts, version, width, size)
    requires Seqs.At(data, pos, PrintName(parts[0].name, version)) && named == pos + |PrintName(parts[0].name, version)|
    requires Seqs.At(data, named, Le(parts[0].offset, if version < 3 then 4 else width))
    requires at == named + (if version < 3 then 4 else width) + (if version == 1 then 28 else 0)
    requires next == at + |Print(parts[0].ty)| && Reads(data, at, parts[0].ty)
    requires pos + |PrintParts(parts, version, width)| == next + |PrintParts(parts[1..], version, width)|
    requires ReadsParts(data, next, parts[1..], version, width, index + 1, size)
    ensures ReadsParts(data, pos, parts, version, width, index, size)
  {
    hide PrintName, Seqs.At, ReadPadded, Decode, UintAt, Le, BytesFor, Print, TypeOf, OrderOf, Pow2, PrintParts, DecodeFields;
    NameAt(data, pos, parts[0].name, version);
    Pow2Constants();
    UintFound(data, named, parts[0].offset, if version < 3 then 4 else width);
    FieldStep(data, pos, |parts|, index, version, size, parts[0].name, named, parts[0].offset, at);
  }

  lemma PrintPartsStep(parts: seq<Part>, version: nat, width: nat)
    requires parts != [] && WellFormedParts(parts)
    ensures PrintParts(parts, version, width)
            == PrintName(parts[0].name, version)
               + (Le(parts[0].offset, if version < 3 then 4 else width)
               + (Zeroed(if version == 1 then 28 else 0) + (Print(parts[0].ty) + PrintParts(parts[1..], version, width))))
  {
  }

  lemma FieldStep(data: seq<u8>, pos: nat, n: nat, index: nat, version: nat, size: nat, name: seq<u8>, named: nat, offset: nat, at: nat)
    requires n > 0 && ReadPadded(data, pos, version) == Success((name, named))
    requires var w := if version >= 3 then BytesFor(size) else 4;
             UintAt(data, named, w) == Success(offset) && at == named + w + if version == 1 then 28 else 0
    requires Decode(data, at).Success? && DecodeFields(data, Decode(data, at).value.pos, n - 1, index + 1, version, size).Success?
    ensures var d := Decode(data, at).value;
            var more := DecodeFields(data, d.pos, n - 1, index + 1, version, size).value;
            DecodeFields(data, pos, n, index, version, size)
            == Success(FieldList([Field(name, d.ty, offset, index)] + more.fields, [(offset, d.order)] + more.orders, more.pos))
  {
    hide ReadPadded, UintAt, Decode, BytesFor;
  }

  lemma CompoundAt(data: seq<u8>, pos: nat, m: Message)
    requires m.CompoundMessage? && WellFormed(m) && Seqs.At(data, pos, Print(m))
    requires ReadsParts(data, pos + 8, m.parts, m.version, m.width, 0, m.size)
    ensures Reads(data, pos, m)
  {
    hide Start, PrintParts, FieldsOf, PartOrders, DecodeFields, Decode, FromLe, Seqs.At;
    var n := |m.parts|;
    Seqs.AtSplit(data, pos, Start(m.version, COMPOUND, n % 0x100, n / 0x100, m.size), PrintParts(m.parts, m.version, m.width));
    StartAt(data, pos, m.version, COMPOUND, n % 0x100, n / 0x100, m.size);
    OrdersExactly(m.parts);
    CompoundBody(data, pos, m.version, n, m.size);
  }

  lemma CompoundBody(data: seq<u8>, pos: nat, version: nat, n: nat, size: nat)
    requires pos + 8 <= |data| && data[pos] as int / 16 == version && data[pos] as int % 16 == COMPOUND as int
    requires data[pos + 1] as int + data[pos + 2] as int * 0x100 == n && FromLe(data[pos + 4..pos + 8]) == size
    requires DecodeFields(data, pos + 8, n, 0, version, size).Success?
    ensures var list := DecodeFields(data, pos + 8, n, 0, version, size).value;
            Decode(data, pos) == Success(Decoded(Compound(size, list.fields), FromParts(list.orders), list.pos))
  {
    hide DecodeEnum, DecodeFields, DecodeInt, ReadDims, FromLe, FromParts;
  }

  lemma {:induction false} PartsAt(data: seq<u8>, pos: nat, parts: seq<Part>, version: nat, width: nat, index: nat, size: nat)
    requires WellFormedParts(parts) && OffsetsFit(parts, version, width, size)
    requires Seqs.At(data, pos, PrintParts(parts, version, width))
    ensures ReadsParts(data, pos, parts, version, width, index, size)
    decreases parts
  {
    hide PrintName, Seqs.At, Decode, Print, TypeOf, OrderOf, BytesFor, Pow2;
    if parts != [] {
      var named := pos + |PrintName(parts[0].name, version)|;
      var at := named + (if version < 3 then 4 else width) + (if version == 1 then 28 else 0);
      var next := at + |Print(parts[0].ty)|;
      PartSplit(data, pos, parts, version, width, named, at, next);
      ReadOfPrinted(parts[0].ty, data, at);
      PartsAt(data, next, parts[1..], version, width, index + 1, size);
      PartAt(data, pos, parts, version, width, index, size, named, at, next);
    }
  }

  /** Messages without messages in them. */
  lemma LeafAt(m: Message, data: seq<u8>, pos: nat)
    requires WellFormed(m) && Seqs.At(data, pos, Print(m))
    requires m.IntMessage? || m.BitsMessage? || m.FloatMessage? || m.StringMessage? || m.OpaqueMessage? || m.ReferenceMessage?
    ensures Reads(data, pos, m)
  {
    hide Start, Decode, Seqs.At, FromLe;
    match m {
      case IntMessage(size, signed, big, pad, ignored) => IntAt(data, pos, size, signed, big, pad, ignored);
      case BitsMessage(size, big, pad, ignored) => BitsAt(data, pos, size, big, pad, ignored);
      case FloatMessage(size, big, pad, sign, ignored) => FloatAt(data, pos, size, big, pad, sign, ignored);
      case StringMessage(size, charset, pad) => StringAt(data, pos, size, charset, pad);
      case OpaqueMessage(size, tag) => BytesAt(data, pos, OPAQUE, tag, size);
      case ReferenceMessage(size) =>
        Seqs.Empty(Start(1, REFERENCE, 0, 0, size));
        BytesAt(data, pos, REFERENCE, [], size);
    }
  }

  lemma BaseAt(m: Message, data: seq<u8>, pos: nat)
    requires WellFormed(m) && Seqs.At(data, pos, Print(m)) && (m.EnumMessage? || m.VlenMessage? || m.VlenStringMessage?)
    ensures Seqs.At(data, pos + 8, Print(m.base))
  {
    hide Start, Seqs.At, PrintNames, PrintValues;
    if m.EnumMessage? {
      var n, size := |m.members|, SizeOf(m.base);
      var tail := PrintNames(m.members, m.version) + PrintValues(m.members, size, m.base.big);
      Seqs.AtSplit(data, pos, Start(m.version, ENUM, n % 0x100, n / 0x100, size), Print(m.base) + tail);
      Seqs.AtSplit(data, pos + 8, Print(m.base), tail);
    } else {
      Seqs.AtSplit(data, pos, Start(1, VLEN, if m.VlenMessage? then 0 else 1, if m.VlenMessage? then 0 else m.charset, 16), Print(m.base));
    }
  }

  lemma PartsOfCompoundAt(m: Message, data: seq<u8>, pos: nat)
    requires WellFormed(m) && Seqs.At(data, pos, Print(m)) && m.CompoundMessage?
    ensures Seqs.At(data, pos + 8, PrintParts(m.parts, m.version, m.width)) && OffsetsFit(m.parts, m.version, m.width, m.size)
  {
    hide Start, Seqs.At, PrintParts;
    var n := |m.parts|;
    Seqs.AtSplit(data, pos, Start(m.version, COMPOUND, n % 0x100, n / 0x100, m.size), PrintParts(m.parts, m.version, m.width));
    BytesWide(m.size, m.width);
  }

  /** Wherever a message lies, reading from there gives its type, exactly the byte orders it says, and
      the position behind it. */
  lemma {:induction false} ReadOfPrinted(m: Message, data: seq<u8>, pos: nat)
    requires WellFormed(m) && Seqs.At(data, pos, Print(m))
    ensures Decode(data, pos) == Success(Decoded(TypeOf(m), OrderOf(m), pos + |Print(m)|))
    decreases m
  {
    hide Decode, Seqs.At, Print, TypeOf, OrderOf;
    match m {
      case EnumMessage(_, base, _) =>
        BaseAt(m, data, pos);
        ReadOfPrinted(base, data, pos + 8);
        EnumAt(data, pos, m);
      case CompoundMessage(version, size, width, parts) =>
        PartsOfCompoundAt(m, data, pos);
        PartsAt(data, pos + 8, parts, version, width, 0, size);
        CompoundAt(data, pos, m);
      case ArrayMessage(_, _, _, base) =>
        DimensionsAt(data, pos, m);
        var next := pos + |Print(m)| - |Print(base)|;
        ReadOfPrinted(base, data, next);
        ArrayAt(data, pos, m, next);
      case VlenMessage(base) =>
        BaseAt(m, data, pos);
        ReadOfPrinted(base, data, pos + 8);
        VlenAt(data, pos, m);
      case VlenStringMessage(_, base) =>
        BaseAt(m, data, pos);
        ReadOfPrinted(base, data, pos + 8);
        VlenStringAt(data, pos, m);
      case _ => LeafAt(m, data, pos);
    }
  }
}
