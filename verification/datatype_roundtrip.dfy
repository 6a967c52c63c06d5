/** Reading a written datatype message gives the descriptor back. */
module DatatypeRoundTrip {
  import opened Wrappers
  import opened Bytes
  import opened Datatype
  import opened DatatypeMessage
  import opened FormatBuf
  import Seqs

  // ----- descriptors that messages can carry

  predicate NulFree(name: seq<u8>) {
    0 !in name
  }

  ghost predicate RepresentableMember(m: Member, size: nat) {
    NulFree(m.name) && m.value < Pow2(8 * size)
  }

  /** Counts and sizes fit their fields, names hold no NUL, and fields stand in the order of their
      indices. */
  ghost predicate Representable(t: Type)
    decreases t
  {
    match t
    case Integer(size) => IntSize(size)
    case Unsigned(size) => IntSize(size)
    case Float(size) => size == 4 || size == 8
    case Boolean => true
    case Enum(size, _, members) =>
      IntSize(size) && |members| < 0x1_0000
      && forall i :: 0 <= i < |members| ==> RepresentableMember(members[i], size)
    case Compound(size, fields) => size < TWO_32 && |fields| < 0x1_0000 && RepresentableFields(fields, 0)
    case FixedArray(base, n) => n < TWO_32 && Representable(base)
    case FixedAscii(n) => n < TWO_32
    case FixedUnicode(n) => n < TWO_32
    case VarLenArray(base) => Representable(base)
    case VarLenAscii => true
    case VarLenUnicode => true
  }

  ghost predicate RepresentableFields(fields: seq<Field>, first: nat)
    decreases fields
  {
    fields != [] ==>
      && fields[0].index == first && fields[0].offset < TWO_32 && NulFree(fields[0].name)
      && Representable(fields[0].ty) && RepresentableFields(fields[1..], first + 1)
  }

  // ----- what is lost

  /** The boolean type is written as an enum, and every enum that is spelled like it is read as it. */
  function Normalized(t: Type): Type
    decreases t
  {
    match t
    case Enum(size, _, members) => if IsBoolEnum(size, members) then Boolean else t
    case Compound(size, fields) => Compound(size, NormalizedFields(fields))
    case FixedArray(base, n) => FixedArray(Normalized(base), n)
    case VarLenArray(base) => VarLenArray(Normalized(base))
    case _ => t
  }

  function NormalizedFields(fields: seq<Field>): (r: seq<Field>)
    ensures |r| == |fields|
    decreases fields
  {
    if fields == [] then []
    else [fields[0].(ty := Normalized(fields[0].ty))] + NormalizedFields(fields[1..])
  }

  /** An enum spelled like the boolean type, anywhere in the descriptor. */
  predicate HasBoolEnum(t: Type)
    decreases t
  {
    match t
    case Enum(size, _, members) => IsBoolEnum(size, members)
    case Compound(_, fields) => FieldsHaveBoolEnum(fields)
    case FixedArray(base, _) => HasBoolEnum(base)
    case VarLenArray(base) => HasBoolEnum(base)
    case _ => false
  }

  predicate FieldsHaveBoolEnum(fields: seq<Field>)
    decreases fields
  {
    fields != [] && (HasBoolEnum(fields[0].ty) || FieldsHaveBoolEnum(fields[1..]))
  }

  lemma {:induction false} NormalizedExactly(t: Type)
    ensures Normalized(t) == t <==> !HasBoolEnum(t)
    decreases t, 0
  {
    match t {
      case Compound(size, fields) => FieldsNormalizedExactly(fields);
      case FixedArray(base, n) => NormalizedExactly(base);
      case VarLenArray(base) => NormalizedExactly(base);
      case _ =>
    }
  }

  lemma {:induction false} FieldsNormalizedExactly(fields: seq<Field>)
    ensures NormalizedFields(fields) == fields <==> !FieldsHaveBoolEnum(fields)
    decreases fields, 0
  {
    hide Normalized, HasBoolEnum;
    if fields != [] {
      var first := fields[0].(ty := Normalized(fields[0].ty));
      NormalizedExactly(fields[0].ty);
      FieldsNormalizedExactly(fields[1..]);
      Seqs.HeadOf(first, NormalizedFields(fields[1..]));
      Seqs.HeadAndTail(fields);
    }
  }

  // ----- what is written is one of the messages

  function WordMessage(size: nat, signed: bool): Message {
    IntMessage(size, signed, false, 0, Le(0, 2) + Le(size * 8, 2))
  }

  /** The message of a descriptor: little-endian throughout. */
  function MessageOf(t: Type): Message
    decreases t
  {
    match t
    case Integer(size) => WordMessage(size, true)
    case Unsigned(size) => WordMessage(size, false)
    case Float(size) => FloatMessage(size, false, 0x10, if size == 4 then 31 else 63, FloatFields(size))
    case Boolean => EnumMessage(1, WordMessage(1, true), BOOL_MEMBERS)
    case Enum(size, signed, members) => EnumMessage(1, WordMessage(size, signed), members)
    case Compound(size, fields) => CompoundMessage(1, size, BytesFor(size), PartsOf(fields))
    case FixedArray(base, n) => ArrayMessage(2, Times(DiskSize(base), n) % TWO_32, [n], MessageOf(base))
    case FixedAscii(n) => StringMessage(n, 0, 1)
    case FixedUnicode(n) => StringMessage(n, 1, 1)
    case VarLenArray(base) => VlenMessage(MessageOf(base))
    case VarLenAscii => VlenStringMessage(0, WordMessage(1, false))
    case VarLenUnicode => VlenStringMessage(1, WordMessage(1, false))
  }

  function PartsOf(fields: seq<Field>): (parts: seq<Part>)
    ensures |parts| == |fields|
    decreases fields
  {
    if fields == [] then [] else [Part(fields[0].name, fields[0].offset, MessageOf(fields[0].ty))] + PartsOf(fields[1..])
  }

  lemma {:induction false} BytesForBounds(n: nat)
    ensures var width := BytesFor(n);
            width >= 1 && n < Pow2(8 * width) && (width > 1 ==> n >= Pow2(8 * (width - 1)))
  {
    assert Pow2(8) == 0x100;
    if n >= 0x100 {
      BytesForBounds(n / 0x100);
      Pow2Times256(BytesFor(n / 0x100));
      Pow2Times256(BytesFor(n / 0x100) - 1);
    }
  }

  lemma {:induction false} MessageWellFormed(t: Type)
    requires Representable(t)
    ensures WellFormed(MessageOf(t))
    decreases t, 1
  {
    hide Le, FloatFields, Pow2, IsBoolEnum, BytesFor, DiskSize, Times;
    match t {
      case Boolean => BoolMembers();
      case Enum(size, _, members) =>
        forall i | 0 <= i < |members| ensures MemberFits(members[i], size) {
          assert RepresentableMember(members[i], size);
        }
      case Compound(size, fields) =>
        BytesForBounds(size);
        PartsWellFormed(fields, 0);
      case FixedArray(base, n) => MessageWellFormed(base);
      case VarLenArray(base) => MessageWellFormed(base);
      case _ =>
    }
  }

  lemma {:induction false} PartsWellFormed(fields: seq<Field>, first: nat)
    requires RepresentableFields(fields, first)
    ensures WellFormedParts(PartsOf(fields)) && forall i :: 0 <= i < |fields| ==> PartsOf(fields)[i].offset < TWO_32
    decreases fields, 0
  {
    hide Representable, WellFormed;
    if fields != [] {
      MessageWellFormed(fields[0].ty);
      PartsWellFormed(fields[1..], first + 1);
      assert PartsOf(fields)[1..] == PartsOf(fields[1..]);
    }
  }

  // ----- the same bytes

  lemma HeadIsStart(version: u8, class_: u8, bits: nat, size: nat)
    requires version <= 3 && class_ <= 10 && bits < 0x1_0000
    ensures Head(version, class_, bits, size) == Start(version as int, class_, bits % 0x100, bits / 0x100, size % TWO_32)
  {
    LowBytes(bits);
    CutSize(size);
  }

  lemma LowBytes(bits: nat)
    requires bits < 0x1_0000
    ensures Le(bits, 3) == [bits % 0x100, bits / 0x100, 0]
  {
    assert Le(bits, 3) == [bits % 0x100] + Le(bits / 0x100, 2);
    assert Le(bits / 0x100, 2) == [bits / 0x100 % 0x100] + Le(bits / 0x100 / 0x100, 1);
    assert Le(0, 1) == [0] + Le(0, 0);
  }

  lemma CutSize(size: nat)
    ensures Le(size, 4) == Le(size % TWO_32, 4)
  {
    FromLeOfLe(size, 4);
    FromLeOfLe(size % TWO_32, 4);
    LeOfFromLe(Le(size, 4));
    LeOfFromLe(Le(size % TWO_32, 4));
    Pow2Constants();
  }

  lemma NamePrinted(name: seq<u8>)
    ensures PaddedName(name) == PrintName(name, 1)
  {
    Seqs.Assoc(name, [0], Zeroed(Align8(|name| + 1) - (|name| + 1)));
  }

  lemma {:induction false} NamesPrinted(members: seq<Member>)
    ensures EncodeNames(members) == PrintNames(members, 1)
  {
    hide PaddedName, PrintName;
    if members != [] {
      NamePrinted(members[0].name);
      NamesPrinted(members[1..]);
    }
  }

  lemma {:induction false} ValuesPrinted(members: seq<Member>, size: nat)
    ensures EncodeValues(members, size) == PrintValues(members, size, false)
  {
    hide Le;
    if members != [] {
      ValuesPrinted(members[1..], size);
    }
  }

  lemma WordPrinted(size: nat, signed: bool)
    requires IntSize(size)
    ensures EncodeInt(size, signed) == Print(WordMessage(size, signed))
  {
    hide Head, Start, Le;
    HeadIsStart(1, INT, if signed then 8 else 0, size);
  }

  lemma FloatPrinted(size: nat)
    requires size == 4 || size == 8
    ensures EncodeFloat(size) == Print(MessageOf(Float(size)))
  {
    hide Head, Start, FloatFields;
    HeadIsStart(1, FLOAT, if size == 4 then 0x20 + 31 * 0x100 else 0x20 + 63 * 0x100, size);
  }

  lemma EnumPrinted(size: nat, signed: bool, members: seq<Member>)
    requires WellFormed(EnumMessage(1, WordMessage(size, signed), members))
    ensures EncodeEnum(size, signed, members) == Print(EnumMessage(1, WordMessage(size, signed), members))
  {
    hide Head, Start, EncodeInt, EncodeNames, EncodeValues, PrintNames, PrintValues;
    WordPrinted(size, signed);
    NamesPrinted(members);
    ValuesPrinted(members, size);
    HeadIsStart(1, ENUM, |members|, size);
  }

  lemma {:induction false} SortedAlready(fields: seq<Field>, first: nat)
    requires RepresentableFields(fields, first)
    ensures SortByIndex(EncodeFields(fields)) == EncodeFields(fields)
    ensures fields != [] ==> EncodeFields(fields)[0].0 == first
    decreases |fields|
  {
    if fields != [] {
      hide EncodeField, Representable, Encode;
      SortedAlready(fields[1..], first + 1);
      var parts := EncodeFields(fields);
      assert parts[1..] == EncodeFields(fields[1..]);
      assert parts == [parts[0]] + parts[1..];
    }
  }

  lemma {:induction false} PartsPrinted(fields: seq<Field>, first: nat, width: nat)
    requires RepresentableFields(fields, first)
    ensures WellFormedParts(PartsOf(fields))
    ensures Joined(EncodeFields(fields)) == PrintParts(PartsOf(fields), 1, width)
    decreases fields, 0
  {
    hide Representable, WellFormed, PaddedName, PrintName, Le, Encode, Print;
    PartsWellFormed(fields, first);
    if fields != [] {
      var f := fields[0];
      var rest := PrintParts(PartsOf(fields[1..]), 1, width);
      assert PartsOf(fields)[1..] == PartsOf(fields[1..]) && EncodeFields(fields)[1..] == EncodeFields(fields[1..]);
      MessageWellFormed(f.ty);
      EncodeIsPrint(f.ty);
      PartsPrinted(fields[1..], first + 1, width);
      NamePrinted(f.name);
      var ty := Encode(f.ty);
      Seqs.Assoc(PaddedName(f.name), Le(f.offset, 4) + (Zeroed(28) + ty), rest);
      Seqs.Assoc(Le(f.offset, 4), Zeroed(28) + ty, rest);
      Seqs.Assoc(Zeroed(28), ty, rest);
    }
  }

  lemma NoPermutation()
    ensures Le(0, 4) == Zeroed(4)
  {
    assert Le(0, 3) == [0] + Le(0, 2) && Le(0, 2) == [0] + Le(0, 1) && Le(0, 1) == [0] + Le(0, 0);
  }

  lemma ArrayPrinted(base: Type, n: nat)
    requires n < TWO_32 && WellFormed(MessageOf(base)) && Encode(base) == Print(MessageOf(base))
    ensures Encode(FixedArray(base, n)) == Print(MessageOf(FixedArray(base, n)))
  {
    hide Head, Start, Le, WellFormed;
    var inner := Encode(base);
    HeadIsStart(2, ARRAY, 0, Times(DiskSize(base), n));
    assert PrintDims([n]) == Le(n, 4) by { assert [n][1..] == []; Seqs.Empty(Le(n, 4)); }
    NoPermutation();
    assert [1, 0, 0, 0] + Le(n, 4) + Le(0, 4) + inner == [1] + (Zeroed(3) + (Le(n, 4) + (Zeroed(4) + inner)));
  }

  lemma WordsPrinted(t: Type)
    requires Representable(t) && WellFormed(MessageOf(t))
    requires t.Integer? || t.Unsigned? || t.Float? || t.Boolean? || t.Enum?
    ensures Encode(t) == Print(MessageOf(t))
  {
    hide EncodeInt, EncodeFloat, EncodeEnum, Start, PrintNames, PrintValues, FloatFields;
    match t {
      case Integer(size) => WordPrinted(size, true);
      case Unsigned(size) => WordPrinted(size, false);
      case Float(size) => FloatPrinted(size);
      case Boolean => EnumPrinted(1, true, BOOL_MEMBERS);
      case Enum(size, signed, members) => EnumPrinted(size, signed, members);
    }
  }

  lemma CompoundPrinted(size: nat, fields: seq<Field>)
    requires size < TWO_32 && |fields| < 0x1_0000 && RepresentableFields(fields, 0)
    requires WellFormed(MessageOf(Compound(size, fields)))
    requires Joined(EncodeFields(fields)) == PrintParts(PartsOf(fields), 1, BytesFor(size))
    ensures Encode(Compound(size, fields)) == Print(MessageOf(Compound(size, fields)))
  {
    hide Head, Start, WellFormed, RepresentableFields, Joined, SortByIndex, PrintParts, EncodeFields, BytesFor;
    HeadIsStart(1, COMPOUND, |fields|, size);
    SortedAlready(fields, 0);
  }

  lemma StringPrinted(n: nat)
    requires n < TWO_32
    ensures Encode(FixedAscii(n)) == Print(MessageOf(FixedAscii(n))) && Encode(FixedUnicode(n)) == Print(MessageOf(FixedUnicode(n)))
  {
    hide Head, Start;
    HeadIsStart(1, STRING, 0x01, n);
    HeadIsStart(1, STRING, 0x11, n);
  }

  lemma VarLenPrinted(t: Type)
    requires t.VarLenArray? || t.VarLenAscii? || t.VarLenUnicode?
    requires WellFormed(MessageOf(t)) && (t.VarLenArray? ==> Encode(t.base) == Print(MessageOf(t.base)))
    ensures Encode(t) == Print(MessageOf(t))
  {
    hide Head, Start, EncodeInt, Le, WellFormed;
    WordPrinted(1, false);
    HeadIsStart(1, VLEN, if t.VarLenArray? then 0 else if t.VarLenAscii? then 0x0001 else 0x0101, 16);
  }

  /** What is written for a descriptor is its message. */
  lemma {:induction false} EncodeIsPrint(t: Type)
    requires Representable(t)
    ensures WellFormed(MessageOf(t)) && Encode(t) == Print(MessageOf(t))
    decreases t, 1
  {
    hide Encode, Print, WellFormed;
    MessageWellFormed(t);
    match t {
      case Compound(size, fields) =>
        PartsPrinted(fields, 0, BytesFor(size));
        CompoundPrinted(size, fields);
      case FixedArray(base, n) =>
        EncodeIsPrint(base);
        ArrayPrinted(base, n);
      case FixedAscii(n) => StringPrinted(n);
      case FixedUnicode(n) => StringPrinted(n);
      case VarLenArray(base) =>
        EncodeIsPrint(base);
        VarLenPrinted(t);
      case VarLenAscii => VarLenPrinted(t);
      case VarLenUnicode => VarLenPrinted(t);
      case _ => WordsPrinted(t);
    }
  }

  // ----- the same meaning

  lemma {:induction false} MessageMeans(t: Type)
    requires Representable(t)
    ensures TypeOf(MessageOf(t)) == Normalized(t) && !HasBig(MessageOf(t))
    decreases t, 1
  {
    hide IsBoolEnum, SaysBoolean, Le, FloatFields, DiskSize, Times;
    match t {
      case Boolean =>
        BoolMembers();
        BooleanSpelling(1, BOOL_MEMBERS);
      case Enum(size, _, members) => BooleanSpelling(size, members);
      case Compound(size, fields) => PartsMean(fields, 0);
      case FixedArray(base, n) =>
        MessageMeans(base);
        OneDimension(TypeOf(MessageOf(base)), n);
      case VarLenArray(base) => MessageMeans(base);
      case _ =>
    }
  }

  lemma OneDimension(base: Type, n: nat)
    ensures Nested(base, [n]) == FixedArray(base, n)
  {
    assert [n][..0] == [];
  }

  lemma {:induction false} PartsMean(fields: seq<Field>, first: nat)
    requires RepresentableFields(fields, first)
    ensures FieldsOf(PartsOf(fields), first) == NormalizedFields(fields) && !PartsHaveBig(PartsOf(fields))
    decreases fields, 0
  {
    hide Representable, TypeOf, HasBig, Normalized;
    if fields != [] {
      MessageMeans(fields[0].ty);
      PartsMean(fields[1..], first + 1);
      assert PartsOf(fields)[1..] == PartsOf(fields[1..]);
    }
  }

  /** Wherever the message of a representable descriptor lies, reading from there gives the
      normalized descriptor, no byte order to correct, and the position right behind the message. */
  lemma DecodeOfEncode(t: Type, data: seq<u8>, pos: nat)
    requires Representable(t) && Seqs.At(data, pos, Encode(t))
    ensures Decode(data, pos) == Success(Decoded(Normalized(t), NoOrder, pos + |Encode(t)|))
  {
    hide Decode, Encode, Print, Representable, MessageOf, Normalized, Seqs.At;
    EncodeIsPrint(t);
    MessageMeans(t);
    OrderExactly(MessageOf(t));
    ReadOfPrinted(MessageOf(t), data, pos);
  }

  lemma BoolMembers()
    ensures IsBoolEnum(1, BOOL_MEMBERS)
    ensures forall i :: 0 <= i < |BOOL_MEMBERS| ==> RepresentableMember(BOOL_MEMBERS[i], 1)
  {
    Pow2Constants();
  }

  /** The descriptor itself comes back if and only if no enum in it is spelled like the boolean type. */
  lemma ReadsBackExactly(t: Type, data: seq<u8>, pos: nat)
    requires Representable(t) && Seqs.At(data, pos, Encode(t))
    ensures Decode(data, pos) == Success(Decoded(t, NoOrder, pos + |Encode(t)|)) <==> !HasBoolEnum(t)
  {
    hide Decode, Encode, Representable, Seqs.At, Normalized, HasBoolEnum;
    DecodeOfEncode(t, data, pos);
    NormalizedExactly(t);
  }

  /** Descriptors with the same message differ at most in the spelling of boolean types. */
  lemma EncodeInjective(s: Type, t: Type)
    requires Representable(s) && Representable(t) && Encode(s) == Encode(t)
    ensures Normalized(s) == Normalized(t) && (!HasBoolEnum(s) && !HasBoolEnum(t) ==> s == t)
  {
    hide Decode, Encode, Representable, Normalized, HasBoolEnum;
    var data := Encode(s);
    assert data[0..|data|] == data;
    DecodeOfEncode(s, data, 0);
    DecodeOfEncode(t, data, 0);
    NormalizedExactly(s);
    NormalizedExactly(t);
  }

  /** For example, in either order of its members. */
  lemma BoolEnumLost(signed: bool, rest: seq<u8>)
    ensures var t := Enum(1, signed, [BOOL_MEMBERS[1], BOOL_MEMBERS[0]]);
            Decode(Encode(t) + rest, 0) == Success(Decoded(Boolean, NoOrder, |Encode(t)|))
  {
    hide Decode, EncodeEnum;
    var t := Enum(1, signed, [BOOL_MEMBERS[1], BOOL_MEMBERS[0]]);
    var data := Encode(t) + rest;
    assert data[0..|Encode(t)|] == Encode(t);
    BoolMembers();
    DecodeOfEncode(t, data, 0);
  }
}
