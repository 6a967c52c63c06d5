/** Writing and reading datatype messages through a buffer and a cursor. */
module DatatypeCodec {
  import opened Wrappers
  import opened Bytes
  import opened Datatype
  import opened FormatBuf
  import Seqs

  // ----- writing

  method WriteHead(b: Buf, version: u8, class_: u8, bits: nat, size: nat)
    requires version <= 3 && class_ <= 10
    modifies b
    ensures b.bytes == old(b.bytes) + Head(version, class_, bits, size)
  {
    hide Le;
    ghost var start := b.bytes;
    b.Raw([version * 16 + class_]);
    b.Put(bits, 3);
    b.Put(size, 4);
    Seqs.Assoc(start + [version * 16 + class_], Le(bits, 3), Le(size, 4));
    Seqs.Assoc(start, [version * 16 + class_], Le(bits, 3) + Le(size, 4));
    Seqs.Assoc([version * 16 + class_], Le(bits, 3), Le(size, 4));
  }

  method WriteInt(b: Buf, size: nat, signed: bool)
    modifies b
    ensures b.bytes == old(b.bytes) + EncodeInt(size, signed)
  {
    hide Le, Head;
    ghost var start := b.bytes;
    WriteHead(b, 1, INT, if signed then 8 else 0, size);
    b.Put(0, 2);
    b.Put(size * 8, 2);
    FourParts(start, Head(1, INT, if signed then 8 else 0, size), Le(0, 2), Le(size * 8, 2));
  }

  lemma FourParts(a: seq<u8>, b: seq<u8>, c: seq<u8>, d: seq<u8>)
    ensures a + b + c + d == a + (b + (c + d))
  {
  }

  method WriteFloat(b: Buf, size: nat)
    modifies b
    ensures b.bytes == old(b.bytes) + EncodeFloat(size)
  {
    hide Le, Head;
    ghost var start := b.bytes;
    if size == 4 {
      WriteHead(b, 1, FLOAT, 0x20 + 31 * 0x100, 4);
      b.Put(0, 2);
      b.Put(32, 2);
      b.Raw([23, 8, 0, 23]);
      b.Put(127, 4);
      SixParts(start, Head(1, FLOAT, 0x20 + 31 * 0x100, 4), Le(0, 2), Le(32, 2), [23, 8, 0, 23], Le(127, 4));
    } else {
      WriteHead(b, 1, FLOAT, 0x20 + 63 * 0x100, 8);
      b.Put(0, 2);
      b.Put(64, 2);
      b.Raw([52, 11, 0, 52]);
      b.Put(1023, 4);
      SixParts(start, Head(1, FLOAT, 0x20 + 63 * 0x100, 8), Le(0, 2), Le(64, 2), [52, 11, 0, 52], Le(1023, 4));
    }
  }

  lemma SixParts(a: seq<u8>, b: seq<u8>, c: seq<u8>, d: seq<u8>, e: seq<u8>, f: seq<u8>)
    ensures a + b + c + d + e + f == a + (b + (c + d + e + f))
  {
  }

  method WriteName(b: Buf, name: seq<u8>)
    modifies b
    ensures b.bytes == old(b.bytes) + PaddedName(name)
  {
    ghost var start := b.bytes;
    var at := |b.bytes|;
    b.Raw(name);
    b.Put(0, 1);
    var written := |b.bytes| - at;
    b.Zeros(Align8(written) - written);
    assert Le(0, 1) == [0];
    FourParts(start, name, [0], Zeroed(Align8(|name| + 1) - (|name| + 1)));
  }

  method WriteEnum(b: Buf, size: nat, signed: bool, members: seq<Member>)
    modifies b
    ensures b.bytes == old(b.bytes) + EncodeEnum(size, signed, members)
  {
    hide Le, Head, EncodeInt, PaddedName;
    ghost var start := b.bytes;
    WriteHead(b, 1, ENUM, |members| % 0x1_0000, size);
    WriteInt(b, size, signed);
    ghost var head, base := Head(1, ENUM, |members| % 0x1_0000, size), EncodeInt(size, signed);
    assert members[0..] == members;
    for i := 0 to |members|
      invariant b.bytes + EncodeNames(members[i..]) == start + head + base + EncodeNames(members)
    {
      assert members[i..][1..] == members[i + 1..];
      Seqs.Assoc(b.bytes, PaddedName(members[i].name), EncodeNames(members[i + 1..]));
      WriteName(b, members[i].name);
    }
    Seqs.Empty(b.bytes);
    ghost var named := b.bytes;
    for i := 0 to |members|
      invariant b.bytes + EncodeValues(members[i..], size) == named + EncodeValues(members, size)
    {
      assert members[i..][1..] == members[i + 1..];
      Seqs.Assoc(b.bytes, Le(members[i].value, size), EncodeValues(members[i + 1..], size));
      b.Put(members[i].value, size);
    }
    Seqs.Empty(b.bytes);
    EnumParts(start, head, base, EncodeNames(members), EncodeValues(members, size));
  }

  lemma EnumParts(a: seq<u8>, b: seq<u8>, c: seq<u8>, d: seq<u8>, e: seq<u8>)
    ensures a + b + c + d + e == a + (b + (c + (d + e)))
  {
  }

  function InsertField(f: Field, sorted: seq<Field>): (r: seq<Field>)
    ensures |r| == |sorted| + 1
  {
    if sorted == [] || f.index <= sorted[0].index then [f] + sorted else [sorted[0]] + InsertField(f, sorted[1..])
  }

  function SortFields(fields: seq<Field>): (r: seq<Field>)
    ensures |r| == |fields|
  {
    if fields == [] then [] else InsertField(fields[0], SortFields(fields[1..]))
  }

  function PartOf(f: Field): (nat, seq<u8>) {
    (f.index, EncodeField(f.name, f.offset, Encode(f.ty)))
  }

  lemma {:induction false} InsertEncoded(f: Field, sorted: seq<Field>)
    ensures EncodeFields(InsertField(f, sorted)) == Insert(PartOf(f), EncodeFields(sorted))
    decreases |sorted|
  {
    hide EncodeField, Encode;
    if sorted == [] || f.index <= sorted[0].index {
      Seqs.HeadOf(f, sorted);
    } else {
      InsertEncoded(f, sorted[1..]);
      Seqs.HeadOf(sorted[0], InsertField(f, sorted[1..]));
      Seqs.HeadOf(PartOf(sorted[0]), EncodeFields(sorted[1..]));
    }
  }

  lemma {:induction false} SortEncoded(fields: seq<Field>)
    ensures EncodeFields(SortFields(fields)) == SortByIndex(EncodeFields(fields))
    decreases |fields|
  {
    hide EncodeField, Encode;
    if fields != [] {
      SortEncoded(fields[1..]);
      InsertEncoded(fields[0], SortFields(fields[1..]));
      Seqs.HeadOf(PartOf(fields[0]), EncodeFields(fields[1..]));
    }
  }

  lemma {:induction false} InsertMembers(f: Field, sorted: seq<Field>)
    ensures forall g :: g in InsertField(f, sorted) ==> g == f || g in sorted
  {
    if sorted != [] && f.index > sorted[0].index {
      InsertMembers(f, sorted[1..]);
    }
  }

  lemma {:induction false} SortMembers(fields: seq<Field>)
    ensures forall g :: g in SortFields(fields) ==> g in fields
  {
    if fields != [] {
      SortMembers(fields[1..]);
      InsertMembers(fields[0], SortFields(fields[1..]));
    }
  }

  method WriteType(b: Buf, t: Type)
    modifies b
    ensures b.bytes == old(b.bytes) + Encode(t)
    decreases t, 1
  {
    hide Le, Head, EncodeInt, EncodeFloat, EncodeEnum;
    ghost var start := b.bytes;
    match t {
      case Integer(size) => WriteInt(b, size, true);
      case Unsigned(size) => WriteInt(b, size, false);
      case Float(size) => WriteFloat(b, size);
      case Boolean => WriteEnum(b, 1, true, BOOL_MEMBERS);
      case Enum(size, signed, members) => WriteEnum(b, size, signed, members);
      case Compound(size, fields) => WriteCompound(b, t, size, fields);
      case FixedArray(base, n) => WriteArray(b, base, n);
      case FixedAscii(n) => WriteHead(b, 1, STRING, 0x01, n);
      case FixedUnicode(n) => WriteHead(b, 1, STRING, 0x11, n);
      case VarLenArray(base) =>
        WriteHead(b, 1, VLEN, 0, 16);
        WriteType(b, base);
        Seqs.Assoc(start, Head(1, VLEN, 0, 16), Encode(base));
      case VarLenAscii =>
        WriteHead(b, 1, VLEN, 0x0001, 16);
        WriteInt(b, 1, false);
        Seqs.Assoc(start, Head(1, VLEN, 0x0001, 16), EncodeInt(1, false));
      case VarLenUnicode =>
        WriteHead(b, 1, VLEN, 0x0101, 16);
        WriteInt(b, 1, false);
        Seqs.Assoc(start, Head(1, VLEN, 0x0101, 16), EncodeInt(1, false));
    }
  }

  method WriteArray(b: Buf, base: Type, n: nat)
    modifies b
    ensures b.bytes == old(b.bytes) + Encode(FixedArray(base, n))
    decreases base, 2
  {
    hide Le, Head;
    ghost var start := b.bytes;
    WriteHead(b, 2, ARRAY, 0, Times(DiskSize(base), n));
    b.Raw([1, 0, 0, 0]);
    b.Put(n, 4);
    b.Put(0, 4);
    ghost var head := b.bytes;
    WriteType(b, base);
    SixParts(start, Head(2, ARRAY, 0, Times(DiskSize(base), n)), [1, 0, 0, 0], Le(n, 4), Le(0, 4), Encode(base));
  }

  method WriteCompound(b: Buf, ghost t: Type, size: nat, fields: seq<Field>)
    requires t == Compound(size, fields)
    modifies b
    ensures b.bytes == old(b.bytes) + Encode(t)
    decreases t, 0
  {
    hide Le, Head, EncodeField;
    ghost var start := b.bytes;
    WriteHead(b, 1, COMPOUND, |fields| % 0x1_0000, size);
    var sorted := SortFields(fields);
    SortEncoded(fields);
    SortMembers(fields);
    ghost var head := Head(1, COMPOUND, |fields| % 0x1_0000, size);
    assert sorted[0..] == sorted;
    for i := 0 to |sorted|
      invariant b.bytes + Joined(EncodeFields(sorted[i..])) == start + head + Joined(EncodeFields(sorted))
    {
      var f := sorted[i];
      assert f in fields && f < t;
      NextPart(b.bytes, sorted, i);
      WriteField(b, f);
    }
    Seqs.Empty(b.bytes);
    Seqs.Assoc(start, head, Joined(EncodeFields(sorted)));
  }

  lemma NextPart(bytes: seq<u8>, sorted: seq<Field>, i: nat)
    requires i < |sorted|
    ensures bytes + EncodeField(sorted[i].name, sorted[i].offset, Encode(sorted[i].ty)) + Joined(EncodeFields(sorted[i + 1..]))
            == bytes + Joined(EncodeFields(sorted[i..]))
  {
    hide EncodeField, Encode;
    assert sorted[i..][1..] == sorted[i + 1..];
    Seqs.HeadOf(PartOf(sorted[i]), EncodeFields(sorted[i + 1..]));
    Seqs.Assoc(bytes, EncodeField(sorted[i].name, sorted[i].offset, Encode(sorted[i].ty)), Joined(EncodeFields(sorted[i + 1..])));
  }

  method WriteField(b: Buf, f: Field)
    modifies b
    ensures b.bytes == old(b.bytes) + EncodeField(f.name, f.offset, Encode(f.ty))
    decreases f, 2
  {
    hide Le, PaddedName, Encode;
    ghost var start := b.bytes;
    WriteName(b, f.name);
    b.Put(f.offset, 4);
    b.Zeros(28);
    WriteType(b, f.ty);
    EnumParts(start, PaddedName(f.name), Le(f.offset, 4), Zeroed(28), Encode(f.ty));
  }

  // ----- reading

  /** A reader's result and final position against what the specification says. */
  ghost predicate Reads<T(!new)>(r: Result<T, FormatError>, pos: nat, spec: Result<(T, nat), FormatError>) {
    match spec
    case Failure(e) => r == Failure(e)
    case Success((value, next)) => r == Success(value) && pos == next
  }

  ghost predicate ReadsType(r: Result<(Type, OrderTree), FormatError>, pos: nat, spec: Result<Decoded, FormatError>) {
    match spec
    case Failure(e) => r == Failure(e)
    case Success(d) => r == Success((d.ty, d.order)) && pos == d.pos
  }

  /** What is read after some elements have been read already. */
  ghost function After<T>(done: seq<T>, rest: Result<(seq<T>, nat), FormatError>): Result<(seq<T>, nat), FormatError> {
    match rest
    case Failure(e) => Failure(e)
    case Success((more, next)) => Success((done + more, next))
  }

  lemma AfterNone<T>(rest: Result<(seq<T>, nat), FormatError>)
    ensures After([], rest) == rest
  {
    if rest.Success? {
      assert [] + rest.value.0 == rest.value.0;
    }
  }

  lemma AfterOne<T>(done: seq<T>, x: T, rest: Result<(seq<T>, nat), FormatError>)
    ensures After(done, After([x], rest)) == After(done + [x], rest)
  {
    if rest.Success? {
      Seqs.Assoc(done, [x], rest.value.0);
    }
  }

  method NextName(c: Cursor, version: nat) returns (r: Result<seq<u8>, FormatError>)
    modifies c
    ensures Reads(r, c.pos, ReadPadded(c.data, old(c.pos), version))
  {
    var start := c.pos;
    var name: seq<u8> := [];
    AfterNone(ReadName(c.data, start));
    while true
      invariant start <= c.pos && |name| == c.pos - start
      invariant After(name, ReadName(c.data, c.pos)) == ReadName(c.data, start)
      decreases Left(c.data, c.pos)
    {
      ghost var at := c.pos;
      var byte := c.Byte();
      if byte.Failure? {
        return Failure(byte.error);
      }
      if byte.value == 0 {
        Seqs.Empty(name);
        break;
      }
      assert ReadName(c.data, at) == After([byte.value], ReadName(c.data, at + 1));
      AfterOne(name, byte.value, ReadName(c.data, at + 1));
      name := name + [byte.value];
    }
    if version < 3 {
      var consumed := c.pos - start;
      c.Skip(Align8(consumed) - consumed);
    }
    r := Success(name);
  }

  method NextNames(c: Cursor, n: nat, version: nat) returns (r: Result<seq<seq<u8>>, FormatError>)
    modifies c
    ensures Reads(r, c.pos, ReadNames(c.data, old(c.pos), n, version))
  {
    hide ReadPadded;
    var names: seq<seq<u8>> := [];
    ghost var start := c.pos;
    AfterNone(ReadNames(c.data, start, n, version));
    for i := 0 to n
      invariant After(names, ReadNames(c.data, c.pos, n - i, version)) == ReadNames(c.data, start, n, version)
    {
      ghost var at := c.pos;
      var name := NextName(c, version);
      if name.Failure? {
        return Failure(name.error);
      }
      assert ReadNames(c.data, at, n - i, version) == After([name.value], ReadNames(c.data, c.pos, n - i - 1, version));
      AfterOne(names, name.value, ReadNames(c.data, c.pos, n - i - 1, version));
      names := names + [name.value];
    }
    Seqs.Empty(names);
    r := Success(names);
  }

  method NextMembers(c: Cursor, names: seq<seq<u8>>, size: nat, swapped: bool) returns (r: Result<seq<Member>, FormatError>)
    modifies c
    ensures Reads(r, c.pos, ReadMembers(c.data, old(c.pos), names, size, swapped))
  {
    hide FromLe, Reversed;
    var members: seq<Member> := [];
    ghost var start := c.pos;
    AfterNone(ReadMembers(c.data, start, names, size, swapped));
    assert names[0..] == names;
    for i := 0 to |names|
      invariant After(members, ReadMembers(c.data, c.pos, names[i..], size, swapped)) == ReadMembers(c.data, start, names, size, swapped)
    {
      ghost var at := c.pos;
      var raw := c.Take(size);
      if raw.Failure? {
        return Failure(raw.error);
      }
      var m := Member(names[i], FromLe(if swapped then Reversed(raw.value) else raw.value));
      assert names[i..][1..] == names[i + 1..];
      assert ReadMembers(c.data, at, names[i..], size, swapped)
          == After([m], ReadMembers(c.data, c.pos, names[i + 1..], size, swapped));
      AfterOne(members, m, ReadMembers(c.data, c.pos, names[i + 1..], size, swapped));
      members := members + [m];
    }
    Seqs.Empty(members);
    r := Success(members);
  }

  method NextDims(c: Cursor, n: nat) returns (r: Result<seq<nat>, FormatError>, total: nat)
    modifies c
    ensures Reads(r, c.pos, ReadDims(c.data, old(c.pos), n))
    ensures r.Success? ==> total == ProductOf(r.value)
  {
    hide UintAt;
    var dims: seq<nat> := [];
    total := 1;
    ghost var start := c.pos;
    AfterNone(ReadDims(c.data, start, n));
    for i := 0 to n
      invariant After(dims, ReadDims(c.data, c.pos, n - i)) == ReadDims(c.data, start, n)
      invariant total == ProductOf(dims)
    {
      ghost var at := c.pos;
      var d := c.Uint(4);
      if d.Failure? {
        return Failure(d.error), total;
      }
      assert ReadDims(c.data, at, n - i) == After([d.value], ReadDims(c.data, c.pos, n - i - 1));
      AfterOne(dims, d.value, ReadDims(c.data, c.pos, n - i - 1));
      total := Times(total, d.value);
      assert (dims + [d.value])[..|dims|] == dims;
      dims := dims + [d.value];
    }
    Seqs.Empty(dims);
    r := Success(dims);
  }

  /** The eight bytes that every message starts with. */
  ghost predicate HeadIs(data: seq<u8>, start: nat, class_: u8, version: nat, b0: u8, b1: u8, size: nat) {
    && start + 8 <= |data| && data[start] as int % 16 == class_ as int && version == data[start] as int / 16
    && b0 == data[start + 1] && b1 == data[start + 2] && size == FromLe(data[start + 4..start + 8])
  }

  method ReadType(c: Cursor) returns (r: Result<(Type, OrderTree), FormatError>)
    modifies c
    ensures ReadsType(r, c.pos, Decode(c.data, old(c.pos)))
    decreases Left(c.data, c.pos), 0
  {
    hide FromLe, DecodeInt, DecodeEnum, DecodeFields;
    ghost var start := c.pos;
    var head := c.Take(4);
    if head.Failure? {
      return Failure(head.error);
    }
    var size := c.Uint(4);
    if size.Failure? {
      return Failure(size.error);
    }
    var b := head.value;
    var version: nat, class_ := b[0] as int / 16, (b[0] as int % 16) as u8;
    assert HeadIs(c.data, start, class_, version, b[1], b[2], size.value);
    var count: nat := b[1] as int + b[2] as int * 0x100;
    if class_ == INT {
      r := ReadInt(c, b[1], size.value);
    } else if class_ == FLOAT {
      r := ReadFloat(c, start, version, b[1], b[2], size.value);
    } else if class_ == STRING {
      r := Success((if b[1] as int / 16 == 1 then FixedUnicode(size.value) else FixedAscii(size.value), NoOrder));
    } else if class_ == ENUM {
      r := ReadEnum(c, start, version, b[1], b[2], size.value);
    } else if class_ == COMPOUND {
      r := ReadCompound(c, start, version, b[1], b[2], size.value);
    } else if class_ == ARRAY {
      r := ReadArray(c, start, version, b[1], b[2], size.value);
    } else if class_ == VLEN {
      r := ReadVlen(c, start, version, b[1], b[2], size.value);
    } else if class_ == BITFIELD {
      r := ReadInt(c, b[1] - b[1] / 8 % 2 * 8, size.value);
    } else if class_ == OPAQUE || class_ == REFERENCE {
      if class_ == OPAQUE {
        c.Skip(b[1] as int);
      }
      r := Success((FixedArray(Unsigned(1), size.value), NoOrder));
    } else {
      r := Failure(BadClass);
    }
  }

  /** Bit 0 is the byte order and bit 3 the sign; bit offset and precision are skipped. */
  method ReadInt(c: Cursor, bits: u8, size: nat) returns (r: Result<(Type, OrderTree), FormatError>)
    modifies c
    ensures ReadsType(r, c.pos, DecodeInt(c.data, old(c.pos), bits, size))
  {
    var skipped := c.Take(4);
    if skipped.Failure? {
      return Failure(skipped.error);
    }
    if !IntSize(size) {
      return Failure(BadSize);
    }
    r := Success((if bits as int / 8 % 2 == 1 then Integer(size) else Unsigned(size),
                  if bits as int % 2 == 1 then SwapLeaf(size) else NoOrder));
  }

  method ReadFloat(c: Cursor, ghost start: nat, ghost version: nat, b0: u8, ghost b1: u8, size: nat)
    returns (r: Result<(Type, OrderTree), FormatError>)
    requires HeadIs(c.data, start, FLOAT, version, b0, b1, size) && c.pos == start + 8
    modifies c
    ensures ReadsType(r, c.pos, Decode(c.data, start))
  {
    hide FromLe, DecodeInt, DecodeEnum, DecodeFields, ReadDims;
    var skipped := c.Take(12);
    if skipped.Failure? {
      return Failure(skipped.error);
    }
    if size != 4 && size != 8 {
      return Failure(BadSize);
    }
    r := Success((Float(size), if b0 as int % 2 == 1 then SwapLeaf(size) else NoOrder));
  }

  method ReadEnum(c: Cursor, ghost start: nat, version: nat, b0: u8, b1: u8, ghost size: nat)
    returns (r: Result<(Type, OrderTree), FormatError>)
    requires HeadIs(c.data, start, ENUM, version, b0, b1, size) && c.pos == start + 8
    modifies c
    ensures ReadsType(r, c.pos, Decode(c.data, start))
    decreases Left(c.data, c.pos), 1
  {
    hide FromLe, DecodeInt, DecodeFields, ReadDims, ReadNames, ReadMembers, IsBoolEnum, IntSize;
    var read := ReadType(c);
    if read.Failure? {
      return Failure(read.error);
    }
    var (base, order) := read.value;
    if !(base.Integer? || base.Unsigned?) {
      return Failure(BadEnumBase);
    }
    var names := NextNames(c, b0 as int + b1 as int * 0x100, version);
    if names.Failure? {
      return Failure(names.error);
    }
    var members := NextMembers(c, names.value, base.size, order != NoOrder);
    if members.Failure? {
      return Failure(members.error);
    }
    if !IntSize(base.size) {
      return Failure(BadSize);
    }
    r := Success((if IsBoolEnum(base.size, members.value) then Boolean else Enum(base.size, base.Integer?, members.value), order));
  }

  ghost function AfterFields(fields: seq<Field>, orders: seq<(nat, OrderTree)>, rest: Result<FieldList, FormatError>): Result<FieldList, FormatError> {
    match rest
    case Failure(e) => Failure(e)
    case Success(list) => Success(FieldList(fields + list.fields, orders + list.orders, list.pos))
  }

  lemma AfterField(fields: seq<Field>, orders: seq<(nat, OrderTree)>, f: Field, o: (nat, OrderTree), rest: Result<FieldList, FormatError>)
    ensures AfterFields(fields, orders, AfterFields([f], [o], rest)) == AfterFields(fields + [f], orders + [o], rest)
  {
    if rest.Success? {
      Seqs.Assoc(fields, [f], rest.value.fields);
      Seqs.Assoc(orders, [o], rest.value.orders);
    }
  }

  method ReadCompound(c: Cursor, ghost start: nat, version: nat, b0: u8, b1: u8, size: nat)
    returns (r: Result<(Type, OrderTree), FormatError>)
    requires HeadIs(c.data, start, COMPOUND, version, b0, b1, size) && c.pos == start + 8
    modifies c
    ensures ReadsType(r, c.pos, Decode(c.data, start))
    decreases Left(c.data, c.pos), 2
  {
    hide FromLe, DecodeInt, DecodeEnum, DecodeFields, ReadDims;
    var fields, orders := ReadFields(c, b0 as int + b1 as int * 0x100, version, size);
    if fields.Failure? {
      return Failure(fields.error);
    }
    r := Success((Compound(size, fields.value), FromParts(orders)));
  }

  method ReadFields(c: Cursor, n: nat, version: nat, size: nat) returns (r: Result<seq<Field>, FormatError>, orders: seq<(nat, OrderTree)>)
    modifies c
    ensures match DecodeFields(c.data, old(c.pos), n, 0, version, size)
            case Failure(e) => r == Failure(e)
            case Success(list) => r == Success(list.fields) && orders == list.orders && c.pos == list.pos
    decreases Left(c.data, c.pos), 1
  {
    hide ReadPadded, Decode, DecodeFields, UintAt;
    ghost var start := c.pos;
    var fields: seq<Field> := [];
    orders := [];
    NoFieldsYet(DecodeFields(c.data, start, n, 0, version, size));
    for i := 0 to n
      invariant start <= c.pos
      invariant AfterFields(fields, orders, DecodeFields(c.data, c.pos, n - i, i, version, size))
             == DecodeFields(c.data, start, n, 0, version, size)
    {
      ghost var at := c.pos;
      var field, order := ReadField(c, i, version, size, n - i);
      if field.Failure? {
        return Failure(field.error), orders;
      }
      AfterField(fields, orders, field.value, (field.value.offset, order), DecodeFields(c.data, c.pos, n - i - 1, i + 1, version, size));
      fields, orders := fields + [field.value], orders + [(field.value.offset, order)];
    }
    NoFieldsLeft(c.data, c.pos, n, version, size);
    Seqs.Empty(fields);
    Seqs.Empty(orders);
    r := Success(fields);
  }

  lemma NoFieldsYet(rest: Result<FieldList, FormatError>)
    ensures AfterFields([], [], rest) == rest
  {
    if rest.Success? {
      assert [] + rest.value.fields == rest.value.fields && [] + rest.value.orders == rest.value.orders;
    }
  }

  lemma NoFieldsLeft(data: seq<u8>, pos: nat, index: nat, version: nat, size: nat)
    ensures DecodeFields(data, pos, 0, index, version, size) == Success(FieldList([], [], pos))
  {
  }

  method ReadField(c: Cursor, index: nat, version: nat, size: nat, ghost n: nat) returns (r: Result<Field, FormatError>, order: OrderTree)
    requires n > 0
    modifies c
    ensures r.Failure? ==> DecodeFields(c.data, old(c.pos), n, index, version, size) == Failure(r.error)
    ensures r.Success? ==> (
      && old(c.pos) <= c.pos
      && DecodeFields(c.data, old(c.pos), n, index, version, size)
         == AfterFields([r.value], [(r.value.offset, order)], DecodeFields(c.data, c.pos, n - 1, index + 1, version, size)))
    decreases Left(c.data, c.pos), 0
  {
    hide ReadPadded, Decode, UintAt, BytesFor;
    order := NoOrder;
    var name := NextName(c, version);
    if name.Failure? {
      return Failure(name.error), order;
    }
    var offset := c.Uint(if version >= 3 then BytesFor(size) else 4);
    if offset.Failure? {
      return Failure(offset.error), order;
    }
    if version == 1 {
      c.Skip(28);
    }
    var ty := ReadType(c);
    if ty.Failure? {
      return Failure(ty.error), order;
    }
    order := ty.value.1;
    r := Success(Field(name.value, ty.value.0, offset.value, index));
  }

  method ReadArray(c: Cursor, ghost start: nat, version: nat, ghost b0: u8, ghost b1: u8, ghost size: nat)
    returns (r: Result<(Type, OrderTree), FormatError>)
    requires HeadIs(c.data, start, ARRAY, version, b0, b1, size) && c.pos == start + 8
    modifies c
    ensures ReadsType(r, c.pos, Decode(c.data, start))
    decreases Left(c.data, c.pos), 1
  {
    hide FromLe, DecodeInt, DecodeEnum, DecodeFields, ReadDims, ProductOf, DiskSize;
    var ndim := c.Byte();
    if ndim.Failure? {
      return Failure(ndim.error);
    }
    if version == 2 {
      c.Skip(3);
    }
    var dims, total := NextDims(c, ndim.value as int);
    if dims.Failure? {
      return Failure(dims.error);
    }
    if version == 2 {
      c.Skip(4 * ndim.value as int);
    }
    var read := ReadType(c);
    if read.Failure? {
      return Failure(read.error);
    }
    var (base, inner) := read.value;
    var stride := DiskSize(base);
    var desc := base;
    for i := |dims.value| downto 0
      invariant desc == Wrapped(base, dims.value[i..])
    {
      assert dims.value[i..][1..] == dims.value[i + 1..];
      desc := FixedArray(desc, dims.value[i]);
    }
    assert dims.value[0..] == dims.value;
    r := Success((desc, if inner == NoOrder then NoOrder else ArrayOrder(total, stride, inner)));
  }

  method ReadVlen(c: Cursor, ghost start: nat, ghost version: nat, b0: u8, b1: u8, ghost size: nat)
    returns (r: Result<(Type, OrderTree), FormatError>)
    requires HeadIs(c.data, start, VLEN, version, b0, b1, size) && c.pos == start + 8
    modifies c
    ensures ReadsType(r, c.pos, Decode(c.data, start))
    decreases Left(c.data, c.pos), 1
  {
    hide FromLe, DecodeInt, DecodeEnum, DecodeFields, ReadDims, DiskSize;
    var read := ReadType(c);
    if read.Failure? {
      return Failure(read.error);
    }
    var (base, inner) := read.value;
    if b0 as int % 16 == 1 {
      return Success((if b1 as int % 16 == 1 then VarLenUnicode else VarLenAscii, NoOrder));
    }
    r := Success((VarLenArray(base), if inner == NoOrder then NoOrder else VarLenOrder(DiskSize(base), inner)));
  }
}
