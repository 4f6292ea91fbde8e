/** Field tables and field arrays: `amqp_table.c`, section 4.2.5.5 of the AMQP 0-9-1 specification. */
module FieldTable {
  import opened Wire

  /** The kinds whose payload is one fixed-width integer (or a float kept as its bit pattern). */
  datatype ScalarKind = Boolean | I8 | U8 | I16 | U16 | I32 | U32 | I64 | U64 | F32 | F64 | Timestamp

  datatype Value =
    | Scalar(kind: ScalarKind, x: int)
    | Decimal(decimals: byte, units: nat)
    | Text(utf8: bool, text: Bytes)
    | Array(values: seq<Value>)
    | Table(entries: seq<Entry>)
    | Void
    | Unknown(tag: byte)

  datatype Entry = Entry(key: Bytes, value: Value)

  const TAG_DECIMAL: byte := 'D' as int
  const TAG_UTF8: byte := 'S' as int
  const TAG_BYTES: byte := 'x' as int
  const TAG_ARRAY: byte := 'A' as int
  const TAG_TABLE: byte := 'F' as int
  const TAG_VOID: byte := 'V' as int

  function Tag(kind: ScalarKind): byte {
    match kind
    case Boolean => 't' as int
    case I8 => 'b' as int
    case U8 => 'B' as int
    case I16 => 's' as int
    case U16 => 'u' as int
    case I32 => 'I' as int
    case U32 => 'i' as int
    case I64 => 'l' as int
    case U64 => 'L' as int
    case F32 => 'f' as int
    case F64 => 'd' as int
    case Timestamp => 'T' as int
  }

  function Width(kind: ScalarKind): nat {
    match kind
    case Boolean => 1
    case I8 => 1
    case U8 => 1
    case I16 => 2
    case U16 => 2
    case I32 => 4
    case U32 => 4
    case I64 => 8
    case U64 => 8
    case F32 => 4
    case F64 => 8
    case Timestamp => 8
  }

  predicate Signed(kind: ScalarKind) {
    kind.I8? || kind.I16? || kind.I32? || kind.I64?
  }

  /** The scalar kind of a kind octet; the inverse of `Tag`. */
  function KindOf(tag: byte): (r: Option<ScalarKind>)
    ensures r.Some? ==> Tag(r.value) == tag
  {
    if tag == 't' as int then Some(Boolean)
    else if tag == 'b' as int then Some(I8)
    else if tag == 'B' as int then Some(U8)
    else if tag == 's' as int then Some(I16)
    else if tag == 'u' as int then Some(U16)
    else if tag == 'I' as int then Some(I32)
    else if tag == 'i' as int then Some(U32)
    else if tag == 'l' as int then Some(I64)
    else if tag == 'L' as int then Some(U64)
    else if tag == 'f' as int then Some(F32)
    else if tag == 'd' as int then Some(F64)
    else if tag == 'T' as int then Some(Timestamp)
    else None
  }

  predicate IsStructuredTag(tag: byte) {
    tag == TAG_DECIMAL || tag == TAG_UTF8 || tag == TAG_BYTES || tag == TAG_ARRAY || tag == TAG_TABLE || tag == TAG_VOID
  }

  /** 2 to the power of the number of bits of the kind. */
  function Modulus(kind: ScalarKind): nat {
    match Width(kind)
    case 1 => 0x100
    case 2 => 0x1_0000
    case 4 => 0x1_0000_0000
    case _ => 0x1_0000_0000_0000_0000
  }

  /** The values of the C type of the kind; `amqp_boolean_t` is a 32-bit `int`. */
  predicate InRange(kind: ScalarKind, x: int) {
    if kind.Boolean? then -0x8000_0000 <= x < 0x8000_0000
    else if Signed(kind) then -(Modulus(kind) / 2) <= x < Modulus(kind) / 2
    else 0 <= x < Modulus(kind)
  }

  /** The unsigned integer that is written for a scalar: the cast to `uintN_t`. */
  function ToWire(kind: ScalarKind, x: int): (w: nat)
    requires InRange(kind, x)
    ensures w < Modulus(kind)
  {
    if kind.Boolean? then (if x != 0 then 1 else 0)
    else if x < 0 then x + Modulus(kind)
    else x
  }

  /** The scalar that is read from an unsigned integer: the cast from `uintN_t`. */
  function FromWire(kind: ScalarKind, w: nat): (x: int)
    requires w < Modulus(kind)
    ensures InRange(kind, x)
    ensures ToWire(kind, x) == w || kind.Boolean?
  {
    if kind.Boolean? then (if w != 0 then 1 else 0)
    else if Signed(kind) && w >= Modulus(kind) / 2 then w - Modulus(kind)
    else w
  }

  //////////////////////////////////////////////////////////////////////////////
  // Classes of tables
  //////////////////////////////////////////////////////////////////////////////

  /** What the C types guarantee: every number fits its field, `Unknown` carries no known kind octet. */
  predicate Typed(v: Value)
    decreases v, 1
  {
    match v
    case Scalar(kind, x) => InRange(kind, x)
    case Decimal(_, units) => units < UINT32_MODULUS
    case Text(_, _) => true
    case Array(values) => TypedValues(values)
    case Table(entries) => TypedEntries(entries)
    case Void => true
    case Unknown(tag) => KindOf(tag).None? && !IsStructuredTag(tag)
  }

  predicate TypedValues(values: seq<Value>)
    decreases values, 0
  {
    values == [] || (Typed(values[0]) && TypedValues(values[1..]))
  }

  predicate TypedEntries(entries: seq<Entry>)
    decreases entries, 0
  {
    entries == [] || (Typed(entries[0].value) && TypedEntries(entries[1..]))
  }

  /** No value of an unknown kind at any depth. */
  predicate Known(v: Value)
    decreases v, 1
  {
    match v
    case Array(values) => KnownValues(values)
    case Table(entries) => KnownEntries(entries)
    case _ => !v.Unknown?
  }

  predicate KnownValues(values: seq<Value>)
    decreases values, 0
  {
    values == [] || (Known(values[0]) && KnownValues(values[1..]))
  }

  predicate KnownEntries(entries: seq<Entry>)
    decreases entries, 0
  {
    entries == [] || (Known(entries[0].value) && KnownEntries(entries[1..]))
  }

  /** Every key has at most 255 octets and every boolean is 0 or 1, at any depth. */
  predicate Portable(v: Value)
    decreases v, 1
  {
    match v
    case Scalar(kind, x) => kind.Boolean? ==> x == 0 || x == 1
    case Array(values) => PortableValues(values)
    case Table(entries) => PortableEntries(entries)
    case _ => true
  }

  predicate PortableValues(values: seq<Value>)
    decreases values, 0
  {
    values == [] || (Portable(values[0]) && PortableValues(values[1..]))
  }

  predicate PortableEntries(entries: seq<Entry>)
    decreases entries, 0
  {
    entries == [] || (|entries[0].key| <= 255 && Portable(entries[0].value) && PortableEntries(entries[1..]))
  }

  //////////////////////////////////////////////////////////////////////////////
  // The encoding
  //////////////////////////////////////////////////////////////////////////////

  /** The wire form of a value; an unknown kind contributes its kind octet only. */
  function Enc(v: Value): (s: Bytes)
    requires Typed(v)
    ensures |s| >= 1
    decreases v, 1
  {
    match v
    case Scalar(kind, x) => [Tag(kind)] + Be(Width(kind), ToWire(kind, x))
    case Decimal(decimals, units) => [TAG_DECIMAL] + ([decimals] + Be(4, units))
    case Text(utf8, text) => [if utf8 then TAG_UTF8 else TAG_BYTES] + (Be(4, |text|) + text)
    case Array(values) => [TAG_ARRAY] + (Be(4, |EncValues(values)|) + EncValues(values))
    case Table(entries) => [TAG_TABLE] + (Be(4, |EncEntries(entries)|) + EncEntries(entries))
    case Void => [TAG_VOID]
    case Unknown(tag) => [tag]
  }

  function EncValues(values: seq<Value>): Bytes
    requires TypedValues(values)
    decreases values, 0
  {
    if values == [] then [] else Enc(values[0]) + EncValues(values[1..])
  }

  /** One entry: the key length cast to an octet, the whole key, the value. */
  function EncEntry(e: Entry): Bytes
    requires Typed(e.value)
    decreases e.value, 2
  {
    Be(1, |e.key|) + (e.key + Enc(e.value))
  }

  function EncEntries(entries: seq<Entry>): Bytes
    requires TypedEntries(entries)
    decreases entries, 0
  {
    if entries == [] then []
    else EncEntry(entries[0]) + EncEntries(entries[1..])
  }

  function EncTable(entries: seq<Entry>): Bytes
    requires TypedEntries(entries)
  {
    Be(4, |EncEntries(entries)|) + EncEntries(entries)
  }

  //////////////////////////////////////////////////////////////////////////////
  // The decoding
  //////////////////////////////////////////////////////////////////////////////

  /** A value of a kind that holds no other value. */
  function DecFlat(b: Bytes, o: nat): (r: Decoded<Value>)
    requires o < |b| && b[o] != TAG_ARRAY && b[o] != TAG_TABLE
    ensures r.Got? ==> o < r.next <= |b|
  {
    var tag := b[o];
    match KindOf(tag)
    case Some(kind) =>
      Pow256Values();
      (match GetUint(b, o + 1, Width(kind))
       case Bad => Bad
       case Got(w, next) => Got(Scalar(kind, FromWire(kind, w)), next))
    case None =>
      if tag == TAG_DECIMAL then
        (match GetUint(b, o + 2, 4)
         case Bad => Bad
         case Got(units, next) => Got(Decimal(b[o + 1], units), next))
      else if tag == TAG_UTF8 || tag == TAG_BYTES then
        (match GetUint(b, o + 1, 4)
         case Bad => Bad
         case Got(len, next) =>
           match GetBytes(b, next, len)
           case Bad => Bad
           case Got(text, next) => Got(Text(tag == TAG_UTF8, text), next))
      else if tag == TAG_VOID then Got(Void, o + 1)
      else Bad
  }

  function Dec(b: Bytes, o: nat): (r: Decoded<Value>)
    ensures r.Got? ==> o < r.next <= |b|
    decreases |b| - o, 2
  {
    if o >= |b| then Bad
    else if b[o] == TAG_ARRAY then
      (match DecArray(b, o + 1)
       case Bad => Bad
       case Got(values, next) => Got(Array(values), next))
    else if b[o] == TAG_TABLE then
      (match DecTable(b, o + 1)
       case Bad => Bad
       case Got(entries, next) => Got(Table(entries), next))
    else DecFlat(b, o)
  }

  /** The declared size of an array or table; `Bad` unless it stays inside the buffer. */
  function Limit(b: Bytes, o: nat): (r: Decoded<nat>)
    ensures r.Got? <==> GetUint(b, o, 4).Got? && o + 4 + GetUint(b, o, 4).value <= |b|
    ensures r.Got? ==> r.next == o + 4 && r.value == o + 4 + GetUint(b, o, 4).value
  {
    match GetUint(b, o, 4)
    case Bad => Bad
    case Got(size, next) => if size + next > |b| then Bad else Got(next + size, next)
  }

  function DecArray(b: Bytes, o: nat): (r: Decoded<seq<Value>>)
    ensures r.Got? ==> GetUint(b, o, 4).Got? && o + 4 + GetUint(b, o, 4).value <= r.next <= |b|
    decreases |b| - o, 1
  {
    match Limit(b, o)
    case Bad => Bad
    case Got(limit, next) => DecValues(b, next, limit)
  }

  function DecTable(b: Bytes, o: nat): (r: Decoded<seq<Entry>>)
    ensures r.Got? ==> GetUint(b, o, 4).Got? && o + 4 + GetUint(b, o, 4).value <= r.next <= |b|
    decreases |b| - o, 1
  {
    match Limit(b, o)
    case Bad => Bad
    case Got(limit, next) => DecEntries(b, next, limit)
  }

  /** Values from `o` until the offset reaches `limit`; the last one may reach beyond it. */
  function DecValues(b: Bytes, o: nat, limit: nat): (r: Decoded<seq<Value>>)
    requires o <= |b| && limit <= |b|
    ensures r.Got? ==> o <= r.next && limit <= r.next <= |b|
    decreases |b| - o, 3
  {
    if o >= limit then Got([], o)
    else
      match Dec(b, o)
      case Bad => Bad
      case Got(v, next) =>
        match DecValues(b, next, limit)
        case Bad => Bad
        case Got(rest, last) => Got([v] + rest, last)
  }

  /** One entry of a table. */
  function DecEntry(b: Bytes, o: nat): (r: Decoded<Entry>)
    ensures r.Got? ==> o < r.next <= |b|
    decreases |b| - o, 3
  {
    match GetUint(b, o, 1)
    case Bad => Bad
    case Got(len, next) =>
      match GetBytes(b, next, len)
      case Bad => Bad
      case Got(key, next) =>
        match Dec(b, next)
        case Bad => Bad
        case Got(v, last) => Got(Entry(key, v), last)
  }

  function DecEntries(b: Bytes, o: nat, limit: nat): (r: Decoded<seq<Entry>>)
    requires o <= |b| && limit <= |b|
    ensures r.Got? ==> o <= r.next && limit <= r.next <= |b|
    decreases |b| - o, 4
  {
    if o >= limit then Got([], o)
    else
      match DecEntry(b, o)
      case Bad => Bad
      case Got(e, next) =>
        match DecEntries(b, next, limit)
        case Bad => Bad
        case Got(rest, last) => Got([e] + rest, last)
  }

  //////////////////////////////////////////////////////////////////////////////
  // Decoding undoes encoding
  //////////////////////////////////////////////////////////////////////////////

  lemma ScalarRoundTrip(kind: ScalarKind, x: int)
    requires InRange(kind, x) && Portable(Scalar(kind, x))
    ensures FromWire(kind, ToWire(kind, x)) == x
    ensures ToWire(kind, x) < Pow256(Width(kind))
    ensures KindOf(Tag(kind)) == Some(kind)
  {
    Pow256Values();
  }

  lemma DecEncScalar(b: Bytes, o: nat, kind: ScalarKind, x: int)
    requires InRange(kind, x) && Portable(Scalar(kind, x)) && At(b, o, Enc(Scalar(kind, x)))
    ensures Dec(b, o) == Got(Scalar(kind, x), o + 1 + Width(kind))
  {
    AtSplit(b, o, [Tag(kind)], Be(Width(kind), ToWire(kind, x)));
    assert b[o] == b[o..o + 1][0];
    ScalarRoundTrip(kind, x);
    GetPutUint(b, o + 1, Width(kind), ToWire(kind, x));
  }

  lemma DecEncDecimal(b: Bytes, o: nat, decimals: byte, units: nat)
    requires units < UINT32_MODULUS && At(b, o, Enc(Decimal(decimals, units)))
    ensures Dec(b, o) == Got(Decimal(decimals, units), o + 6)
  {
    AtSplit(b, o, [TAG_DECIMAL], [decimals] + Be(4, units));
    AtSplit(b, o + 1, [decimals], Be(4, units));
    assert b[o] == b[o..o + 1][0] && b[o + 1] == b[o + 1..o + 2][0];
    Pow256Values();
    GetPutUint(b, o + 2, 4, units);
  }

  lemma DecEncText(b: Bytes, o: nat, utf8: bool, text: Bytes)
    requires |b| < UINT32_MODULUS && At(b, o, Enc(Text(utf8, text)))
    ensures Dec(b, o) == Got(Text(utf8, text), o + 5 + |text|)
  {
    AtSplit(b, o, [if utf8 then TAG_UTF8 else TAG_BYTES], Be(4, |text|) + text);
    AtSplit(b, o + 1, Be(4, |text|), text);
    assert b[o] == b[o..o + 1][0];
    Pow256Values();
    GetPutUint(b, o + 1, 4, |text|);
  }

  lemma AtArray(b: Bytes, o: nat, values: seq<Value>)
    requires TypedValues(values) && |b| < UINT32_MODULUS && At(b, o, Enc(Array(values)))
    ensures b[o] == TAG_ARRAY && At(b, o + 5, EncValues(values))
    ensures Limit(b, o + 1) == Got(o + 5 + |EncValues(values)|, o + 5)
  {
    var size := Be(4, |EncValues(values)|);
    AtSplit(b, o, [TAG_ARRAY], size + EncValues(values));
    AtSplit(b, o + 1, size, EncValues(values));
    assert b[o] == b[o..o + 1][0];
    Pow256Values();
    GetPutUint(b, o + 1, 4, |EncValues(values)|);
  }

  lemma AtTable(b: Bytes, o: nat, entries: seq<Entry>)
    requires TypedEntries(entries) && At(b, o, Enc(Table(entries)))
    ensures b[o] == TAG_TABLE && At(b, o + 1, EncTable(entries))
  {
    AtSplit(b, o, [TAG_TABLE], EncTable(entries));
    assert b[o] == b[o..o + 1][0];
  }

  /** In a buffer below 4 GiB every length and size octet group is the true length. */
  lemma {:induction false} DecEnc(b: Bytes, o: nat, v: Value)
    requires Typed(v) && Known(v) && Portable(v)
    requires |b| < UINT32_MODULUS && At(b, o, Enc(v))
    ensures Dec(b, o) == Got(v, o + |Enc(v)|)
    decreases v, 1
  {
    hide Be, Unbe, GetUint, GetBytes, DecValues, DecEntries;
    match v
    case Scalar(kind, x) => DecEncScalar(b, o, kind, x);
    case Decimal(decimals, units) => DecEncDecimal(b, o, decimals, units);
    case Text(utf8, text) => DecEncText(b, o, utf8, text);
    case Array(values) =>
      AtArray(b, o, values);
      DecEncValues(b, o + 5, values);
    case Table(entries) =>
      AtTable(b, o, entries);
      DecEncTable(b, o + 1, entries);
    case Void =>
      assert b[o] == b[o..o + 1][0];
  }

  lemma {:induction false} DecEncValues(b: Bytes, o: nat, values: seq<Value>)
    requires TypedValues(values) && KnownValues(values) && PortableValues(values)
    requires |b| < UINT32_MODULUS && At(b, o, EncValues(values))
    ensures DecValues(b, o, o + |EncValues(values)|) == Got(values, o + |EncValues(values)|)
    decreases values, 0
  {
    hide Enc, Dec, At, Typed, Known, Portable;
    if values != [] {
      var first := Enc(values[0]);
      AtSplit(b, o, first, EncValues(values[1..]));
      DecEnc(b, o, values[0]);
      DecEncValues(b, o + |first|, values[1..]);
      assert values == [values[0]] + values[1..];
    }
  }

  lemma {:induction false} DecEncEntry(b: Bytes, o: nat, e: Entry)
    requires Typed(e.value) && Known(e.value) && Portable(e.value) && |e.key| <= 255
    requires |b| < UINT32_MODULUS && At(b, o, EncEntry(e))
    ensures DecEntry(b, o) == Got(e, o + |EncEntry(e)|)
    decreases e.value, 2
  {
    hide Enc, Dec, Be, Unbe, Typed, Known, Portable;
    Pow256Values();
    AtSplit(b, o, Be(1, |e.key|), e.key + Enc(e.value));
    AtSplit(b, o + 1, e.key, Enc(e.value));
    GetPutUint(b, o, 1, |e.key|);
    DecEnc(b, o + 1 + |e.key|, e.value);
  }

  lemma {:induction false} DecEncEntries(b: Bytes, o: nat, entries: seq<Entry>)
    requires TypedEntries(entries) && KnownEntries(entries) && PortableEntries(entries)
    requires |b| < UINT32_MODULUS && At(b, o, EncEntries(entries))
    ensures DecEntries(b, o, o + |EncEntries(entries)|) == Got(entries, o + |EncEntries(entries)|)
    decreases entries, 0
  {
    hide Enc, Dec, At, Typed, Known, Portable;
    if entries != [] {
      var first := EncEntry(entries[0]);
      AtSplit(b, o, first, EncEntries(entries[1..]));
      DecEncEntry(b, o, entries[0]);
      DecEncEntries(b, o + |first|, entries[1..]);
      assert entries == [entries[0]] + entries[1..];
    }
  }

  lemma {:induction false} DecEncTable(b: Bytes, o: nat, entries: seq<Entry>)
    requires TypedEntries(entries) && KnownEntries(entries) && PortableEntries(entries)
    requires |b| < UINT32_MODULUS && At(b, o, EncTable(entries))
    ensures DecTable(b, o) == Got(entries, o + |EncTable(entries)|)
    decreases entries, 1
  {
    Pow256Values();
    AtSplit(b, o, Be(4, |EncEntries(entries)|), EncEntries(entries));
    GetPutUint(b, o, 4, |EncEntries(entries)|);
    DecEncEntries(b, o + 4, entries);
  }

  //////////////////////////////////////////////////////////////////////////////
  // What a decoder can produce
  //////////////////////////////////////////////////////////////////////////////

  /** Whatever the octets, a decoded value is well typed, of a known kind and portable. */
  lemma {:induction false} DecYields(b: Bytes, o: nat)
    requires Dec(b, o).Got?
    ensures Typed(Dec(b, o).value) && Known(Dec(b, o).value) && Portable(Dec(b, o).value)
    decreases |b| - o, 2
  {
    Pow256Values();
    match Dec(b, o).value
    case Array(values) =>
      var next := Limit(b, o + 1);
      DecValuesYield(b, next.next, next.value);
    case Table(entries) =>
      DecTableYields(b, o + 1);
    case _ =>
  }

  lemma {:induction false} DecValuesYield(b: Bytes, o: nat, limit: nat)
    requires o <= |b| && limit <= |b| && DecValues(b, o, limit).Got?
    ensures var values := DecValues(b, o, limit).value;
            TypedValues(values) && KnownValues(values) && PortableValues(values)
    decreases |b| - o, 3
  {
    if o < limit {
      DecYields(b, o);
      DecValuesYield(b, Dec(b, o).next, limit);
    }
  }

  lemma {:induction false} DecEntriesYield(b: Bytes, o: nat, limit: nat)
    requires o <= |b| && limit <= |b| && DecEntries(b, o, limit).Got?
    ensures var entries := DecEntries(b, o, limit).value;
            TypedEntries(entries) && KnownEntries(entries) && PortableEntries(entries)
    decreases |b| - o, 3
  {
    if o < limit {
      Pow256Values();
      var len := GetUint(b, o, 1);
      DecYields(b, len.next + len.value);
      DecEntriesYield(b, DecEntry(b, o).next, limit);
    }
  }

  lemma {:induction false} DecTableYields(b: Bytes, o: nat)
    requires DecTable(b, o).Got?
    ensures var entries := DecTable(b, o).value;
            TypedEntries(entries) && KnownEntries(entries) && PortableEntries(entries)
    decreases |b| - o, 1
  {
    DecEntriesYield(b, Limit(b, o).next, Limit(b, o).value);
  }

  /** The table comes back, at the same offset, exactly when every key length fits its octet,
      every boolean is 0 or 1 and every kind is known. */
  lemma TableRoundTripIff(b: Bytes, o: nat, entries: seq<Entry>)
    requires TypedEntries(entries)
    requires |b| < UINT32_MODULUS && At(b, o, EncTable(entries))
    ensures DecTable(b, o) == Got(entries, o + |EncTable(entries)|)
            <==> PortableEntries(entries) && KnownEntries(entries)
  {
    if PortableEntries(entries) && KnownEntries(entries) {
      DecEncTable(b, o, entries);
    } else if DecTable(b, o).Got? {
      DecTableYields(b, o);
    }
  }

  //////////////////////////////////////////////////////////////////////////////
  // The octets
  //////////////////////////////////////////////////////////////////////////////

  /** `amqp_field_value_kind_t`: the kinds that are one integer, with their octet, their size and the least
      and the greatest value of their C type. */
  const SCALARS: seq<(ScalarKind, byte, nat, int, int)> :=
    [(Boolean, 116, 1, -0x8000_0000, 0x7FFF_FFFF), (I8, 98, 1, -128, 127), (U8, 66, 1, 0, 255),
     (I16, 115, 2, -32768, 32767), (U16, 117, 2, 0, 65535),
     (I32, 73, 4, -0x8000_0000, 0x7FFF_FFFF), (U32, 105, 4, 0, 0xFFFF_FFFF),
     (I64, 108, 8, -0x8000_0000_0000_0000, 0x7FFF_FFFF_FFFF_FFFF), (U64, 76, 8, 0, 0xFFFF_FFFF_FFFF_FFFF),
     (F32, 102, 4, 0, 0xFFFF_FFFF), (F64, 100, 8, 0, 0xFFFF_FFFF_FFFF_FFFF),
     (Timestamp, 84, 8, 0, 0xFFFF_FFFF_FFFF_FFFF)]

  /** The formats of the scalar kinds are those of the table, in both directions. */
  lemma ScalarFormats(k: nat, x: int)
    requires k < |SCALARS|
    ensures var (kind, tag, width, least, greatest) := SCALARS[k];
            && Tag(kind) == tag && KindOf(tag) == Some(kind) && Width(kind) == width
            && (InRange(kind, x) <==> least <= x <= greatest) && Modulus(kind) == Pow256(width)
  {
    Pow256Values();
  }

  /** Integers are cast to and from unsigned ones by two's complement. */
  lemma TwosComplement(kind: ScalarKind, x: int, w: nat)
    requires !kind.Boolean? && InRange(kind, x) && w < Modulus(kind)
    ensures ToWire(kind, x) == x % Modulus(kind)
    ensures FromWire(kind, w) % Modulus(kind) == w
  {
    match Width(kind)
    case 1 =>
    case 2 =>
    case 4 =>
    case _ =>
  }

  /** What a scalar is on the wire, and that it is read from there. */
  lemma ScalarOctets(k: nat, x: int, b: Bytes, o: nat)
    requires k < |SCALARS| && var (_, _, _, least, greatest) := SCALARS[k]; least <= x <= greatest
    requires |b| < UINT32_MODULUS
    ensures var (kind, tag, width, _, _) := SCALARS[k];
            var octets := [tag] + Be(width, if k == 0 then (if x != 0 then 1 else 0) else x % Pow256(width));
            && Enc(Scalar(kind, x)) == octets
            && (At(b, o, octets) && (k == 0 ==> x in {0, 1}) ==> Dec(b, o) == Got(Scalar(kind, x), o + 1 + width))
  {
    hide Dec, Be;
    var (kind, tag, width, _, _) := SCALARS[k];
    ScalarFormats(k, x);
    if k != 0 {
      TwosComplement(kind, x, 0);
    }
    if At(b, o, Enc(Scalar(kind, x))) && (k == 0 ==> x in {0, 1}) {
      DecEncScalar(b, o, kind, x);
    }
  }

  /** The octets of the other kinds. */
  lemma StructuredOctets(v: Value)
    requires Typed(v)
    ensures match v
            case Decimal(decimals, units) => Enc(v) == [68, decimals] + Be(4, units)
            case Text(utf8, text) => Enc(v) == [if utf8 then 83 else 120] + Be(4, |text|) + text
            case Array(values) => Enc(v) == [65] + Be(4, |EncValues(values)|) + EncValues(values)
            case Table(entries) => Enc(v) == [70] + EncTable(entries)
            case Void => Enc(v) == [86]
            case Unknown(tag) => Enc(v) == [tag]
            case Scalar(_, _) => true
  {
  }

  /** Any other kind octet is malformed. */
  lemma OtherKindsAreBad(b: Bytes, o: nat)
    requires o < |b|
    requires b[o] !in {116, 98, 66, 115, 117, 73, 105, 108, 76, 102, 100, 84, 68, 83, 120, 65, 70, 86}
    ensures Dec(b, o) == Bad
  {
  }

  /** A value with its octets is decoded from them. */
  lemma Sample(v: Value, octets: Bytes)
    requires Typed(v) && Known(v) && Portable(v) && Enc(v) == octets && |octets| < UINT32_MODULUS
    ensures Dec(octets, 0) == Got(v, |octets|)
  {
    hide Dec, Enc;
    assert octets[0..0 + |octets|] == octets;
    DecEnc(octets, 0, v);
  }

  /** Some numbers as they are on the wire. */
  lemma OctetSamples()
    ensures Enc(Scalar(I8, -2)) == [98, 254] && Dec([98, 254], 0) == Got(Scalar(I8, -2), 2)
    ensures Enc(Scalar(Boolean, 1)) == [116, 1] && Dec([116, 1], 0) == Got(Scalar(Boolean, 1), 2)
  {
    hide Enc, Dec, Be;
    ScalarOctets(1, -2, [], 0);
    ScalarOctets(0, 1, [], 0);
    Pow256Values();
    NoOctets(254);
    NoOctets(1);
    Sample(Scalar(I8, -2), [98, 254]);
    Sample(Scalar(Boolean, 1), [116, 1]);
  }

  lemma ShortNumberSamples()
    ensures Enc(Scalar(I16, -2)) == [115, 255, 254] && Dec([115, 255, 254], 0) == Got(Scalar(I16, -2), 3)
    ensures Enc(Scalar(U16, 258)) == [117, 1, 2] && Dec([117, 1, 2], 0) == Got(Scalar(U16, 258), 3)
  {
    hide Enc, Dec, Be;
    ScalarOctets(3, -2, [], 0);
    ScalarOctets(4, 258, [], 0);
    Pow256Values();
    BigEndian(0xFFFE);
    BigEndian(258);
    Sample(Scalar(I16, -2), [115, 255, 254]);
    Sample(Scalar(U16, 258), [117, 1, 2]);
  }

  lemma LongNumberSample()
    ensures Enc(Scalar(I32, -1)) == [73, 255, 255, 255, 255]
    ensures Dec([73, 255, 255, 255, 255], 0) == Got(Scalar(I32, -1), 5)
  {
    hide Enc, Dec, Be;
    ScalarOctets(5, -1, [], 0);
    Pow256Values();
    BigEndian(0xFFFF_FFFF);
    Sample(Scalar(I32, -1), [73, 255, 255, 255, 255]);
  }

  lemma LonglongNumberSample()
    ensures Enc(Scalar(I64, -2)) == [108, 255, 255, 255, 255, 255, 255, 255, 254]
    ensures Dec([108, 255, 255, 255, 255, 255, 255, 255, 254], 0) == Got(Scalar(I64, -2), 9)
  {
    hide Enc, Dec, Be;
    ScalarOctets(7, -2, [], 0);
    Pow256Values();
    BigEndian(0xFFFF_FFFF_FFFF_FFFE);
    BigEndian(0xFFFF_FFFF);
    Sample(Scalar(I64, -2), [108, 255, 255, 255, 255, 255, 255, 255, 254]);
  }

  /** Some strings, an array and a table. */
  lemma StringSamples()
    ensures Enc(Text(true, [97])) == [83, 0, 0, 0, 1, 97] && Dec([83, 0, 0, 0, 1, 97], 0) == Got(Text(true, [97]), 6)
    ensures Enc(Text(false, [97])) == [120, 0, 0, 0, 1, 97] && Dec([120, 0, 0, 0, 1, 97], 0) == Got(Text(false, [97]), 6)
    ensures Enc(Void) == [86] && Dec([86], 0) == Got(Void, 1)
  {
    hide Enc, Dec, Be;
    StructuredOctets(Text(true, [97]));
    StructuredOctets(Text(false, [97]));
    StructuredOctets(Void);
    BigEndian(1);
    Sample(Text(true, [97]), [83, 0, 0, 0, 1, 97]);
    Sample(Text(false, [97]), [120, 0, 0, 0, 1, 97]);
    Sample(Void, [86]);
  }

  lemma ValuesCons(v: Value, rest: seq<Value>)
    requires Typed(v) && TypedValues(rest)
    ensures TypedValues([v] + rest) && EncValues([v] + rest) == Enc(v) + EncValues(rest)
    ensures Known(v) && KnownValues(rest) ==> KnownValues([v] + rest)
    ensures Portable(v) && PortableValues(rest) ==> PortableValues([v] + rest)
  {
    assert ([v] + rest)[1..] == rest;
  }

  lemma EntriesCons(e: Entry, rest: seq<Entry>)
    requires Typed(e.value) && TypedEntries(rest)
    ensures TypedEntries([e] + rest) && EncEntries([e] + rest) == EncEntry(e) + EncEntries(rest)
    ensures Known(e.value) && KnownEntries(rest) ==> KnownEntries([e] + rest)
    ensures |e.key| <= 255 && Portable(e.value) && PortableEntries(rest) ==> PortableEntries([e] + rest)
  {
    assert ([e] + rest)[1..] == rest;
  }

  lemma ArraySample()
    ensures var v, octets := Array([Void, Scalar(U8, 7)]), [65, 0, 0, 0, 3, 86, 66, 7];
            Enc(v) == octets && Dec(octets, 0) == Got(v, 8)
  {
    hide Enc, Dec, Be, EncValues, KnownValues, PortableValues, TypedValues;
    var n := Scalar(U8, 7);
    var values := [Void] + ([n] + []);
    ScalarOctets(2, 7, [], 0);
    StructuredOctets(Void);
    Pow256Values();
    NoOctets(7);
    NothingEncoded();
    ValuesCons(n, []);
    ValuesCons(Void, [n] + []);
    assert values == [Void, n] && EncValues(values) == [86, 66, 7];
    StructuredOctets(Array(values));
    BigEndian(3);
    Sample(Array(values), [65, 0, 0, 0, 3, 86, 66, 7]);
  }

  lemma NothingEncoded()
    ensures TypedValues([]) && KnownValues([]) && PortableValues([]) && EncValues([]) == []
    ensures TypedEntries([]) && KnownEntries([]) && PortableEntries([]) && EncEntries([]) == []
  {
  }

  lemma EntrySamples()
    ensures EncEntry(Entry([97], Scalar(U8, 7))) == [1, 97, 66, 7]
    ensures EncEntry(Entry([98, 99], Void)) == [2, 98, 99, 86]
  {
    hide Enc, Dec, Be;
    ScalarOctets(2, 7, [], 0);
    StructuredOctets(Void);
    Pow256Values();
    NoOctets(7);
    NoOctets(1);
    NoOctets(2);
  }

  lemma TableSample()
    ensures var v, octets := Table([Entry([97], Scalar(U8, 7)), Entry([98, 99], Void)]),
                             [70, 0, 0, 0, 8, 1, 97, 66, 7, 2, 98, 99, 86];
            Enc(v) == octets && Dec(octets, 0) == Got(v, 13)
  {
    hide Enc, Dec, Be, EncEntry, EncEntries, KnownEntries, PortableEntries, TypedEntries;
    var first, second := Entry([97], Scalar(U8, 7)), Entry([98, 99], Void);
    var entries := [first] + ([second] + []);
    EntrySamples();
    NothingEncoded();
    EntriesCons(second, []);
    EntriesCons(first, [second] + []);
    assert entries == [first, second] && EncEntries(entries) == [1, 97, 66, 7, 2, 98, 99, 86];
    StructuredOctets(Table(entries));
    BigEndian(8);
    Sample(Table(entries), [70, 0, 0, 0, 8, 1, 97, 66, 7, 2, 98, 99, 86]);
  }

  lemma SingleEntry(e: Entry)
    requires Typed(e.value)
    ensures EncTable([e]) == Be(4, |EncEntry(e)|) + EncEntry(e)
    ensures PortableEntries([e]) <==> |e.key| <= 255 && Portable(e.value)
    ensures KnownEntries([e]) <==> Known(e.value)
  {
    assert [e][1..] == [];
    assert EncEntries([e]) == EncEntry(e) + EncEntries([]) == EncEntry(e);
  }

  /** A boolean of 2 comes back as 1; a table with a key of 256 octets does not come back. */
  lemma AlteredTables(key: Bytes)
    requires |key| == 256
    ensures var one, two := [Entry([], Scalar(Boolean, 1))], [Entry([], Scalar(Boolean, 2))];
            DecTable(EncTable(two), 0) == Got(one, |EncTable(two)|)
    ensures var long := [Entry(key, Void)];
            DecTable(EncTable(long), 0) != Got(long, |EncTable(long)|)
  {
    hide DecTable, EncTable, Be, EncEntries, PortableEntries, KnownEntries;
    var one, two, long := Entry([], Scalar(Boolean, 1)), Entry([], Scalar(Boolean, 2)), Entry(key, Void);
    SingleEntry(one);
    SingleEntry(two);
    SingleEntry(long);
    var b, c := EncTable([two]), EncTable([long]);
    assert b[0..0 + |b|] == b && c[0..0 + |c|] == c;
    DecEncTable(b, 0, [one]);
    TableRoundTripIff(c, 0, [long]);
  }

  //////////////////////////////////////////////////////////////////////////////
  // Decoding from a part of a buffer
  //////////////////////////////////////////////////////////////////////////////

  /** A result that does not reach beyond `n`, or a failure. */
  function UpTo<T>(r: Decoded<T>, n: nat): Decoded<T> {
    if r.Got? && r.next <= n then r else Bad
  }

  lemma UintOfPrefix(b: Bytes, n: nat, o: nat, width: nat)
    requires n <= |b|
    ensures GetUint(b[..n], o, width) == UpTo(GetUint(b, o, width), n)
  {
    if o + width <= n {
      assert b[..n][o..o + width] == b[o..o + width];
    }
  }

  lemma BytesOfPrefix(b: Bytes, n: nat, o: nat, len: nat)
    requires n <= |b|
    ensures GetBytes(b[..n], o, len) == UpTo(GetBytes(b, o, len), n)
  {
    if o + len <= n {
      assert b[..n][o..o + len] == b[o..o + len];
    }
  }

  lemma LimitOfPrefix(b: Bytes, n: nat, o: nat)
    requires n <= |b|
    ensures Limit(b[..n], o) == if Limit(b, o).Got? && Limit(b, o).value <= n then Limit(b, o) else Bad
  {
    hide GetUint;
    UintOfPrefix(b, n, o, 4);
  }

  lemma FlatOfPrefix(b: Bytes, n: nat, o: nat)
    requires o < n <= |b| && b[o] != TAG_ARRAY && b[o] != TAG_TABLE
    ensures DecFlat(b[..n], o) == UpTo(DecFlat(b, o), n)
  {
    hide GetUint, GetBytes;
    var tag := b[o];
    if KindOf(tag).Some? {
      UintOfPrefix(b, n, o + 1, Width(KindOf(tag).value));
    } else if tag == TAG_DECIMAL {
      UintOfPrefix(b, n, o + 2, 4);
    } else if tag == TAG_UTF8 || tag == TAG_BYTES {
      UintOfPrefix(b, n, o + 1, 4);
      var len := GetUint(b, o + 1, 4);
      if len.Got? {
        BytesOfPrefix(b, n, len.next, len.value);
      }
    }
  }

  /** What a decoder makes of a part of a buffer is what it makes of the whole, as far as that does not
      reach beyond the part. */
  lemma {:induction false} DecOfPrefix(b: Bytes, n: nat, o: nat)
    requires n <= |b|
    ensures Dec(b[..n], o) == UpTo(Dec(b, o), n)
    decreases |b| - o, 2
  {
    hide DecFlat, DecArray, DecTable;
    if o < n {
      if b[o] == TAG_ARRAY {
        ArrayOfPrefix(b, n, o + 1);
      } else if b[o] == TAG_TABLE {
        TableOfPrefix(b, n, o + 1);
      } else {
        FlatOfPrefix(b, n, o);
      }
    }
  }

  lemma {:induction false} ArrayOfPrefix(b: Bytes, n: nat, o: nat)
    requires n <= |b|
    ensures DecArray(b[..n], o) == UpTo(DecArray(b, o), n)
    decreases |b| - o, 1
  {
    hide Limit, DecValues;
    LimitOfPrefix(b, n, o);
    var limit := Limit(b, o);
    if limit.Got? && limit.value <= n {
      ValuesOfPrefix(b, n, limit.next, limit.value);
    }
  }

  lemma {:induction false} TableOfPrefix(b: Bytes, n: nat, o: nat)
    requires n <= |b|
    ensures DecTable(b[..n], o) == UpTo(DecTable(b, o), n)
    decreases |b| - o, 1
  {
    hide Limit, DecEntries;
    LimitOfPrefix(b, n, o);
    var limit := Limit(b, o);
    if limit.Got? && limit.value <= n {
      EntriesOfPrefix(b, n, limit.next, limit.value);
    }
  }

  lemma {:induction false} ValuesOfPrefix(b: Bytes, n: nat, o: nat, limit: nat)
    requires o <= n <= |b| && limit <= n
    ensures DecValues(b[..n], o, limit) == UpTo(DecValues(b, o, limit), n)
    decreases |b| - o, 3
  {
    hide Dec;
    if o < limit {
      DecOfPrefix(b, n, o);
      var v := Dec(b, o);
      if v.Got? && v.next <= n {
        ValuesOfPrefix(b, n, v.next, limit);
      }
    }
  }

  lemma {:induction false} EntryOfPrefix(b: Bytes, n: nat, o: nat)
    requires n <= |b|
    ensures DecEntry(b[..n], o) == UpTo(DecEntry(b, o), n)
    decreases |b| - o, 3
  {
    hide GetUint, GetBytes, Dec;
    UintOfPrefix(b, n, o, 1);
    var len := GetUint(b, o, 1);
    if len.Got? {
      BytesOfPrefix(b, n, len.next, len.value);
      DecOfPrefix(b, n, len.next + len.value);
    }
  }

  lemma {:induction false} EntriesOfPrefix(b: Bytes, n: nat, o: nat, limit: nat)
    requires o <= n <= |b| && limit <= n
    ensures DecEntries(b[..n], o, limit) == UpTo(DecEntries(b, o, limit), n)
    decreases |b| - o, 4
  {
    hide DecEntry;
    if o < limit {
      EntryOfPrefix(b, n, o);
      var e := DecEntry(b, o);
      if e.Got? && e.next <= n {
        EntriesOfPrefix(b, n, e.next, limit);
      }
    }
  }

  /** A table ends where it declares to exactly when it can be decoded with nothing behind that place. */
  lemma TableEndsAsDeclaredIff(b: Bytes, o: nat)
    requires DecTable(b, o).Got?
    ensures DecTable(b, o).next == Limit(b, o).value <==> DecTable(b[..Limit(b, o).value], o).Got?
  {
    TableOfPrefix(b, Limit(b, o).value, o);
  }

  /** And so does an array. */
  lemma ArrayEndsAsDeclaredIff(b: Bytes, o: nat)
    requires DecArray(b, o).Got?
    ensures DecArray(b, o).next == Limit(b, o).value <==> DecArray(b[..Limit(b, o).value], o).Got?
  {
    ArrayOfPrefix(b, Limit(b, o).value, o);
  }

  /** A field is checked against the end of the buffer, not against the declared size of its
      table: here a table of declared size 1 is read to the octet behind it. */
  lemma TableMayExceedDeclaredSize()
    ensures var b: Bytes := [0, 0, 0, 1, 0, TAG_VOID];
            && DecTable(b, 0) == Got([Entry([], Void)], 6) && GetUint(b, 0, 4) == Got(1, 4)
            && DecTable(b[..5], 0).Bad?
  {
    var b: Bytes := [0, 0, 0, 1, 0, TAG_VOID];
    Pow256Values();
    assert Be(2, 0) == [0, 0] by { assert Be(1, 0) == [0]; }
    assert Be(3, 0) == [0, 0, 0];
    assert Be(4, 1) == [0, 0, 0, 1];
    GetPutUint(b, 0, 4, 1);
    GetPutUint(b, 4, 1, 0);
    assert Dec(b, 5) == Got(Void, 6);
    assert DecEntry(b, 4) == Got(Entry([], Void), 6);
    var e := Entry([], Void);
    calc {
      DecTable(b, 0);
      { assert Limit(b, 0) == Got(5, 4); }
      DecEntries(b, 4, 5);
      { assert DecEntries(b, 6, 5) == Got([], 6); }
      Got([e] + [], 6);
      { assert [e] + [] == [e]; }
      Got([e], 6);
    }
    TableOfPrefix(b, 5, 0);
  }
}
