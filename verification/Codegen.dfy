/** The method encoders and decoders that `codegen.py` emits: what is emitted for a list of argument
    types, what the emitted lines do, and that the emitted decoder undoes the emitted encoder
    (bit packing: section 4.2.5.2 of the AMQP 0-9-1 specification). */
module Codegen {
  import opened Wire
  import opened FieldTable
  import opened FieldTableCodec

  /** The types of `types`; `timestamp` is emitted exactly as `longlong`. */
  datatype FieldType = Octet | Short | Long | Longlong | Shortstr | Longstr | Bit | FieldTable

  /** A member of the method structure; a bit is an `amqp_boolean_t`. */
  datatype Field = Uint(n: nat) | Str(s: Bytes) | Flag(x: int) | Tab(entries: seq<Entry>)

  /** Octets of the integer, or of the length in front of the string. */
  function WidthOf(t: FieldType): nat {
    match t
    case Octet => 1
    case Short => 2
    case Long => 4
    case Longlong => 8
    case Shortstr => 1
    case Longstr => 4
    case _ => 0
  }

  /** The C type of the structure member. */
  predicate HasType(t: FieldType, v: Field) {
    match t
    case Shortstr => v.Str?
    case Longstr => v.Str?
    case Bit => v.Flag? && -0x8000_0000 <= v.x < 0x8000_0000
    case FieldTable => v.Tab? && TypedEntries(v.entries)
    case _ => v.Uint? && v.n < Pow256(WidthOf(t))
  }

  /** What the emitted encoder accepts. */
  predicate Encodable(t: FieldType, v: Field)
    requires HasType(t, v)
  {
    match v
    case Str(s) => |s| < Pow256(WidthOf(t))
    case Tab(entries) => KnownEntries(entries)
    case _ => true
  }

  predicate PortableField(v: Field) {
    match v
    case Flag(x) => x == 0 || x == 1
    case Tab(entries) => PortableEntries(entries)
    case _ => true
  }

  predicate HasTypes(types: seq<FieldType>, m: seq<Field>) {
    |types| == |m| && forall k | 0 <= k < |m| :: HasType(types[k], m[k])
  }

  predicate AllEncodable(types: seq<FieldType>, m: seq<Field>)
    requires HasTypes(types, m)
  {
    forall k | 0 <= k < |m| :: Encodable(types[k], m[k])
  }

  predicate AllPortable(m: seq<Field>) {
    forall k | 0 <= k < |m| :: PortableField(m[k])
  }

  //////////////////////////////////////////////////////////////////////////////
  // The emitted lines and what they do
  //////////////////////////////////////////////////////////////////////////////

  /** Emitted encoder lines; `f` is the index of a structure member. */
  datatype EncoderLine =
    | ClearBits
    | OrBit(f: nat, bit: nat)
    | PutBits
    | PutField(t: FieldType, f: nat)

  /** Emitted decoder lines. */
  datatype DecoderLine =
    | GetBits
    | TestBit(f: nat, bit: nat)
    | GetField(t: FieldType, f: nat)

  function Mask(bit: nat): bv8 {
    if bit < 8 then 1 << bit else 0
  }

  predicate BitSet(bits: bv8, bit: nat) {
    bits & Mask(bit) != 0
  }

  /** `bit_buffer` as an octet, and back. */
  function ToOctet(bits: bv8): byte {
    bits as int
  }

  function FromOctet(octet: byte): bv8 {
    octet as bv8
  }

  /** `bit_buffer` after an encoder line. */
  function BitsAfter(line: EncoderLine, m: seq<Field>, bits: bv8): bv8 {
    match line
    case ClearBits => 0
    case OrBit(f, bit) => if f < |m| && m[f].Flag? && m[f].x != 0 then bits | Mask(bit) else bits
    case _ => bits
  }

  function FieldBytes(t: FieldType, v: Field): Option<Bytes> {
    match v
    case Uint(n) => Some(Be(WidthOf(t), n))
    case Str(s) => if |s| < Pow256(WidthOf(t)) then Some(Be(WidthOf(t), |s|) + s) else None
    case Tab(entries) =>
      if TypedEntries(entries) && KnownEntries(entries) then Some(EncTable(entries)) else None
    case Flag(_) => None
  }

  /** What an encoder line appends; `None` when it returns an error. */
  function LineBytes(line: EncoderLine, m: seq<Field>, bits: bv8): Option<Bytes> {
    match line
    case PutBits => Some([ToOctet(bits)])
    case PutField(t, f) => if f < |m| then FieldBytes(t, m[f]) else None
    case _ => Some([])
  }

  function RunEncoder(lines: seq<EncoderLine>, m: seq<Field>, bits: bv8): Option<Bytes> {
    if lines == [] then Some([])
    else
      match LineBytes(lines[0], m, bits)
      case None => None
      case Some(first) =>
        match RunEncoder(lines[1..], m, BitsAfter(lines[0], m, bits))
        case None => None
        case Some(rest) => Some(first + rest)
  }

  function GetFieldValue(t: FieldType, b: Bytes, o: nat): (r: Decoded<Field>)
    ensures r.Got? ==> o <= r.next <= |b| || t.Bit?
  {
    match t
    case Bit => Bad
    case FieldTable =>
      (match DecTable(b, o)
       case Bad => Bad
       case Got(entries, next) => Got(Tab(entries), next))
    case _ =>
      match GetUint(b, o, WidthOf(t))
      case Bad => Bad
      case Got(n, next) =>
        if t.Shortstr? || t.Longstr? then
          (match GetBytes(b, next, n)
           case Bad => Bad
           case Got(s, last) => Got(Str(s), last))
        else Got(Uint(n), next)
  }

  /** `bit_buffer` and the structure after a decoder line, and the offset it moves to. */
  function DecodeLine(line: DecoderLine, b: Bytes, o: nat, bits: bv8, m: seq<Field>): Decoded<(bv8, seq<Field>)> {
    match line
    case GetBits =>
      if o < |b| then Got((FromOctet(b[o]), m), o + 1) else Bad
    case TestBit(f, bit) =>
      if f < |m| then Got((bits, m[f := Flag(if BitSet(bits, bit) then 1 else 0)]), o) else Bad
    case GetField(t, f) =>
      match GetFieldValue(t, b, o)
      case Bad => Bad
      case Got(v, next) => if f < |m| then Got((bits, m[f := v]), next) else Bad
  }

  /** The decoder lines run on `b` from `o`, assigning members of the structure `m`. */
  function RunDecoder(lines: seq<DecoderLine>, b: Bytes, o: nat, bits: bv8, m: seq<Field>): Decoded<seq<Field>> {
    if lines == [] then Got(m, o)
    else
      match DecodeLine(lines[0], b, o, bits, m)
      case Bad => Bad
      case Got(after, next) => RunDecoder(lines[1..], b, next, after.0, after.1)
  }

  //////////////////////////////////////////////////////////////////////////////
  // What is emitted
  //////////////////////////////////////////////////////////////////////////////

  /** The encoder lines for the arguments from `i` on, when `bit` bits are pending. */
  function EncoderLines(types: seq<FieldType>, i: nat, bit: nat): seq<EncoderLine>
    requires i <= |types| && bit < 8
    decreases |types| - i
  {
    if i == |types| then Flush(bit)
    else if types[i].Bit? then
      if bit == 0 then [ClearBits] + ([OrBit(i, 0)] + EncoderLines(types, i + 1, 1))
      else if bit == 7 then [OrBit(i, 7)] + ([PutBits] + EncoderLines(types, i + 1, 0))
      else [OrBit(i, bit)] + EncoderLines(types, i + 1, bit + 1)
    else Flush(bit) + ([PutField(types[i], i)] + EncoderLines(types, i + 1, 0))
  }

  function Flush(bit: nat): seq<EncoderLine> {
    if bit != 0 then [PutBits] else []
  }

  function DecoderLines(types: seq<FieldType>, i: nat, bit: nat): seq<DecoderLine>
    requires i <= |types| && bit < 8
    decreases |types| - i
  {
    if i == |types| then []
    else if types[i].Bit? then
      (if bit == 0 then [GetBits] else [])
      + ([TestBit(i, bit)] + DecoderLines(types, i + 1, (bit + 1) % 8))
    else [GetField(types[i], i)] + DecoderLines(types, i + 1, 0)
  }

  /** The octets the emitted encoder writes for the structure `m`. */
  function EncMethod(types: seq<FieldType>, m: seq<Field>): Option<Bytes> {
    RunEncoder(EncoderLines(types, 0, 0), m, 0)
  }

  /** The structure the emitted decoder fills in, `raw` being its contents before. */
  function DecMethod(types: seq<FieldType>, b: Bytes, o: nat, raw: seq<Field>): Decoded<seq<Field>> {
    RunDecoder(DecoderLines(types, 0, 0), b, o, 0, raw)
  }

  /** The lines for one bit argument. */
  function BitLines(f: nat, bit: nat): seq<EncoderLine> {
    (if bit == 0 then [ClearBits] else []) + [OrBit(f, bit)] + (if bit == 7 then [PutBits] else [])
  }

  lemma EncoderLinesStep(types: seq<FieldType>, i: nat, bit: nat)
    requires i < |types| && bit < 8
    ensures EncoderLines(types, i, bit)
            == if types[i].Bit? then BitLines(i, bit) + EncoderLines(types, i + 1, (bit + 1) % 8)
               else (Flush(bit) + [PutField(types[i], i)]) + EncoderLines(types, i + 1, 0)
  {
    if types[i].Bit? {
      BitLinesInFront(i, bit, EncoderLines(types, i + 1, (bit + 1) % 8));
    } else {
      Regroup(Flush(bit), [PutField(types[i], i)], EncoderLines(types, i + 1, 0));
    }
  }

  lemma BitLinesInFront(i: nat, bit: nat, rest: seq<EncoderLine>)
    requires bit < 8
    ensures BitLines(i, bit) + rest
            == if bit == 0 then [ClearBits] + ([OrBit(i, 0)] + rest)
               else if bit == 7 then [OrBit(i, 7)] + ([PutBits] + rest)
               else [OrBit(i, bit)] + rest
  {
  }

  /** `BitEncoder`. */
  class BitEncoder {
    var bit: nat
    var lines: seq<EncoderLine>

    constructor ()
      ensures bit == 0 && lines == []
    {
      bit := 0;
      lines := [];
    }

    method FlushBits()
      modifies this
      ensures bit == 0 && lines == old(lines) + Flush(old(bit))
    {
      if bit != 0 {
        lines := lines + [PutBits];
        bit := 0;
      }
    }

    method Emit(line: EncoderLine)
      modifies this
      ensures bit == 0 && lines == old(lines) + (Flush(old(bit)) + [line])
    {
      FlushBits();
      lines := lines + [line];
    }

    method EncodeBit(f: nat)
      requires bit < 8
      modifies this
      ensures bit == (old(bit) + 1) % 8
      ensures lines == old(lines) + BitLines(f, old(bit))
    {
      if bit == 0 {
        lines := lines + [ClearBits];
      }
      lines := lines + [OrBit(f, bit)];
      bit := bit + 1;
      if bit == 8 {
        FlushBits();
      }
    }
  }

  /** `genEncodeMethodFields`. */
  method GenEncodeMethodFields(types: seq<FieldType>) returns (lines: seq<EncoderLine>)
    ensures lines == EncoderLines(types, 0, 0)
  {
    hide EncoderLines, BitLines, Flush;
    var emitter := new BitEncoder();
    ghost var all := EncoderLines(types, 0, 0);
    assert all == emitter.lines + all;
    for i := 0 to |types|
      invariant emitter.bit < 8
      invariant all == emitter.lines + EncoderLines(types, i, emitter.bit)
    {
      ghost var before, bit := emitter.lines, emitter.bit;
      EncoderLinesStep(types, i, bit);
      if types[i].Bit? {
        emitter.EncodeBit(i);
        Regroup(before, BitLines(i, bit), EncoderLines(types, i + 1, emitter.bit));
      } else {
        emitter.Emit(PutField(types[i], i));
        Regroup(before, Flush(bit) + [PutField(types[i], i)], EncoderLines(types, i + 1, 0));
      }
    }
    EncoderLinesEnd(types, emitter.bit);
    emitter.FlushBits();
    return emitter.lines;
  }

  lemma EncoderLinesEnd(types: seq<FieldType>, bit: nat)
    requires bit < 8
    ensures EncoderLines(types, |types|, bit) == Flush(bit)
  {
  }

  lemma Regroup<T>(a: seq<T>, b: seq<T>, c: seq<T>)
    ensures a + (b + c) == (a + b) + c
  {
  }

  /** `BitDecoder`. */
  class BitDecoder {
    var bit: nat
    var lines: seq<DecoderLine>

    constructor ()
      ensures bit == 0 && lines == []
    {
      bit := 0;
      lines := [];
    }

    method Emit(line: DecoderLine)
      modifies this
      ensures bit == 0 && lines == old(lines) + [line]
    {
      bit := 0;
      lines := lines + [line];
    }

    method DecodeBit(f: nat)
      requires bit < 8
      modifies this
      ensures bit == (old(bit) + 1) % 8
      ensures lines == old(lines) + ((if old(bit) == 0 then [GetBits] else []) + [TestBit(f, old(bit))])
    {
      if bit == 0 {
        lines := lines + [GetBits];
      }
      lines := lines + [TestBit(f, bit)];
      bit := bit + 1;
      if bit == 8 {
        bit := 0;
      }
    }
  }

  /** `genDecodeMethodFields`. */
  method GenDecodeMethodFields(types: seq<FieldType>) returns (lines: seq<DecoderLine>)
    ensures lines == DecoderLines(types, 0, 0)
  {
    hide DecoderLines;
    var emitter := new BitDecoder();
    ghost var all := DecoderLines(types, 0, 0);
    assert all == emitter.lines + all;
    for i := 0 to |types|
      invariant emitter.bit < 8
      invariant all == emitter.lines + DecoderLines(types, i, emitter.bit)
    {
      ghost var before, bit := emitter.lines, emitter.bit;
      DecoderLinesStep(types, i, bit);
      if types[i].Bit? {
        emitter.DecodeBit(i);
        Regroup(before, (if bit == 0 then [GetBits] else []) + [TestBit(i, bit)],
                DecoderLines(types, i + 1, emitter.bit));
      } else {
        emitter.Emit(GetField(types[i], i));
        Regroup(before, [GetField(types[i], i)], DecoderLines(types, i + 1, 0));
      }
    }
    DecoderLinesStep(types, |types|, emitter.bit);
    return emitter.lines;
  }

  lemma DecoderLinesStep(types: seq<FieldType>, i: nat, bit: nat)
    requires i <= |types| && bit < 8
    ensures DecoderLines(types, i, bit)
            == if i == |types| then []
               else if types[i].Bit? then
                 ((if bit == 0 then [GetBits] else []) + [TestBit(i, bit)]) + DecoderLines(types, i + 1, (bit + 1) % 8)
               else [GetField(types[i], i)] + DecoderLines(types, i + 1, 0)
  {
  }

  //////////////////////////////////////////////////////////////////////////////
  // The emitted decoder undoes the emitted encoder
  //////////////////////////////////////////////////////////////////////////////

  lemma RunEncoderCons(line: EncoderLine, lines: seq<EncoderLine>, m: seq<Field>, bits: bv8)
    ensures RunEncoder([line] + lines, m, bits)
            == (match LineBytes(line, m, bits)
                case None => None
                case Some(first) =>
                  match RunEncoder(lines, m, BitsAfter(line, m, bits))
                  case None => None
                  case Some(rest) => Some(first + rest))
  {
    assert ([line] + lines)[1..] == lines;
  }

  /** What precedes the octets that `rest` writes. */
  function Then(first: Bytes, rest: Option<Bytes>): Option<Bytes> {
    match rest
    case None => None
    case Some(s) => Some(first + s)
  }

  lemma ThenNothing(rest: Option<Bytes>)
    ensures Then([], rest) == rest
  {
    assert rest.Some? ==> [] + rest.value == rest.value;
  }

  /** The octets written from a bit argument on. */
  lemma EncodeBitStep(types: seq<FieldType>, m: seq<Field>, i: nat, bit: nat, bits: bv8)
    requires i < |types| && types[i].Bit? && bit < 8
    ensures var bits' := BitsAfter(OrBit(i, bit), m, if bit == 0 then 0 else bits);
            RunEncoder(EncoderLines(types, i, bit), m, bits)
            == Then(if bit == 7 then [ToOctet(bits')] else [],
                    RunEncoder(EncoderLines(types, i + 1, (bit + 1) % 8), m, bits'))
  {
    hide RunEncoder, FieldBytes, ToOctet, Mask;
    var bits' := BitsAfter(OrBit(i, bit), m, if bit == 0 then 0 else bits);
    var lines := EncoderLines(types, i + 1, (bit + 1) % 8);
    var rest := RunEncoder(lines, m, bits');
    ThenNothing(rest);
    if bit == 0 {
      RunEncoderCons(ClearBits, [OrBit(i, 0)] + lines, m, bits);
      RunEncoderCons(OrBit(i, 0), lines, m, 0);
    } else if bit == 7 {
      RunEncoderCons(OrBit(i, 7), [PutBits] + lines, m, bits);
      RunEncoderCons(PutBits, lines, m, bits');
      ThenNothing(RunEncoder([PutBits] + lines, m, bits'));
    } else {
      RunEncoderCons(OrBit(i, bit), lines, m, bits);
    }
  }

  /** The octets written from any other argument on: the pending bits come first. */
  lemma EncodeFieldStep(types: seq<FieldType>, m: seq<Field>, i: nat, bit: nat, bits: bv8)
    requires i < |types| && i < |m| && !types[i].Bit? && bit < 8 && FieldBytes(types[i], m[i]).Some?
    ensures RunEncoder(EncoderLines(types, i, bit), m, bits)
            == Then(if bit != 0 then [ToOctet(bits)] else [],
                    Then(FieldBytes(types[i], m[i]).value, RunEncoder(EncoderLines(types, i + 1, 0), m, bits)))
  {
    hide FieldBytes;
    var lines := EncoderLines(types, i + 1, 0);
    var put := PutField(types[i], i);
    RunEncoderCons(put, lines, m, bits);
    if bit != 0 {
      assert Flush(bit) + ([put] + lines) == [PutBits] + ([put] + lines);
      RunEncoderCons(PutBits, [put] + lines, m, bits);
    } else {
      assert Flush(bit) + ([put] + lines) == [put] + lines;
      ThenNothing(RunEncoder([put] + lines, m, bits));
    }
  }

  lemma OrKeepsOtherBits(m: seq<Field>, f: nat, bit: nat, bits: bv8, j: nat)
    requires bit < 8 && j < 8 && j != bit
    ensures BitSet(BitsAfter(OrBit(f, bit), m, bits), j) == BitSet(bits, j)
  {
  }

  lemma OctetOfBits(bits: bv8)
    ensures FromOctet(ToOctet(bits)) == bits
  {
  }

  lemma FlushRuns(m: seq<Field>, bits: bv8)
    ensures RunEncoder([PutBits], m, bits) == Some([ToOctet(bits)])
  {
    assert [PutBits][1..] == [];
    assert [ToOctet(bits)] + [] == [ToOctet(bits)];
  }

  /** The octet that the pending bits end up in keeps them unchanged. */
  ghost predicate Keeps(out: Option<Bytes>, bit: nat, bits: bv8) {
    && out.Some? && out.value != []
    && forall j | 0 <= j < bit :: BitSet(FromOctet(out.value[0]), j) == BitSet(bits, j)
  }

  lemma KeepsFirst(bit: nat, bits: bv8, rest: Bytes)
    ensures Keeps(Some([ToOctet(bits)] + rest), bit, bits)
  {
    OctetOfBits(bits);
  }

  lemma KeepsEarlier(out: Option<Bytes>, m: seq<Field>, f: nat, bit: nat, bits: bv8)
    requires bit < 8 && Keeps(out, bit, BitsAfter(OrBit(f, bit), m, bits))
    ensures Keeps(out, bit, bits)
  {
    forall j | 0 <= j < bit ensures BitSet(BitsAfter(OrBit(f, bit), m, bits), j) == BitSet(bits, j) {
      OrKeepsOtherBits(m, f, bit, bits, j);
    }
  }

  lemma KeepsFewer(out: Option<Bytes>, bit: nat, bits: bv8)
    requires Keeps(out, bit + 1, bits)
    ensures Keeps(out, bit, bits)
  {
  }

  lemma LastBitsKept(types: seq<FieldType>, m: seq<Field>, bit: nat, bits: bv8)
    requires 0 < bit < 8
    ensures Keeps(RunEncoder(EncoderLines(types, |types|, bit), m, bits), bit, bits)
  {
    hide Keeps, ToOctet;
    FlushRuns(m, bits);
    KeepsFirst(bit, bits, []);
    assert [ToOctet(bits)] + [] == [ToOctet(bits)];
  }

  /** Pending bits end up, unchanged, in the first octet that is written. */
  lemma {:induction false} PendingOctet(types: seq<FieldType>, m: seq<Field>, i: nat, bit: nat, bits: bv8)
    requires HasTypes(types, m) && AllEncodable(types, m) && i <= |types| && 0 < bit < 8
    ensures Keeps(RunEncoder(EncoderLines(types, i, bit), m, bits), bit, bits)
    decreases |types| - i
  {
    hide BitsAfter, Keeps, RunEncoder, Encodable, HasType, FieldBytes, ToOctet, FromOctet, BitSet, Mask, EncoderLines;
    if i == |types| {
      LastBitsKept(types, m, bit, bits);
    } else if types[i].Bit? {
      EncodeBitStep(types, m, i, bit, bits);
      var bits' := BitsAfter(OrBit(i, bit), m, bits);
      if bit < 7 {
        PendingOctet(types, m, i + 1, bit + 1, bits');
        ThenNothing(RunEncoder(EncoderLines(types, i + 1, bit + 1), m, bits'));
        KeepsFewer(RunEncoder(EncoderLines(types, i, bit), m, bits), bit, bits');
      } else {
        EncoderAccepts(types, m, i + 1, 0, bits');
        KeepsFirst(bit, bits', RunEncoder(EncoderLines(types, i + 1, 0), m, bits').value);
      }
      KeepsEarlier(RunEncoder(EncoderLines(types, i, bit), m, bits), m, i, bit, bits);
    } else {
      FieldAccepts(types[i], m[i]);
      EncodeFieldStep(types, m, i, bit, bits);
      EncoderAccepts(types, m, i + 1, 0, bits);
      KeepsFirst(bit, bits, FieldBytes(types[i], m[i]).value + RunEncoder(EncoderLines(types, i + 1, 0), m, bits).value);
    }
  }

  lemma FieldAccepts(t: FieldType, v: Field)
    requires HasType(t, v) && !t.Bit?
    ensures FieldBytes(t, v).Some? <==> Encodable(t, v)
  {
  }

  /** The emitted encoder accepts every encodable structure. */
  lemma {:induction false} EncoderAccepts(types: seq<FieldType>, m: seq<Field>, i: nat, bit: nat, bits: bv8)
    requires HasTypes(types, m) && AllEncodable(types, m) && i <= |types| && bit < 8
    ensures RunEncoder(EncoderLines(types, i, bit), m, bits).Some?
    decreases |types| - i
  {
    if i == |types| {
      RunEncoderCons(PutBits, [], m, bits);
      assert [PutBits] + [] == [PutBits];
    } else {
      hide EncoderLines, RunEncoder, Encodable, HasType;
      if types[i].Bit? {
        EncodeBitStep(types, m, i, bit, bits);
        EncoderAccepts(types, m, i + 1, (bit + 1) % 8, BitsAfter(OrBit(i, bit), m, if bit == 0 then 0 else bits));
      } else {
        FieldAccepts(types[i], m[i]);
        EncodeFieldStep(types, m, i, bit, bits);
        EncoderAccepts(types, m, i + 1, 0, bits);
      }
    }
  }

  lemma FieldRoundTrip(t: FieldType, v: Field, b: Bytes, o: nat)
    requires HasType(t, v) && !t.Bit? && Encodable(t, v) && PortableField(v)
    requires |b| < UINT32_MODULUS && At(b, o, FieldBytes(t, v).value)
    ensures GetFieldValue(t, b, o) == Got(v, o + |FieldBytes(t, v).value|)
  {
    hide Be, DecTable, EncTable;
    match v
    case Uint(n) =>
      GetPutUint(b, o, WidthOf(t), n);
    case Str(text) =>
      AtSplit(b, o, Be(WidthOf(t), |text|), text);
      GetPutUint(b, o, WidthOf(t), |text|);
    case Tab(entries) =>
      DecEncTable(b, o, entries);
  }

  lemma RunDecoderCons(line: DecoderLine, lines: seq<DecoderLine>, b: Bytes, o: nat, bits: bv8, m: seq<Field>)
    ensures var r := DecodeLine(line, b, o, bits, m);
            RunDecoder([line] + lines, b, o, bits, m)
            == if r.Bad? then Bad else RunDecoder(lines, b, r.next, r.value.0, r.value.1)
  {
    assert ([line] + lines)[1..] == lines;
  }

  /** The octets not yet loaded by the decoder: a pending octet has been. */
  function Unread(out: Bytes, bit: nat): Bytes {
    if bit > 0 && out != [] then out[1..] else out
  }

  /** The decoder stands at argument `i`, the members before it are read, and the octet that holds
      the pending bits is loaded. */
  ghost predicate InStep(types: seq<FieldType>, m: seq<Field>, i: nat, bit: nat, encBits: bv8,
                         b: Bytes, o: nat, decBits: bv8, read: seq<Field>)
    requires i <= |types| && bit < 8
  {
    && |read| == |m| && i <= |m| && read[..i] == m[..i]
    && var out := RunEncoder(EncoderLines(types, i, bit), m, encBits);
    && out.Some? && At(b, o, Unread(out.value, bit))
    && (bit > 0 ==> out.value != [] && decBits == FromOctet(out.value[0]))
    && forall j | bit <= j < 8 :: bit > 0 ==> !BitSet(encBits, j)
  }

  lemma OrSetsItsBit(m: seq<Field>, f: nat, bit: nat, bits: bv8)
    requires f < |m| && m[f].Flag? && bit < 8
    requires forall j | bit <= j < 8 :: !BitSet(bits, j)
    ensures BitSet(BitsAfter(OrBit(f, bit), m, bits), bit) == (m[f].x != 0)
    ensures forall j | bit < j < 8 :: !BitSet(BitsAfter(OrBit(f, bit), m, bits), j)
  {
    forall j | bit < j < 8 ensures !BitSet(BitsAfter(OrBit(f, bit), m, bits), j) {
      OrKeepsOtherBits(m, f, bit, bits, j);
    }
  }

  lemma NoBits()
    ensures forall j :: !BitSet(0, j)
  {
  }

  lemma {:induction false} RoundTripFrom(types: seq<FieldType>, m: seq<Field>, i: nat, bit: nat, encBits: bv8,
                                         b: Bytes, o: nat, decBits: bv8, read: seq<Field>)
    requires HasTypes(types, m) && AllEncodable(types, m) && AllPortable(m)
    requires i <= |types| && bit < 8 && |b| < UINT32_MODULUS
    requires InStep(types, m, i, bit, encBits, b, o, decBits, read)
    ensures RunDecoder(DecoderLines(types, i, bit), b, o, decBits, read)
            == Got(m, o + |Unread(RunEncoder(EncoderLines(types, i, bit), m, encBits).value, bit)|)
    decreases |types| - i
  {
    var out := RunEncoder(EncoderLines(types, i, bit), m, encBits).value;
    if i == |types| {
      assert read == m;
      FlushRuns(m, encBits);
    } else if types[i].Bit? {
      RoundTripBit(types, m, i, bit, encBits, b, o, decBits, read);
    } else {
      RoundTripField(types, m, i, bit, encBits, b, o, decBits, read);
    }
  }

  lemma {:induction false} RoundTripField(types: seq<FieldType>, m: seq<Field>, i: nat, bit: nat, encBits: bv8,
                                          b: Bytes, o: nat, decBits: bv8, read: seq<Field>)
    requires HasTypes(types, m) && AllEncodable(types, m) && AllPortable(m)
    requires i < |types| && !types[i].Bit? && bit < 8 && |b| < UINT32_MODULUS
    requires InStep(types, m, i, bit, encBits, b, o, decBits, read)
    ensures RunDecoder(DecoderLines(types, i, bit), b, o, decBits, read)
            == Got(m, o + |Unread(RunEncoder(EncoderLines(types, i, bit), m, encBits).value, bit)|)
    decreases |types| - i, 0
  {
    hide RunEncoder, EncoderLines, RunDecoder, Encodable, HasType, PortableField, At;
    hide FieldBytes, GetFieldValue;
    var out := RunEncoder(EncoderLines(types, i, bit), m, encBits).value;
    FieldAccepts(types[i], m[i]);
    EncodeFieldStep(types, m, i, bit, encBits);
    EncoderAccepts(types, m, i + 1, 0, encBits);
    var field := FieldBytes(types[i], m[i]).value;
    var rest := RunEncoder(EncoderLines(types, i + 1, 0), m, encBits).value;
    assert Unread(out, bit) == field + rest;
    AtSplit(b, o, field, rest);
    FieldRoundTrip(types[i], m[i], b, o);
    RunDecoderCons(GetField(types[i], i), DecoderLines(types, i + 1, 0), b, o, decBits, read);
    var read' := read[i := m[i]];
    assert read'[..i + 1] == m[..i + 1] by {
      assert read'[..i] == m[..i];
    }
    RoundTripFrom(types, m, i + 1, 0, encBits, b, o + |field|, decBits, read');
  }

  /** What a bit adds to the encoding, and to the octet in progress. */
  lemma BitAhead(types: seq<FieldType>, m: seq<Field>, i: nat, bit: nat, encBits: bv8)
    requires HasTypes(types, m) && AllEncodable(types, m) && AllPortable(m)
    requires i < |types| && types[i].Bit? && bit < 8
    requires forall j | bit <= j < 8 :: bit > 0 ==> !BitSet(encBits, j)
    ensures |m| == |types| && m[i].Flag? && (m[i].x == 0 || m[i].x == 1)
    ensures var bits' := BitsAfter(OrBit(i, bit), m, if bit == 0 then 0 else encBits);
            var rest := RunEncoder(EncoderLines(types, i + 1, (bit + 1) % 8), m, bits');
            && rest.Some?
            && RunEncoder(EncoderLines(types, i, bit), m, encBits)
               == (if bit == 7 then Some([ToOctet(bits')] + rest.value) else rest)
            && BitSet(bits', bit) == (m[i].x != 0) && (forall j | bit < j < 8 :: !BitSet(bits', j))
            && FromOctet(ToOctet(bits')) == bits'
  {
    hide RunEncoder, EncoderLines, Encodable, BitSet, ToOctet, FromOctet, BitsAfter;
    var bits := if bit == 0 then 0 else encBits;
    NoBits();
    EncodeBitStep(types, m, i, bit, encBits);
    OrSetsItsBit(m, i, bit, bits);
    var bits' := BitsAfter(OrBit(i, bit), m, bits);
    OctetOfBits(bits');
    EncoderAccepts(types, m, i + 1, (bit + 1) % 8, bits');
    ThenNothing(RunEncoder(EncoderLines(types, i + 1, (bit + 1) % 8), m, bits'));
  }

  /** A bit, at any place in its octet. */
  lemma {:induction false} RoundTripBit(types: seq<FieldType>, m: seq<Field>, i: nat, bit: nat, encBits: bv8,
                                        b: Bytes, o: nat, decBits: bv8, read: seq<Field>)
    requires HasTypes(types, m) && AllEncodable(types, m) && AllPortable(m)
    requires i < |types| && types[i].Bit? && bit < 8 && |b| < UINT32_MODULUS
    requires InStep(types, m, i, bit, encBits, b, o, decBits, read)
    ensures RunDecoder(DecoderLines(types, i, bit), b, o, decBits, read)
            == Got(m, o + |Unread(RunEncoder(EncoderLines(types, i, bit), m, encBits).value, bit)|)
    decreases |types| - i, 1
  {
    hide RunEncoder, EncoderLines, DecoderLines, RunDecoder, HasTypes, AllEncodable, AllPortable, InStep;
    if bit == 0 {
      RoundTripFirstBit(types, m, i, bit, encBits, b, o, decBits, read);
    } else if bit == 7 {
      RoundTripLastBit(types, m, i, bit, encBits, b, o, decBits, read);
    } else {
      RoundTripMiddleBit(types, m, i, bit, encBits, b, o, decBits, read);
    }
  }

  lemma ReadOneMore(m: seq<Field>, i: nat, read: seq<Field>)
    requires |read| == |m| && i < |m| && read[..i] == m[..i]
    ensures read[i := m[i]][..i + 1] == m[..i + 1]
  {
    assert read[i := m[i]][..i] == m[..i];
  }

  /** The first bit of an octet, which is loaded for it. */
  lemma {:induction false} RoundTripFirstBit(types: seq<FieldType>, m: seq<Field>, i: nat, bit: nat, encBits: bv8,
                                        b: Bytes, o: nat, decBits: bv8, read: seq<Field>)
    requires HasTypes(types, m) && AllEncodable(types, m) && AllPortable(m)
    requires i < |types| && types[i].Bit? && bit == 0 && |b| < UINT32_MODULUS
    requires InStep(types, m, i, bit, encBits, b, o, decBits, read)
    ensures RunDecoder(DecoderLines(types, i, bit), b, o, decBits, read)
            == Got(m, o + |Unread(RunEncoder(EncoderLines(types, i, bit), m, encBits).value, bit)|)
    decreases |types| - i, 0
  {
    hide RunEncoder, EncoderLines, RunDecoder, At, BitSet, ToOctet, FromOctet, BitsAfter;
    hide HasTypes, AllEncodable, AllPortable;
    BitAhead(types, m, i, bit, encBits);
    var bits' := BitsAfter(OrBit(i, bit), m, 0);
    var lines := DecoderLines(types, i + 1, (bit + 1) % 8);
    var read' := read[i := m[i]];
    ReadOneMore(m, i, read);
    var rest := RunEncoder(EncoderLines(types, i + 1, 1), m, bits');
    PendingOctet(types, m, i + 1, 1, bits');
    AtSplit(b, o, [rest.value[0]], rest.value[1..]);
    assert [rest.value[0]] + rest.value[1..] == rest.value;
    AtOctet(b, o, rest.value[0]);
    RunDecoderCons(GetBits, [TestBit(i, 0)] + lines, b, o, decBits, read);
    RunDecoderCons(TestBit(i, 0), lines, b, o + 1, FromOctet(b[o]), read);
    RoundTripFrom(types, m, i + 1, 1, bits', b, o + 1, FromOctet(b[o]), read');
  }

  /** The last bit of an octet, with which it is complete. */
  lemma {:induction false} RoundTripLastBit(types: seq<FieldType>, m: seq<Field>, i: nat, bit: nat, encBits: bv8,
                                        b: Bytes, o: nat, decBits: bv8, read: seq<Field>)
    requires HasTypes(types, m) && AllEncodable(types, m) && AllPortable(m)
    requires i < |types| && types[i].Bit? && bit == 7 && |b| < UINT32_MODULUS
    requires InStep(types, m, i, bit, encBits, b, o, decBits, read)
    ensures RunDecoder(DecoderLines(types, i, bit), b, o, decBits, read)
            == Got(m, o + |Unread(RunEncoder(EncoderLines(types, i, bit), m, encBits).value, bit)|)
    decreases |types| - i, 0
  {
    hide RunEncoder, EncoderLines, RunDecoder, At, BitSet, ToOctet, FromOctet, BitsAfter;
    hide HasTypes, AllEncodable, AllPortable;
    BitAhead(types, m, i, bit, encBits);
    var bits' := BitsAfter(OrBit(i, bit), m, encBits);
    var lines := DecoderLines(types, i + 1, (bit + 1) % 8);
    var read' := read[i := m[i]];
    ReadOneMore(m, i, read);
    var rest := RunEncoder(EncoderLines(types, i + 1, 0), m, bits');
    assert Unread([ToOctet(bits')] + rest.value, bit) == rest.value;
    assert decBits == bits';
    RunDecoderCons(TestBit(i, 7), lines, b, o, decBits, read);
    assert DecoderLines(types, i, bit) == [TestBit(i, 7)] + lines;
    RoundTripFrom(types, m, i + 1, 0, bits', b, o, decBits, read');
  }

  /** Any other bit. */
  lemma {:induction false} RoundTripMiddleBit(types: seq<FieldType>, m: seq<Field>, i: nat, bit: nat, encBits: bv8,
                                        b: Bytes, o: nat, decBits: bv8, read: seq<Field>)
    requires HasTypes(types, m) && AllEncodable(types, m) && AllPortable(m)
    requires i < |types| && types[i].Bit? && 0 < bit < 7 && |b| < UINT32_MODULUS
    requires InStep(types, m, i, bit, encBits, b, o, decBits, read)
    ensures RunDecoder(DecoderLines(types, i, bit), b, o, decBits, read)
            == Got(m, o + |Unread(RunEncoder(EncoderLines(types, i, bit), m, encBits).value, bit)|)
    decreases |types| - i, 0
  {
    hide RunEncoder, EncoderLines, RunDecoder, At, BitSet, ToOctet, FromOctet, BitsAfter;
    hide HasTypes, AllEncodable, AllPortable;
    BitAhead(types, m, i, bit, encBits);
    var bits' := BitsAfter(OrBit(i, bit), m, encBits);
    var lines := DecoderLines(types, i + 1, (bit + 1) % 8);
    var read' := read[i := m[i]];
    ReadOneMore(m, i, read);
    PendingOctet(types, m, i + 1, bit + 1, bits');
    RunDecoderCons(TestBit(i, bit), lines, b, o, decBits, read);
    assert DecoderLines(types, i, bit) == [TestBit(i, bit)] + lines;
    RoundTripFrom(types, m, i + 1, bit + 1, bits', b, o, decBits, read');
  }

  /** For every list of argument types and every structure the encoder accepts, the decoder gives
      back the structure and stops where the encoder stopped, whatever was in its memory before. */
  lemma MethodRoundTrip(types: seq<FieldType>, m: seq<Field>, b: Bytes, o: nat, raw: seq<Field>)
    requires HasTypes(types, m) && AllEncodable(types, m) && AllPortable(m)
    requires |raw| == |m| && |b| < UINT32_MODULUS
    requires EncMethod(types, m).Some? ==> At(b, o, EncMethod(types, m).value)
    ensures EncMethod(types, m).Some?
    ensures DecMethod(types, b, o, raw) == Got(m, o + |EncMethod(types, m).value|)
  {
    EncoderAccepts(types, m, 0, 0, 0);
    RoundTripFrom(types, m, 0, 0, 0, b, o, 0, raw);
  }

  lemma FieldYields(t: FieldType, b: Bytes, o: nat)
    requires GetFieldValue(t, b, o).Got?
    ensures PortableField(GetFieldValue(t, b, o).value)
  {
    if t.FieldTable? {
      DecTableYields(b, o);
    }
  }

  /** Every member from `i` on is assigned, and to something portable; earlier ones are left alone. */
  lemma {:induction false} DecoderAssigns(types: seq<FieldType>, i: nat, bit: nat, b: Bytes, o: nat, bits: bv8,
                                          read: seq<Field>)
    requires i <= |types| == |read| && bit < 8
    requires RunDecoder(DecoderLines(types, i, bit), b, o, bits, read).Got?
    ensures var m := RunDecoder(DecoderLines(types, i, bit), b, o, bits, read).value;
            |m| == |read| && m[..i] == read[..i] && forall k | i <= k < |m| :: PortableField(m[k])
    decreases |types| - i
  {
    hide PortableField, GetFieldValue, BitSet, FromOctet;
    if i < |types| {
      if types[i].Bit? {
        var lines := DecoderLines(types, i + 1, (bit + 1) % 8);
        if bit == 0 {
          RunDecoderCons(GetBits, [TestBit(i, 0)] + lines, b, o, bits, read);
          DecoderAssignsBit(types, i, 0, b, o + 1, FromOctet(b[o]), read);
        } else {
          assert DecoderLines(types, i, bit) == [TestBit(i, bit)] + lines;
          DecoderAssignsBit(types, i, bit, b, o, bits, read);
        }
      } else {
        RunDecoderCons(GetField(types[i], i), DecoderLines(types, i + 1, 0), b, o, bits, read);
        var r := GetFieldValue(types[i], b, o);
        FieldYields(types[i], b, o);
        DecoderAssigns(types, i + 1, 0, b, r.next, bits, read[i := r.value]);
        AssignedNext(read, i, r.value, RunDecoder(DecoderLines(types, i, bit), b, o, bits, read).value);
      }
    }
  }

  lemma {:induction false} DecoderAssignsBit(types: seq<FieldType>, i: nat, bit: nat, b: Bytes, o: nat, bits: bv8,
                                             read: seq<Field>)
    requires i < |types| == |read| && bit < 8
    requires RunDecoder([TestBit(i, bit)] + DecoderLines(types, i + 1, (bit + 1) % 8), b, o, bits, read).Got?
    ensures var m := RunDecoder([TestBit(i, bit)] + DecoderLines(types, i + 1, (bit + 1) % 8), b, o, bits, read).value;
            |m| == |read| && m[..i] == read[..i] && forall k | i <= k < |m| :: PortableField(m[k])
    decreases |types| - i, 0
  {
    hide BitSet;
    var lines := DecoderLines(types, i + 1, (bit + 1) % 8);
    var flag := Flag(if BitSet(bits, bit) then 1 else 0);
    RunDecoderCons(TestBit(i, bit), lines, b, o, bits, read);
    DecoderAssigns(types, i + 1, (bit + 1) % 8, b, o, bits, read[i := flag]);
    AssignedNext(read, i, flag, RunDecoder([TestBit(i, bit)] + lines, b, o, bits, read).value);
  }

  lemma AssignedNext(read: seq<Field>, i: nat, v: Field, m: seq<Field>)
    requires i < |read| == |m| && PortableField(v) && m[..i + 1] == read[i := v][..i + 1]
    requires forall k | i + 1 <= k < |m| :: PortableField(m[k])
    ensures m[..i] == read[..i] && forall k | i <= k < |m| :: PortableField(m[k])
  {
    assert m[i] == m[..i + 1][i] == v;
    assert m[..i] == m[..i + 1][..i] == read[i := v][..i + 1][..i] == read[..i];
  }

  /** A structure the encoder accepts comes back exactly when its booleans are 0 or 1 and its tables
      are portable. */
  lemma MethodRoundTripIff(types: seq<FieldType>, m: seq<Field>, b: Bytes, o: nat, raw: seq<Field>)
    requires HasTypes(types, m) && AllEncodable(types, m)
    requires |raw| == |m| && |b| < UINT32_MODULUS
    requires EncMethod(types, m).Some? ==> At(b, o, EncMethod(types, m).value)
    ensures EncMethod(types, m).Some?
    ensures DecMethod(types, b, o, raw) == Got(m, o + |EncMethod(types, m).value|) <==> AllPortable(m)
  {
    EncoderAccepts(types, m, 0, 0, 0);
    if AllPortable(m) {
      MethodRoundTrip(types, m, b, o, raw);
    } else if DecMethod(types, b, o, raw).Got? {
      DecoderAssigns(types, 0, 0, b, o, 0, raw);
    }
  }

  lemma RunsNothing(m: seq<Field>, bits: bv8)
    ensures RunEncoder([], m, bits) == Some([])
  {
  }

  /** A run of bits takes one octet for every eight of them, the last one possibly in part. */
  lemma {:induction false} BitRunOctets(types: seq<FieldType>, m: seq<Field>, i: nat, bit: nat, bits: bv8)
    requires HasTypes(types, m) && i <= |types| && bit < 8
    requires forall k | i <= k < |types| :: types[k].Bit?
    ensures var out := RunEncoder(EncoderLines(types, i, bit), m, bits);
            out.Some? && |out.value| == (bit + (|types| - i) + 7) / 8
    decreases |types| - i
  {
    hide BitsAfter, ToOctet, HasType, HasTypes, EncoderLines, RunEncoder;
    if i == |types| {
      EncoderLinesEnd(types, bit);
      FlushRuns(m, bits);
      RunsNothing(m, bits);
    } else {
      EncodeBitStep(types, m, i, bit, bits);
      BitRunOctets(types, m, i + 1, (bit + 1) % 8, BitsAfter(OrBit(i, bit), m, if bit == 0 then 0 else bits));
    }
  }

  //////////////////////////////////////////////////////////////////////////////
  // Fields octet by octet
  //////////////////////////////////////////////////////////////////////////////

  /** The range and the octets of each type of field. */
  lemma FieldOctets(t: FieldType, v: Field)
    requires !t.Bit?
    ensures v.Uint? ==>
              match t
              case Octet => (HasType(t, v) <==> v.n < 0x100) && FieldBytes(t, v) == Some(Be(1, v.n))
              case Short => (HasType(t, v) <==> v.n < 0x1_0000) && FieldBytes(t, v) == Some(Be(2, v.n))
              case Long => (HasType(t, v) <==> v.n < 0x1_0000_0000) && FieldBytes(t, v) == Some(Be(4, v.n))
              case Longlong => (HasType(t, v) <==> v.n < 0x1_0000_0000_0000_0000) && FieldBytes(t, v) == Some(Be(8, v.n))
              case _ => !HasType(t, v)
    ensures v.Str? ==>
              match t
              case Shortstr => FieldBytes(t, v) == if |v.s| <= 255 then Some(Be(1, |v.s|) + v.s) else None
              case Longstr => FieldBytes(t, v) == if |v.s| < 0x1_0000_0000 then Some(Be(4, |v.s|) + v.s) else None
              case _ => !HasType(t, v)
    ensures v.Tab? && HasType(t, v) ==>
              t.FieldTable? && FieldBytes(t, v) == if KnownEntries(v.entries) then Some(EncTable(v.entries)) else None
    ensures v.Flag? ==> !HasType(t, v)
  {
    hide Be;
    Pow256Values();
  }

  //////////////////////////////////////////////////////////////////////////////
  // Bits as numbers
  //////////////////////////////////////////////////////////////////////////////

  lemma HalfFirst(x: nat, p: nat)
    requires p > 0
    ensures x / 2 / p == x / (2 * p)
  {
    var h, r := x / 2, x % 2;
    var q, s := h / p, h % p;
    Twice(p, q);
    QuotientIs(x, 2 * p, q, 2 * s + r);
  }

  lemma Twice(p: nat, q: nat)
    ensures (2 * p) * q == p * q + p * q
  {
  }

  lemma QuotientIs(x: nat, p: nat, q: nat, r: nat)
    requires p > 0 && r < p && x == p * q + r
    ensures x / p == q
  {
    var d := x / p - q;
    assert p * d == r - x % p;
    MultiplesAreFar(p, d);
  }

  lemma MultiplesAreFar(p: nat, d: int)
    ensures d == 0 || p * d >= p || p * d + p <= 0
  {
  }

  lemma LowestBit(bits: bv8)
    ensures BitSet(bits, 0) <==> ToOctet(bits) % 2 == 1
  {
  }

  lemma ShiftHalves(bits: bv8)
    ensures ToOctet(bits >> 1) == ToOctet(bits) / 2
  {
  }

  lemma ShiftMovesBits(bits: bv8, bit: nat)
    requires 0 < bit < 8
    ensures BitSet(bits, bit) <==> BitSet(bits >> 1, bit - 1)
  {
  }

  lemma SeparateBitsAdd(a: bv8, b: bv8)
    requires a & b == 0
    ensures ToOctet(a | b) == ToOctet(a) + ToOctet(b)
  {
  }

  lemma HalfMask(bit: nat)
    requires 0 < bit < 8
    ensures Mask(bit) >> 1 == Mask(bit - 1) && ToOctet(Mask(bit)) % 2 == 0
  {
  }

  /** The `bit`-th bit of `bit_buffer` is the one of value 2 to the power of `bit`. */
  lemma {:induction false} BitIsDigit(bits: bv8, bit: nat)
    requires bit < 8
    ensures BitSet(bits, bit) <==> ToOctet(bits) / Pow2(bit) % 2 == 1
    ensures ToOctet(Mask(bit)) == Pow2(bit)
  {
    hide BitSet, ToOctet, Mask;
    if bit == 0 {
      LowestBit(bits);
      LowestMask();
    } else {
      ShiftMovesBits(bits, bit);
      ShiftHalves(bits);
      BitIsDigit(bits >> 1, bit - 1);
      HalfFirst(ToOctet(bits), Pow2(bit - 1));
      HalfMask(bit);
      ShiftHalves(Mask(bit));
    }
  }

  lemma LowestMask()
    ensures ToOctet(Mask(0)) == 1
  {
  }

  lemma ShiftDoubles(bits: bv8)
    requires ToOctet(bits) < 128
    ensures ToOctet(bits << 1) == 2 * ToOctet(bits) && (bits << 1) & 1 == 0
  {
  }

  /** The bits of a number, from the highest down. */
  lemma {:induction false} BitsOf(n: nat) returns (bits: bv8)
    requires n < 256
    ensures ToOctet(bits) == n
  {
    hide ToOctet;
    SmallOctets();
    bits := 0;
    if n > 0 {
      var half := BitsOf(n / 2);
      ShiftDoubles(half);
      if n % 2 == 1 {
        SeparateBitsAdd(half << 1, 1);
        bits := (half << 1) | 1;
      } else {
        bits := half << 1;
      }
    }
  }

  lemma SmallOctets()
    ensures ToOctet(0) == 0 && ToOctet(1) == 1
  {
  }

  lemma OctetIsKept(octet: byte)
    ensures ToOctet(FromOctet(octet)) == octet
  {
    hide ToOctet, FromOctet;
    var bits := BitsOf(octet);
    OctetOfBits(bits);
  }

  /** The sum of the values of the bits among the members from `i` to `i + n`. */
  function BitSum(m: seq<Field>, i: nat, n: nat): nat
    requires i + n <= |m|
  {
    if n == 0 then 0
    else BitSum(m, i, n - 1) + if m[i + n - 1].Flag? && m[i + n - 1].x != 0 then Pow2(n - 1) else 0
  }

  lemma {:induction false} BitSumIsSmall(m: seq<Field>, i: nat, n: nat)
    requires i + n <= |m|
    ensures BitSum(m, i, n) < Pow2(n)
  {
    if n > 0 {
      BitSumIsSmall(m, i, n - 1);
    }
  }

  /** Adding a bit to a sum of lower ones. */
  lemma OrAdds(m: seq<Field>, i: nat, bit: nat, bits: bv8)
    requires i + bit < |m| && bit < 8 && ToOctet(bits) == BitSum(m, i, bit)
    ensures ToOctet(BitsAfter(OrBit(i + bit, bit), m, bits)) == BitSum(m, i, bit + 1)
  {
    hide ToOctet, Mask, Pow2;
    BitSumIsSmall(m, i, bit);
    BitIsDigit(bits, bit);
    SmallQuotient(ToOctet(bits), Pow2(bit));
    SeparateBitsAdd(bits, Mask(bit));
  }

  lemma SmallQuotient(x: nat, p: nat)
    requires x < p
    ensures x / p == 0
  {
  }

  /** A run of at most eight bits, with no bit behind it that would go into the same octet: the octet is
      the sum of the values of the bits that are set. */
  lemma BitRunValue(types: seq<FieldType>, m: seq<Field>, i: nat, n: nat, bits: bv8)
    requires HasTypes(types, m) && AllEncodable(types, m) && 0 < n <= 8 && i + n <= |types|
    requires forall k | i <= k < i + n :: types[k].Bit?
    requires n == 8 || i + n == |types| || !types[i + n].Bit?
    ensures BitSum(m, i, n) < 256
    ensures RunEncoder(EncoderLines(types, i, 0), m, bits)
            == Then([BitSum(m, i, n)], RunEncoder(EncoderLines(types, i + n, 0), m, 0))
  {
    hide RunEncoder, EncoderLines, HasType, Encodable, ToOctet, BitsAfter;
    NoBitsYet();
    var bits' := BitsAfter(OrBit(i, 0), m, 0);
    OrAdds(m, i, 0, 0);
    EncodeBitStep(types, m, i, 0, bits);
    ThenNothing(RunEncoder(EncoderLines(types, i + 1, 1), m, bits'));
    BitRunFrom(types, m, i, 1, n, bits');
  }

  lemma NoBitsYet()
    ensures ToOctet(0) == 0
  {
  }

  lemma {:induction false} BitRunFrom(types: seq<FieldType>, m: seq<Field>, i: nat, j: nat, n: nat, bits: bv8)
    requires HasTypes(types, m) && AllEncodable(types, m) && 0 < j <= n <= 8 && i + n <= |types| && j < 8
    requires forall k | i <= k < i + n :: types[k].Bit?
    requires n == 8 || i + n == |types| || !types[i + n].Bit?
    requires ToOctet(bits) == BitSum(m, i, j)
    ensures BitSum(m, i, n) < 256
    ensures RunEncoder(EncoderLines(types, i + j, j), m, bits)
            == Then([BitSum(m, i, n)], RunEncoder(EncoderLines(types, i + n, 0), m, 0))
    decreases n - j
  {
    hide RunEncoder, EncoderLines, HasType, Encodable, ToOctet, BitsAfter;
    if j == n {
      FlushedOctet(types, m, i + n, n, bits);
    } else {
      var bits' := BitsAfter(OrBit(i + j, j), m, bits);
      OrAdds(m, i, j, bits);
      EncodeBitStep(types, m, i + j, j, bits);
      ThenNothing(RunEncoder(EncoderLines(types, i + j + 1, (j + 1) % 8), m, bits'));
      if j < 7 {
        BitRunFrom(types, m, i, j + 1, n, bits');
      } else {
        BitsForgotten(types, m, i + n, bits');
      }
    }
  }

  /** Pending bits are put out at the end and in front of anything but a bit. */
  lemma FlushedOctet(types: seq<FieldType>, m: seq<Field>, i: nat, bit: nat, bits: bv8)
    requires HasTypes(types, m) && AllEncodable(types, m) && i <= |types| && 0 < bit < 8
    requires i == |types| || !types[i].Bit?
    ensures RunEncoder(EncoderLines(types, i, bit), m, bits)
            == Then([ToOctet(bits)], RunEncoder(EncoderLines(types, i, 0), m, 0))
  {
    hide RunEncoder, HasType, Encodable, ToOctet;
    if i == |types| {
      FlushRuns(m, bits);
      RunsNothing(m, 0);
      assert [ToOctet(bits)] + [] == [ToOctet(bits)];
    } else {
      FieldAccepts(types[i], m[i]);
      EncodeFieldStep(types, m, i, bit, bits);
      EncodeFieldStep(types, m, i, 0, 0);
      BitsForgotten(types, m, i + 1, bits);
      ThenNothing(Then(FieldBytes(types[i], m[i]).value, RunEncoder(EncoderLines(types, i + 1, 0), m, 0)));
    }
  }

  /** Where no bits are pending, it does not matter what `bit_buffer` holds. */
  lemma {:induction false} BitsForgotten(types: seq<FieldType>, m: seq<Field>, i: nat, bits: bv8)
    requires HasTypes(types, m) && AllEncodable(types, m) && i <= |types|
    ensures RunEncoder(EncoderLines(types, i, 0), m, bits) == RunEncoder(EncoderLines(types, i, 0), m, 0)
    decreases |types| - i
  {
    hide RunEncoder, HasType, Encodable;
    if i == |types| {
      RunsNothing(m, bits);
      RunsNothing(m, 0);
    } else if types[i].Bit? {
      EncodeBitStep(types, m, i, 0, bits);
      EncodeBitStep(types, m, i, 0, 0);
    } else {
      FieldAccepts(types[i], m[i]);
      EncodeFieldStep(types, m, i, 0, bits);
      EncodeFieldStep(types, m, i, 0, 0);
      BitsForgotten(types, m, i + 1, bits);
    }
  }

  /** The structure with the bits of an octet in the members from `i` to `i + n`. */
  function WithBits(m: seq<Field>, i: nat, n: nat, octet: byte): (r: seq<Field>)
    requires i + n <= |m|
    ensures |r| == |m|
  {
    if n == 0 then m else WithBits(m, i, n - 1, octet)[i + n - 1 := Flag(octet / Pow2(n - 1) % 2)]
  }

  /** The decoder reads one octet for such a run, and its digits in base 2 are the bits. */
  lemma BitRunIsRead(types: seq<FieldType>, i: nat, n: nat, b: Bytes, o: nat, bits: bv8, m: seq<Field>)
    requires 0 < n <= 8 && i + n <= |types| == |m| && o < |b|
    requires forall k | i <= k < i + n :: types[k].Bit?
    requires n == 8 || i + n == |types| || !types[i + n].Bit?
    ensures RunDecoder(DecoderLines(types, i, 0), b, o, bits, m)
            == RunDecoder(DecoderLines(types, i + n, 0), b, o + 1, FromOctet(b[o]), WithBits(m, i, n, b[o]))
  {
    hide RunDecoder, FromOctet;
    var lines := DecoderLines(types, i + 1, 1);
    RunDecoderCons(GetBits, [TestBit(i, 0)] + lines, b, o, bits, m);
    assert DecoderLines(types, i, 0) == [GetBits] + ([TestBit(i, 0)] + lines);
    var next := WithBits(m, i, 1, b[o]);
    BitRead(b, o, m, i, 0);
    RunDecoderCons(TestBit(i, 0), lines, b, o + 1, FromOctet(b[o]), m);
    BitRunReadFrom(types, i, 1, n, b, o, m);
  }

  /** One bit is tested. */
  lemma BitRead(b: Bytes, o: nat, m: seq<Field>, i: nat, j: nat)
    requires o < |b| && i + j < |m| && j < 8
    ensures DecodeLine(TestBit(i + j, j), b, o + 1, FromOctet(b[o]), WithBits(m, i, j, b[o]))
            == Got((FromOctet(b[o]), WithBits(m, i, j + 1, b[o])), o + 1)
  {
    hide BitSet, FromOctet;
    OctetIsKept(b[o]);
    BitIsDigit(FromOctet(b[o]), j);
  }

  lemma {:induction false} BitRunReadFrom(types: seq<FieldType>, i: nat, j: nat, n: nat, b: Bytes, o: nat, m: seq<Field>)
    requires 0 < j <= n <= 8 && i + n <= |types| == |m| && o < |b|
    requires forall k | i <= k < i + n :: types[k].Bit?
    requires n == 8 || i + n == |types| || !types[i + n].Bit?
    ensures RunDecoder(DecoderLines(types, i + j, j % 8), b, o + 1, FromOctet(b[o]), WithBits(m, i, j, b[o]))
            == RunDecoder(DecoderLines(types, i + n, 0), b, o + 1, FromOctet(b[o]), WithBits(m, i, n, b[o]))
    decreases n - j
  {
    hide RunDecoder, FromOctet, WithBits, DecoderLines;
    if j == n {
      NoBitPending(types, i + n, n % 8);
    } else {
      var lines := DecoderLines(types, i + j + 1, (j + 1) % 8);
      TestLine(types, i + j, j);
      BitRead(b, o, m, i, j);
      RunDecoderCons(TestBit(i + j, j), lines, b, o + 1, FromOctet(b[o]), WithBits(m, i, j, b[o]));
      BitRunReadFrom(types, i, j + 1, n, b, o, m);
    }
  }

  /** The line for a bit behind another one. */
  lemma TestLine(types: seq<FieldType>, i: nat, bit: nat)
    requires i < |types| && types[i].Bit? && 0 < bit < 8
    ensures DecoderLines(types, i, bit) == [TestBit(i, bit)] + DecoderLines(types, i + 1, (bit + 1) % 8)
  {
    assert [] + ([TestBit(i, bit)] + DecoderLines(types, i + 1, (bit + 1) % 8))
        == [TestBit(i, bit)] + DecoderLines(types, i + 1, (bit + 1) % 8);
  }

  lemma NoBitPending(types: seq<FieldType>, i: nat, bit: nat)
    requires i <= |types| && bit < 8 && (bit == 0 || i == |types| || !types[i].Bit?)
    ensures DecoderLines(types, i, bit) == DecoderLines(types, i, 0)
  {
  }

  //////////////////////////////////////////////////////////////////////////////
  // Running the emitted encoder on the output buffer
  //////////////////////////////////////////////////////////////////////////////

  function OrElse(s: Option<Bytes>): Bytes {
    if s.Some? then s.value else []
  }

  /** `AMQP_STATUS_BAD_AMQP_DATA` when octets up to `end` do not fit. */
  function Space(end: nat, limit: nat): Status {
    if end <= limit then Ok else BadAmqpData
  }

  /** The status of encoding a member at `o`. */
  function MemberStatus(t: FieldType, v: Field, o: nat, limit: nat): Status
    requires HasType(t, v)
  {
    match v
    case Uint(_) => Space(o + WidthOf(t), limit)
    case Str(s) => if |s| >= Pow256(WidthOf(t)) then BadAmqpData else Space(o + WidthOf(t) + |s|, limit)
    case Tab(entries) => TableStatus(entries, o, limit)
    case Flag(_) => Ok
  }

  /** The status of a line, and the first failure of several. */
  function LineStatus(line: EncoderLine, m: seq<Field>, o: nat, limit: nat): Status {
    match line
    case PutBits => Space(o + 1, limit)
    case PutField(t, f) => if f < |m| && HasType(t, m[f]) then MemberStatus(t, m[f], o, limit) else BadAmqpData
    case _ => Ok
  }

  function RunStatus(lines: seq<EncoderLine>, m: seq<Field>, o: nat, limit: nat): Status {
    if lines == [] then Ok
    else
      var status := LineStatus(lines[0], m, o, limit);
      if status.Ok? then RunStatus(lines[1..], m, o + |OrElse(LineBytes(lines[0], m, 0))|, limit) else status
  }

  lemma RunStatusStep(lines: seq<EncoderLine>, i: nat, m: seq<Field>, bits: bv8, o: nat, limit: nat)
    requires i < |lines|
    ensures RunStatus(lines[i..], m, o, limit)
            == var status := LineStatus(lines[i], m, o, limit);
               if status.Ok? then RunStatus(lines[i + 1..], m, o + |OrElse(LineBytes(lines[i], m, bits))|, limit)
               else status
  {
    hide Be, LineStatus;
    assert lines[i..][1..] == lines[i + 1..];
  }

  /** Why a member is refused: there is no room for it, or a short string is longer than 255 octets; a table
      is refused for its own reasons. */
  lemma MemberFailures(s: Bytes, octet: byte)
    requires KindOf(octet).None? && !IsStructuredTag(octet)
    ensures MemberStatus(Long, Uint(7), 0, 4) == Ok && MemberStatus(Long, Uint(7), 0, 3) == BadAmqpData
    ensures MemberStatus(Shortstr, Str([97]), 0, 2) == Ok && MemberStatus(Shortstr, Str([97]), 0, 1) == BadAmqpData
    ensures |s| > 255 ==> MemberStatus(Shortstr, Str(s), 0, 1000000) == BadAmqpData
    ensures MemberStatus(FieldTable, Tab([]), 0, 4) == Ok && MemberStatus(FieldTable, Tab([]), 0, 3) == TableTooBig
    ensures TypedEntries([Entry([], Unknown(octet))])
            && MemberStatus(FieldTable, Tab([Entry([], Unknown(octet))]), 0, 6) == InvalidParameter
    ensures LineStatus(PutBits, [], 0, 1) == Ok && LineStatus(PutBits, [], 0, 0) == BadAmqpData
  {
    Pow256Values();
    var e := Entry([], Unknown(octet));
    assert EntryStatus(e, 4, 6) == InvalidParameter;
    OneEntryFails(e, 0, 6);
    assert TableStatus([], 0, 4) == Ok && TableStatus([], 0, 3) == TableTooBig;
  }

  lemma NoLineFails(m: seq<Field>, o: nat, limit: nat)
    ensures RunStatus([], m, o, limit) == Ok
  {
  }

  /** The status of `amqp_encode_method` for a method with these arguments. */
  function MethodStatus(types: seq<FieldType>, m: seq<Field>, o: nat, limit: nat): Status {
    RunStatus(EncoderLines(types, 0, 0), m, o, limit)
  }

  /** One member: an integer, a string with its length in front, or a table. */
  method PutMember(buf: array<byte>, limit: nat, t: FieldType, v: Field, start: nat)
    returns (status: Status, offset: nat)
    requires limit <= buf.Length && HasType(t, v) && !t.Bit?
    modifies buf
    ensures Wrote(old(buf[..]), buf[..], limit, start, OrElse(FieldBytes(t, v)), FieldBytes(t, v).Some?, status, offset)
    ensures status == MemberStatus(t, v, start, limit)
  {
    hide Wrote, Write, SameOutside, Be;
    ghost var before := buf[..];
    var ok: bool;
    match v {
      case Uint(n) =>
        ok, offset := PutUint(buf, limit, start, WidthOf(t), n);
        if ok {
          WroteDone(before, limit, start, Be(WidthOf(t), n));
          return Ok, offset;
        }
        WroteNone(before, limit, start, Be(WidthOf(t), n), true, BadAmqpData, offset);
        return BadAmqpData, offset;
      case Str(s) =>
        if |s| >= Pow256(WidthOf(t)) {
          WroteNone(before, limit, start, [], false, BadAmqpData, start);
          return BadAmqpData, start;
        }
        status, offset := PutLengthAndBytes(buf, limit, start, WidthOf(t), s);
      case Tab(entries) =>
        status, offset := EncodeTable(buf, limit, entries, start);
        if !KnownEntries(entries) {
          WroteStatus(before, buf[..], limit, start, EncTable(entries), false, status, offset);
          WroteUnencodable(before, buf[..], limit, start, EncTable(entries), false, [], status, offset);
        }
    }
  }

  method PutLengthAndBytes(buf: array<byte>, limit: nat, start: nat, width: nat, s: Bytes)
    returns (status: Status, offset: nat)
    requires limit <= buf.Length
    modifies buf
    ensures Wrote(old(buf[..]), buf[..], limit, start, Be(width, |s|) + s, true, status, offset)
    ensures status == Space(start + width + |s|, limit)
  {
    hide Wrote, Write, SameOutside, Be;
    ghost var before := buf[..];
    var ok: bool;
    ok, offset := PutUint(buf, limit, start, width, |s|);
    if !ok {
      WroteNone(before, limit, start, Be(width, |s|) + s, true, BadAmqpData, offset);
      return BadAmqpData, offset;
    }
    ghost var between, from := buf[..], offset;
    ok, offset := PutBytes(buf, limit, offset, s);
    if ok {
      WroteDone(between, limit, from, s);
      status := Ok;
    } else {
      WroteNone(between, limit, from, s, true, BadAmqpData, offset);
      status := BadAmqpData;
    }
    WroteThen(before, limit, start, Be(width, |s|), buf[..], s, true, status, offset);
  }

  /** Every line reads a member of the type it was emitted for. */
  ghost predicate LinesFit(lines: seq<EncoderLine>, types: seq<FieldType>) {
    forall line | line in lines ::
      match line
      case PutField(t, f) => f < |types| && t == types[f] && !t.Bit?
      case _ => true
  }

  lemma {:induction false} EmittedLinesFit(types: seq<FieldType>, i: nat, bit: nat)
    requires i <= |types| && bit < 8
    ensures LinesFit(EncoderLines(types, i, bit), types)
    decreases |types| - i
  {
    if i < |types| {
      EncoderLinesStep(types, i, bit);
      EmittedLinesFit(types, i + 1, if types[i].Bit? then (bit + 1) % 8 else 0);
    }
  }

  /** One emitted line. */
  method RunLine(buf: array<byte>, limit: nat, line: EncoderLine, types: seq<FieldType>, m: seq<Field>, bits: bv8,
                 start: nat) returns (status: Status, offset: nat, bitsAfter: bv8)
    requires start <= limit <= buf.Length && HasTypes(types, m) && LinesFit([line], types)
    modifies buf
    ensures Wrote(old(buf[..]), buf[..], limit, start, OrElse(LineBytes(line, m, bits)), LineBytes(line, m, bits).Some?,
                  status, offset)
    ensures status == LineStatus(line, m, start, limit) && bitsAfter == BitsAfter(line, m, bits)
  {
    hide Wrote, Write, SameOutside, Be, FieldBytes;
    assert line in [line];
    bitsAfter := bits;
    match line {
      case ClearBits =>
        bitsAfter := 0;
      case OrBit(f, bit) =>
        if f < |m| && m[f].Flag? && m[f].x != 0 {
          bitsAfter := bits | Mask(bit);
        }
      case PutBits =>
        status, offset := PutLoneOctet(buf, limit, start, ToOctet(bits));
        return;
      case PutField(t, f) =>
        status, offset := PutMember(buf, limit, t, m[f], start);
        return;
    }
    WroteDone(buf[..], limit, start, []);
    WriteNothing(buf[..], start);
    return Ok, start, bitsAfter;
  }

  method PutLoneOctet(buf: array<byte>, limit: nat, start: nat, octet: byte) returns (status: Status, offset: nat)
    requires limit <= buf.Length
    modifies buf
    ensures Wrote(old(buf[..]), buf[..], limit, start, [octet], true, status, offset)
    ensures status == Space(start + 1, limit)
  {
    hide Wrote, Write, SameOutside;
    ghost var before := buf[..];
    var ok: bool;
    ok, offset := PutUint(buf, limit, start, 1, octet);
    BeOctet(octet);
    if ok {
      WroteDone(before, limit, start, [octet]);
      return Ok, offset;
    }
    WroteNone(before, limit, start, [octet], true, BadAmqpData, offset);
    return BadAmqpData, offset;
  }

  lemma ThenThen(a: Bytes, b: Bytes, rest: Option<Bytes>)
    ensures Then(a, Then(b, rest)) == Then(a + b, rest)
  {
    assert rest.Some? ==> a + (b + rest.value) == (a + b) + rest.value;
  }

  /** The emitted lines of a method, run with `offset` and `bit_buffer`: a case of `amqp_encode_method`. */
  method EncodeMethod(buf: array<byte>, limit: nat, types: seq<FieldType>, m: seq<Field>, start: nat)
    returns (status: Status, offset: nat)
    requires start <= limit <= buf.Length && HasTypes(types, m)
    modifies buf
    ensures Wrote(old(buf[..]), buf[..], limit, start, OrElse(EncMethod(types, m)), EncMethod(types, m).Some?, status,
                  offset)
    ensures status == MethodStatus(types, m, start, limit)
  {
    hide Wrote, Write, SameOutside, Be, LineBytes, EncoderLines, LineStatus, RunStatus;
    var lines := GenEncodeMethodFields(types);
    EmittedLinesFit(types, 0, 0);
    ghost var before := buf[..];
    ghost var all := EncMethod(types, m);
    ghost var done: Bytes := [];
    var bits: bv8 := 0;
    offset := start;
    WriteNothing(before, start);
    ThenNothing(all);
    assert lines[0..] == lines;
    for i := 0 to |lines|
      invariant offset == start + |done| <= limit
      invariant all == Then(done, RunEncoder(lines[i..], m, bits))
      invariant RunStatus(lines, m, start, limit) == RunStatus(lines[i..], m, offset, limit)
      invariant buf[..] == Write(before, start, done)
    {
      ghost var first, rest := LineBytes(lines[i], m, bits), lines[i + 1..];
      ghost var between, from := buf[..], offset;
      assert lines[i..] == [lines[i]] + rest;
      RunEncoderCons(lines[i], rest, m, bits);
      RunStatusStep(lines, i, m, bits, offset, limit);
      assert LinesFit([lines[i]], types) by {
        assert lines[i] in lines;
      }
      status, offset, bits := RunLine(buf, limit, lines[i], types, m, bits, offset);
      ghost var tail := RunEncoder(rest, m, bits);
      if first.Some? {
        ThenThen(done, first.value, tail);
      }
      if !status.Ok? {
        WroteThen(before, limit, start, done, buf[..], OrElse(first), first.Some?, status, offset);
        if all.Some? {
          WroteShort(before, buf[..], limit, start, done + first.value, tail.value, true, true, status, offset);
        } else {
          WroteUnencodable(before, buf[..], limit, start, done + OrElse(first), first.Some?, [], status, offset);
        }
        return;
      }
      WroteAll(between, buf[..], limit, from, OrElse(first), first.Some?, status, offset);
      WriteAppend(before, start, done, first.value);
      done := done + first.value;
    }
    status := Ok;
    assert lines[|lines|..] == [];
    NoLineFails(m, offset, limit);
    assert done + [] == done;
    WroteDone(before, limit, start, done);
  }
}
