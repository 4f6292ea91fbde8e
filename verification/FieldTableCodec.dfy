/** The table encoder and decoder of `amqp_table.c` as they run: offsets that move, sizes that are
    filled in afterwards, entry lists that grow. */
module FieldTableCodec {
  import opened Wire
  import opened FieldTable

  //////////////////////////////////////////////////////////////////////////////
  // Why encoding fails
  //////////////////////////////////////////////////////////////////////////////

  /** The status of encoding a value at `o`: there may be no room for its kind octet, or for what is behind
      it, or its kind may be unknown; in an array or table the first failure counts. */
  function ValueStatus(v: Value, o: nat, limit: nat): Status
    requires Typed(v)
    decreases v, 1
  {
    if o + 1 > limit then BadAmqpData
    else
      match v
      case Array(values) => ArrayStatus(values, o + 1, limit)
      case Table(entries) => TableStatus(entries, o + 1, limit)
      case Unknown(_) => InvalidParameter
      case _ => Room(o + |Enc(v)|, limit)
  }

  /** `AMQP_STATUS_TABLE_TOO_BIG` when octets up to `end` do not fit. */
  function Room(end: nat, limit: nat): Status {
    if end <= limit then Ok else TableTooBig
  }

  function ArrayStatus(values: seq<Value>, o: nat, limit: nat): Status
    requires TypedValues(values)
    decreases values, 1
  {
    var status := ValuesStatus(values, o + 4, limit);
    if status.Ok? then Room(o + 4, limit) else status
  }

  function ValuesStatus(values: seq<Value>, o: nat, limit: nat): Status
    requires TypedValues(values)
    decreases values, 0
  {
    if values == [] then Ok
    else
      var status := ValueStatus(values[0], o, limit);
      if status.Ok? then ValuesStatus(values[1..], o + |Enc(values[0])|, limit) else status
  }

  function TableStatus(entries: seq<Entry>, o: nat, limit: nat): Status
    requires TypedEntries(entries)
    decreases entries, 1
  {
    var status := EntriesStatus(entries, o + 4, limit);
    if status.Ok? then Room(o + 4, limit) else status
  }

  function EntriesStatus(entries: seq<Entry>, o: nat, limit: nat): Status
    requires TypedEntries(entries)
    decreases entries, 0
  {
    if entries == [] then Ok
    else
      var status := EntryStatus(entries[0], o, limit);
      if status.Ok? then EntriesStatus(entries[1..], o + |EncEntry(entries[0])|, limit) else status
  }

  function EntryStatus(e: Entry, o: nat, limit: nat): Status
    requires Typed(e.value)
    decreases e.value, 2
  {
    var status := Room(o + 1 + |e.key|, limit);
    if status.Ok? then ValueStatus(e.value, o + 1 + |e.key|, limit) else status
  }

  /** A value is encoded exactly when it is known at every depth and fits; an invalid parameter is an
      unknown kind, malformed data is a kind octet without room, and the rest is too big. */
  lemma {:induction false} ValueStatusIff(v: Value, o: nat, limit: nat)
    requires Typed(v)
    ensures ValueStatus(v, o, limit).Ok? <==> Known(v) && o + |Enc(v)| <= limit
    ensures ValueStatus(v, o, limit) == InvalidParameter ==> !Known(v)
    ensures ValueStatus(v, o, limit) in {Ok, InvalidParameter, BadAmqpData, TableTooBig}
    decreases v, 1
  {
    hide Be;
    match v
    case Array(values) => ValuesStatusIff(values, o + 5, limit);
    case Table(entries) => EntriesStatusIff(entries, o + 5, limit);
    case _ =>
  }

  lemma {:induction false} ValuesStatusIff(values: seq<Value>, o: nat, limit: nat)
    requires TypedValues(values)
    ensures var status := ValuesStatus(values, o, limit);
            && (o <= limit ==> (status.Ok? <==> KnownValues(values) && o + |EncValues(values)| <= limit))
            && (o > limit && status.Ok? ==> values == [])
            && (status == InvalidParameter ==> !KnownValues(values))
            && status in {Ok, InvalidParameter, BadAmqpData, TableTooBig}
    decreases values, 0
  {
    hide Enc, ValueStatus;
    if values != [] {
      ValueStatusIff(values[0], o, limit);
      ValuesStatusIff(values[1..], o + |Enc(values[0])|, limit);
    }
  }

  lemma {:induction false} EntriesStatusIff(entries: seq<Entry>, o: nat, limit: nat)
    requires TypedEntries(entries)
    ensures var status := EntriesStatus(entries, o, limit);
            && (o <= limit ==> (status.Ok? <==> KnownEntries(entries) && o + |EncEntries(entries)| <= limit))
            && (o > limit && status.Ok? ==> entries == [])
            && (status == InvalidParameter ==> !KnownEntries(entries))
            && status in {Ok, InvalidParameter, BadAmqpData, TableTooBig}
    decreases entries, 0
  {
    hide Enc, ValueStatus;
    if entries != [] {
      var e := entries[0];
      ValueStatusIff(e.value, o + 1 + |e.key|, limit);
      EntriesStatusIff(entries[1..], o + |EncEntry(e)|, limit);
    }
  }

  /** A table fails as its only entry does. */
  lemma OneEntryFails(e: Entry, o: nat, limit: nat)
    requires Typed(e.value) && !EntryStatus(e, o + 4, limit).Ok?
    ensures TypedEntries([e]) && TableStatus([e], o, limit) == EntryStatus(e, o + 4, limit)
  {
    hide EntryStatus;
    assert [e][0] == e && [e][1..] == [];
  }

  /** A failure of each kind: no room for a kind octet, for what is behind it or for a key, and an unknown
      kind; the first one counts. */
  lemma FailureSamples(octet: byte)
    requires KindOf(octet).None? && !IsStructuredTag(octet)
    ensures ValueStatus(Scalar(U8, 7), 0, 2) == Ok
    ensures ValueStatus(Scalar(U8, 7), 0, 1) == TableTooBig
    ensures ValueStatus(Scalar(U8, 7), 0, 0) == BadAmqpData
    ensures ValueStatus(Unknown(octet), 0, 1) == InvalidParameter
    ensures ValueStatus(Array([]), 0, 4) == TableTooBig && TableStatus([], 0, 3) == TableTooBig
    ensures EntryStatus(Entry([97], Unknown(octet)), 0, 1) == TableTooBig
    ensures EntryStatus(Entry([97], Unknown(octet)), 0, 2) == BadAmqpData
    ensures EntryStatus(Entry([97], Unknown(octet)), 0, 3) == InvalidParameter
  {
  }

  //////////////////////////////////////////////////////////////////////////////
  // Encoding
  //////////////////////////////////////////////////////////////////////////////

  lemma EntriesStep(entries: seq<Entry>, i: nat, done: Bytes, o: nat, limit: nat)
    requires i < |entries| && TypedEntries(entries[i..])
    ensures Typed(entries[i].value) && TypedEntries(entries[i + 1..])
    ensures EncEntries(entries[i..]) == EncEntry(entries[i]) + EncEntries(entries[i + 1..])
    ensures done + EncEntries(entries[i..]) == (done + EncEntry(entries[i])) + EncEntries(entries[i + 1..])
    ensures KnownEntries(entries[i..]) == (Known(entries[i].value) && KnownEntries(entries[i + 1..]))
    ensures EntriesStatus(entries[i..], o, limit)
            == var status := EntryStatus(entries[i], o, limit);
               if status.Ok? then EntriesStatus(entries[i + 1..], o + |EncEntry(entries[i])|, limit) else status
  {
    hide Be, EntryStatus;
    assert entries[i..][1..] == entries[i + 1..];
  }

  lemma EntriesEnd(entries: seq<Entry>, o: nat, limit: nat)
    ensures entries[0..] == entries && EncEntries(entries[|entries|..]) == [] && KnownEntries(entries[|entries|..])
    ensures EntriesStatus(entries[|entries|..], o, limit) == Ok
  {
  }

  lemma ValuesStep(values: seq<Value>, i: nat, done: Bytes, o: nat, limit: nat)
    requires i < |values| && TypedValues(values[i..])
    ensures Typed(values[i]) && TypedValues(values[i + 1..])
    ensures EncValues(values[i..]) == Enc(values[i]) + EncValues(values[i + 1..])
    ensures done + EncValues(values[i..]) == (done + Enc(values[i])) + EncValues(values[i + 1..])
    ensures KnownValues(values[i..]) == (Known(values[i]) && KnownValues(values[i + 1..]))
    ensures ValuesStatus(values[i..], o, limit)
            == var status := ValueStatus(values[i], o, limit);
               if status.Ok? then ValuesStatus(values[i + 1..], o + |Enc(values[i])|, limit) else status
  {
    hide Be, ValueStatus;
    assert values[i..][1..] == values[i + 1..];
  }

  lemma ValuesEnd(values: seq<Value>, o: nat, limit: nat)
    ensures values[0..] == values && EncValues(values[|values|..]) == [] && KnownValues(values[|values|..])
    ensures ValuesStatus(values[|values|..], o, limit) == Ok
  {
  }

  /** `amqp_encode_table`. */
  method EncodeTable(buf: array<byte>, limit: nat, entries: seq<Entry>, start: nat)
    returns (status: Status, offset: nat)
    requires limit <= buf.Length && TypedEntries(entries)
    modifies buf
    ensures Wrote(old(buf[..]), buf[..], limit, start, EncTable(entries), KnownEntries(entries), status, offset)
    ensures status == TableStatus(entries, start, limit)
    decreases entries, 1
  {
    hide Wrote, Write, SameOutside, Be, EncEntry, EncEntries, Known, KnownEntries, Typed, TypedEntries,
      EntryStatus, EntriesStatus;
    offset := start + 4;
    ghost var before := buf[..];
    ghost var done: Bytes := [];
    WriteNothing(before, start + 4);
    EntriesEnd(entries, offset, limit);
    assert done + EncEntries(entries) == EncEntries(entries);
    for i := 0 to |entries|
      invariant offset == start + 4 + |done| && (done == [] || offset <= limit)
      invariant TypedEntries(entries[i..]) && KnownEntries(entries) == KnownEntries(entries[i..])
      invariant EncEntries(entries) == done + EncEntries(entries[i..])
      invariant EntriesStatus(entries, start + 4, limit) == EntriesStatus(entries[i..], offset, limit)
      invariant buf[..] == Write(before, start + 4, done)
    {
      EntriesStep(entries, i, done, offset, limit);
      ghost var enc, tail, from := EncEntry(entries[i]), EncEntries(entries[i + 1..]), offset;
      status, offset := EncodeEntry(buf, limit, entries[i], offset);
      if !status.Ok? {
        WroteShortElement(before, buf[..], limit, start, done, enc, tail, Known(entries[i].value), KnownEntries(entries), status,
                          offset);
        return;
      }
      WroteAll(Write(before, start + 4, done), buf[..], limit, from, enc, Known(entries[i].value), status, offset);
      WriteAppend(before, start + 4, done, enc);
      done := done + enc;
    }
    EntriesEnd(entries, offset, limit);
    assert done == EncEntries(entries);
    var ok, _ := PutUint(buf, limit, start, 4, offset - start - 4);
    status := if ok then Ok else TableTooBig;
    WroteSized(before, limit, start, Be(4, |done|), done, buf[..], KnownEntries(entries), status, offset);
  }

  /** One round of the loop of `amqp_encode_table`: key length, key, value. */
  method EncodeEntry(buf: array<byte>, limit: nat, e: Entry, start: nat) returns (status: Status, offset: nat)
    requires limit <= buf.Length && Typed(e.value)
    modifies buf
    ensures Wrote(old(buf[..]), buf[..], limit, start, EncEntry(e), Known(e.value), status, offset)
    ensures status == EntryStatus(e, start, limit)
    decreases e.value, 2
  {
    hide Wrote, Write, SameOutside, Be;
    ghost var before := buf[..];
    ghost var head := Be(1, |e.key|) + e.key;
    assert EncEntry(e) == head + Enc(e.value) && EncEntry(e) == Be(1, |e.key|) + (e.key + Enc(e.value));
    var ok: bool;
    ok, offset := PutUint(buf, limit, start, 1, |e.key|);
    if !ok {
      WroteNone(before, limit, start, EncEntry(e), Known(e.value), TableTooBig, offset);
      return TableTooBig, offset;
    }
    ok, offset := PutBytes(buf, limit, offset, e.key);
    if !ok {
      WroteNone(buf[..], limit, start + 1, e.key + Enc(e.value), Known(e.value), TableTooBig, offset);
      WroteThen(before, limit, start, Be(1, |e.key|), buf[..], e.key + Enc(e.value), Known(e.value), TableTooBig, offset);
      return TableTooBig, offset;
    }
    WriteAppend(before, start, Be(1, |e.key|), e.key);
    status, offset := EncodeFieldValue(buf, limit, e.value, offset);
    WroteThen(before, limit, start, head, buf[..], Enc(e.value), Known(e.value), status, offset);
  }

  /** `amqp_encode_array`. */
  method EncodeArray(buf: array<byte>, limit: nat, values: seq<Value>, start: nat)
    returns (status: Status, offset: nat)
    requires limit <= buf.Length && TypedValues(values)
    modifies buf
    ensures Wrote(old(buf[..]), buf[..], limit, start, Be(4, |EncValues(values)|) + EncValues(values),
                  KnownValues(values), status, offset)
    ensures status == ArrayStatus(values, start, limit)
    decreases values, 1
  {
    hide Wrote, Write, SameOutside, Be, Enc, EncValues, Known, KnownValues, Typed, TypedValues, ValueStatus,
      ValuesStatus;
    offset := start + 4;
    ghost var before := buf[..];
    ghost var done: Bytes := [];
    WriteNothing(before, start + 4);
    ValuesEnd(values, offset, limit);
    assert done + EncValues(values) == EncValues(values);
    for i := 0 to |values|
      invariant offset == start + 4 + |done| && (done == [] || offset <= limit)
      invariant TypedValues(values[i..]) && KnownValues(values) == KnownValues(values[i..])
      invariant EncValues(values) == done + EncValues(values[i..])
      invariant ValuesStatus(values, start + 4, limit) == ValuesStatus(values[i..], offset, limit)
      invariant buf[..] == Write(before, start + 4, done)
    {
      ValuesStep(values, i, done, offset, limit);
      ghost var enc, tail, from := Enc(values[i]), EncValues(values[i + 1..]), offset;
      status, offset := EncodeFieldValue(buf, limit, values[i], offset);
      if !status.Ok? {
        WroteShortElement(before, buf[..], limit, start, done, enc, tail, Known(values[i]), KnownValues(values), status,
                          offset);
        return;
      }
      WroteAll(Write(before, start + 4, done), buf[..], limit, from, enc, Known(values[i]), status, offset);
      WriteAppend(before, start + 4, done, enc);
      done := done + enc;
    }
    ValuesEnd(values, offset, limit);
    assert done == EncValues(values);
    var ok, _ := PutUint(buf, limit, start, 4, offset - start - 4);
    status := if ok then Ok else TableTooBig;
    WroteSized(before, limit, start, Be(4, |done|), done, buf[..], KnownValues(values), status, offset);
  }

  /** `amqp_encode_field_value`: the kind octet, then what the kind calls for. */
  method EncodeFieldValue(buf: array<byte>, limit: nat, v: Value, start: nat) returns (status: Status, offset: nat)
    requires limit <= buf.Length && Typed(v)
    modifies buf
    ensures Wrote(old(buf[..]), buf[..], limit, start, Enc(v), Known(v), status, offset)
    ensures status == ValueStatus(v, start, limit)
    decreases v, 1
  {
    hide Wrote, Write, SameOutside, Be;
    ghost var before := buf[..];
    var ok: bool;
    var tag := KindOctet(v);
    ghost var payload := Payload(v);
    ok, offset := PutUint(buf, limit, start, 1, tag);
    if !ok {
      WroteNone(before, limit, start, Enc(v), Known(v), BadAmqpData, offset);
      return BadAmqpData, offset;
    }
    BeOctet(tag);
    ghost var from := offset;
    ghost var between := buf[..];
    match v {
      case Array(values) =>
        status, offset := EncodeArray(buf, limit, values, offset);
      case Table(entries) =>
        status, offset := EncodeTable(buf, limit, entries, offset);
      case Unknown(_) =>
        status := InvalidParameter;
        WroteNone(between, limit, from, [], false, status, offset);
      case _ =>
        status, offset := EncodeFlat(buf, limit, v, offset);
    }
    WroteThen(before, limit, start, [tag], buf[..], payload, Known(v), status, offset);
  }

  /** The kind octet of a value. */
  function KindOctet(v: Value): byte {
    match v
    case Scalar(kind, _) => Tag(kind)
    case Decimal(_, _) => TAG_DECIMAL
    case Text(utf8, _) => if utf8 then TAG_UTF8 else TAG_BYTES
    case Array(_) => TAG_ARRAY
    case Table(_) => TAG_TABLE
    case Void => TAG_VOID
    case Unknown(tag) => tag
  }

  /** What follows the kind octet. */
  ghost function Payload(v: Value): (s: Bytes)
    requires Typed(v)
    ensures Enc(v) == [KindOctet(v)] + s
  {
    match v
    case Scalar(kind, x) => Be(Width(kind), ToWire(kind, x))
    case Decimal(decimals, units) => [decimals] + Be(4, units)
    case Text(_, text) => Be(4, |text|) + text
    case Array(values) => Be(4, |EncValues(values)|) + EncValues(values)
    case Table(entries) => EncTable(entries)
    case _ => []
  }

  /** The payload of a value that holds no other value. */
  method EncodeFlat(buf: array<byte>, limit: nat, v: Value, start: nat) returns (status: Status, offset: nat)
    requires limit <= buf.Length && start <= limit
    requires Typed(v) && !v.Array? && !v.Table? && !v.Unknown?
    modifies buf
    ensures Wrote(old(buf[..]), buf[..], limit, start, Payload(v), true, status, offset)
    ensures status == Room(start + |Payload(v)|, limit)
  {
    hide Wrote, Write, SameOutside, Be;
    offset := start;
    match v {
      case Scalar(kind, x) =>
        status, offset := EncodeUint(buf, limit, start, Width(kind), ToWire(kind, x));
      case Decimal(decimals, units) =>
        status, offset := EncodeTwo(buf, limit, start, 1, decimals, 4, units);
        BeOctet(decimals);
      case Text(_, text) =>
        status, offset := EncodeLongString(buf, limit, start, text);
      case Void =>
        WriteNothing(buf[..], start);
        WroteDone(buf[..], limit, start, []);
        return Ok, start;
    }
  }

  /** The macro `FIELD_ENCODER`. */
  method EncodeUint(buf: array<byte>, limit: nat, start: nat, width: nat, x: nat)
    returns (status: Status, offset: nat)
    requires limit <= buf.Length
    modifies buf
    ensures Wrote(old(buf[..]), buf[..], limit, start, Be(width, x), true, status, offset)
    ensures status == Room(start + width, limit)
  {
    hide Wrote, Write, SameOutside, Be;
    var ok: bool;
    ok, offset := PutUint(buf, limit, start, width, x);
    if ok {
      WroteDone(old(buf[..]), limit, start, Be(width, x));
      return Ok, offset;
    }
    WroteNone(buf[..], limit, start, Be(width, x), true, TableTooBig, offset);
    return TableTooBig, offset;
  }

  method EncodeTwo(buf: array<byte>, limit: nat, start: nat, w1: nat, x1: nat, w2: nat, x2: nat)
    returns (status: Status, offset: nat)
    requires limit <= buf.Length
    modifies buf
    ensures Wrote(old(buf[..]), buf[..], limit, start, Be(w1, x1) + Be(w2, x2), true, status, offset)
    ensures status == Room(start + w1 + w2, limit)
  {
    hide Wrote, Write, SameOutside, Be;
    ghost var before := buf[..];
    status, offset := EncodeUint(buf, limit, start, w1, x1);
    if !status.Ok? {
      WroteShort(before, buf[..], limit, start, Be(w1, x1), Be(w2, x2), true, true, status, offset);
      return;
    }
    WroteAll(before, buf[..], limit, start, Be(w1, x1), true, status, offset);
    status, offset := EncodeUint(buf, limit, offset, w2, x2);
    WroteThen(before, limit, start, Be(w1, x1), buf[..], Be(w2, x2), true, status, offset);
  }

  /** A 32-bit length, then the octets. */
  method EncodeLongString(buf: array<byte>, limit: nat, start: nat, text: Bytes)
    returns (status: Status, offset: nat)
    requires limit <= buf.Length
    modifies buf
    ensures Wrote(old(buf[..]), buf[..], limit, start, Be(4, |text|) + text, true, status, offset)
    ensures status == Room(start + 4 + |text|, limit)
  {
    hide Wrote, Write, SameOutside, Be;
    ghost var before := buf[..];
    status, offset := EncodeUint(buf, limit, start, 4, |text|);
    if !status.Ok? {
      WroteShort(before, buf[..], limit, start, Be(4, |text|), text, true, true, status, offset);
      return;
    }
    WroteAll(before, buf[..], limit, start, Be(4, |text|), true, status, offset);
    ghost var between := buf[..];
    ghost var from := offset;
    var ok: bool;
    ok, offset := PutBytes(buf, limit, offset, text);
    if ok {
      WroteDone(between, limit, from, text);
      status := Ok;
    } else {
      WroteNone(between, limit, from, text, true, TableTooBig, offset);
      status := TableTooBig;
    }
    WroteThen(before, limit, start, Be(4, |text|), buf[..], text, true, status, offset);
  }

  //////////////////////////////////////////////////////////////////////////////
  // Decoding
  //////////////////////////////////////////////////////////////////////////////

  ghost function Prepend<T>(read: seq<T>, r: Decoded<seq<T>>): Decoded<seq<T>> {
    match r
    case Bad => Bad
    case Got(rest, next) => Got(read + rest, next)
  }

  lemma PrependNothing<T>(read: seq<T>, r: Decoded<seq<T>>)
    ensures Prepend([], r) == r
    ensures r.Got? && r.value == [] ==> Prepend(read, r) == Got(read, r.next)
  {
    assert r.Got? ==> [] + r.value == r.value;
    assert read + [] == read;
  }

  /** `amqp_decode_table`. */
  method DecodeTable(encoded: Bytes, start: nat) returns (r: Decoded<seq<Entry>>)
    ensures r == DecTable(encoded, start)
    decreases |encoded| - start, 2
  {
    var size := GetUint(encoded, start, 4);
    if size.Bad? || size.value + size.next > |encoded| {
      return Bad;
    }
    var entries: seq<Entry> := [];
    var offset, limit := size.next, size.next + size.value;
    PrependNothing(entries, DecEntries(encoded, offset, limit));
    while offset < limit
      invariant size.next <= offset <= |encoded|
      invariant DecTable(encoded, start) == Prepend(entries, DecEntries(encoded, offset, limit))
    {
      hide Dec, GetUint, GetBytes;
      var keyLength := GetUint(encoded, offset, 1);
      if keyLength.Bad? {
        return Bad;
      }
      var key := GetBytes(encoded, keyLength.next, keyLength.value);
      if key.Bad? {
        return Bad;
      }
      var v := DecodeFieldValue(encoded, key.next);
      if v.Bad? {
        return Bad;
      }
      var e := Entry(key.value, v.value);
      assert DecEntry(encoded, offset) == Got(e, v.next);
      ghost var rest := DecEntries(encoded, v.next, limit);
      assert rest.Got? ==> entries + ([e] + rest.value) == entries + [e] + rest.value;
      entries, offset := entries + [e], v.next;
    }
    PrependNothing(entries, DecEntries(encoded, offset, limit));
    return Got(entries, offset);
  }

  /** `amqp_decode_array`. */
  method DecodeArray(encoded: Bytes, start: nat) returns (r: Decoded<seq<Value>>)
    ensures r == DecArray(encoded, start)
    decreases |encoded| - start, 2
  {
    var size := GetUint(encoded, start, 4);
    if size.Bad? || size.value + size.next > |encoded| {
      return Bad;
    }
    var values: seq<Value> := [];
    var offset, limit := size.next, size.next + size.value;
    PrependNothing(values, DecValues(encoded, offset, limit));
    while offset < limit
      invariant size.next <= offset <= |encoded|
      invariant DecArray(encoded, start) == Prepend(values, DecValues(encoded, offset, limit))
    {
      hide Dec, GetUint;
      var v := DecodeFieldValue(encoded, offset);
      if v.Bad? {
        return Bad;
      }
      ghost var rest := DecValues(encoded, v.next, limit);
      assert rest.Got? ==> values + ([v.value] + rest.value) == values + [v.value] + rest.value;
      values, offset := values + [v.value], v.next;
    }
    PrependNothing(values, DecValues(encoded, offset, limit));
    return Got(values, offset);
  }

  /** `amqp_decode_field_value`. */
  method DecodeFieldValue(encoded: Bytes, start: nat) returns (r: Decoded<Value>)
    ensures r == Dec(encoded, start)
    decreases |encoded| - start, 3
  {
    if start >= |encoded| {
      return Bad;
    }
    var tag := encoded[start];
    if tag == TAG_ARRAY {
      var values := DecodeArray(encoded, start + 1);
      return if values.Bad? then Bad else Got(Array(values.value), values.next);
    } else if tag == TAG_TABLE {
      var entries := DecodeTable(encoded, start + 1);
      return if entries.Bad? then Bad else Got(Table(entries.value), entries.next);
    }
    return DecFlat(encoded, start);
  }
}
