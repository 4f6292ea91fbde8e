/** Content properties: the flags `codegen.py` allots, the flag words of section 4.2.6.1 of the AMQP
    0-9-1 specification, and the property lists of `amqp_encode_properties` and
    `amqp_decode_properties`. */
module Properties {
  import opened Wire
  import opened Codegen

  /** `amqp_flags_t`, a 32-bit mask. */
  type Flags = n: int | 0 <= n < 0x1_0000_0000

  /** Bit `bit` of a mask. */
  predicate IsSet(mask: nat, bit: nat) {
    if bit == 0 then mask % 2 == 1 else IsSet(mask / 2, bit - 1)
  }

  /** Multiples of a higher power of two do not reach a lower bit. */
  lemma {:induction false} LowBits(low: nat, high: nat, n: nat, bit: nat)
    requires bit < n
    ensures IsSet(low + Pow2(n) * high, bit) == IsSet(low, bit)
  {
    var p := Pow2(n - 1) * high;
    assert Pow2(n) * high == 2 * p;
    assert (low + 2 * p) / 2 == low / 2 + p && (low + 2 * p) % 2 == low % 2;
    if bit > 0 {
      LowBits(low / 2, high, n - 1, bit - 1);
    }
  }

  /** What is below a power of two does not reach a higher bit. */
  lemma {:induction false} HighBits(low: nat, high: nat, n: nat, bit: nat)
    requires low < Pow2(n)
    ensures IsSet(low + Pow2(n) * high, n + bit) == IsSet(high, bit)
  {
    if n > 0 {
      var p := Pow2(n - 1) * high;
      assert Pow2(n) * high == 2 * p;
      assert (low + 2 * p) / 2 == low / 2 + p;
      HighBits(low / 2, high, n - 1, bit);
    }
  }

  //////////////////////////////////////////////////////////////////////////////
  // Allotment of flags
  //////////////////////////////////////////////////////////////////////////////

  /** The bit of the `k`-th property: fifteen to a 16-bit word, from the top down. */
  function BitIndex(k: nat): nat {
    16 * (k / 15) + 15 - k % 15
  }

  /** The loop over the fields of a class in `genHrl`. */
  method AllotFlags(n: nat) returns (bits: seq<nat>)
    ensures |bits| == n && forall k | 0 <= k < n :: bits[k] == BitIndex(k)
  {
    bits := [];
    var index := 0;
    for k := 0 to n
      invariant |bits| == k && index == k + k / 15 - (if k > 0 && k % 15 == 0 then 1 else 0)
      invariant forall j | 0 <= j < k :: bits[j] == BitIndex(j)
    {
      if index % 16 == 15 {
        index := index + 1;
      }
      var shortnum, partialindex := index / 16, 15 - index % 16;
      bits := bits + [shortnum * 16 + partialindex];
      index := index + 1;
    }
  }

  /** However many properties there are, no two share a flag and none takes a continuation bit. */
  lemma FlagsAreDistinct(j: nat, k: nat)
    ensures BitIndex(k) % 16 != 0
    ensures BitIndex(j) == BitIndex(k) ==> j == k
    ensures BitIndex(k) / 16 == k / 15
  {
    assert BitIndex(k) / 16 == k / 15 && BitIndex(k) % 16 == 15 - k % 15;
    assert BitIndex(j) / 16 == j / 15 && BitIndex(j) % 16 == 15 - j % 15;
  }

  /** A class with at most 30 properties fits `amqp_flags_t`. */
  lemma FlagsFit(k: nat)
    ensures BitIndex(k) < 32 <==> k < 30
  {
  }

  lemma {:induction false} OneBit(n: nat, bit: nat)
    ensures IsSet(Pow2(n), bit) <==> bit == n
  {
    if n > 0 && bit > 0 {
      OneBit(n - 1, bit - 1);
    } else if bit > 0 {
      NoBitsInZero(bit - 1);
    }
  }

  predicate Flagged(flags: Flags, k: nat) {
    IsSet(flags, BitIndex(k))
  }

  //////////////////////////////////////////////////////////////////////////////
  // Flag words
  //////////////////////////////////////////////////////////////////////////////

  /** The flags of the next word. */
  function Remainder(flags: Flags): Flags {
    flags / 0x1_0000
  }

  /** One 16-bit word: fifteen flags, and whether another word follows. */
  function Word(flags: Flags): (w: nat)
    ensures w < 0x1_0000
  {
    flags % 0x1_0000 - flags % 2 + (if Remainder(flags) != 0 then 1 else 0)
  }

  function FlagWords(flags: Flags): (s: Bytes)
    ensures |s| == if Remainder(flags) == 0 then 2 else 4
  {
    if Remainder(flags) == 0 then Be(2, Word(flags)) else Be(2, Word(flags)) + Be(2, Word(Remainder(flags)))
  }

  /** The word as it is merged into the flags at word position `index`; the words of a mask do not
      overlap, so that merging is addition. */
  function Shifted(w: nat, index: nat): nat {
    if index == 0 then w else if index == 1 then 0x1_0000 * w else 0
  }

  predicate Continues(w: nat) {
    w % 2 == 1
  }

  /** The flag words from `o` on, merged into `flags`. */
  function DecFlags(b: Bytes, o: nat, index: nat, flags: Flags): (r: Decoded<Flags>)
    requires index == 0 ==> flags == 0
    requires index == 1 ==> flags < 0x1_0000
    ensures r.Got? ==> o < r.next <= |b|
    decreases |b| - o
  {
    Pow256Values();
    match GetUint(b, o, 2)
    case Bad => Bad
    case Got(w, next) =>
      if Continues(w) then DecFlags(b, next, index + 1, flags + Shifted(w, index))
      else Got(flags + Shifted(w, index), next)
  }

  /** The flags that come back: the continuation bit of the first word is merged in with the rest. */
  function Restored(flags: Flags): Flags {
    Word(flags) + 0x1_0000 * Word(Remainder(flags))
  }

  lemma WordRoundTrip(b: Bytes, o: nat, w: nat)
    requires At(b, o, Be(2, w)) && w < 0x1_0000
    ensures GetUint(b, o, 2) == Got(w, o + 2)
  {
    Pow256Values();
    GetPutUint(b, o, 2, w);
  }

  lemma FlagsRoundTrip(b: Bytes, o: nat, flags: Flags)
    requires At(b, o, FlagWords(flags))
    ensures DecFlags(b, o, 0, 0) == Got(Restored(flags), o + |FlagWords(flags)|)
  {
    hide GetUint, At, Be;
    if Remainder(flags) == 0 {
      WordRoundTrip(b, o, Word(flags));
    } else {
      AtSplit(b, o, Be(2, Word(flags)), Be(2, Word(Remainder(flags))));
      WordRoundTrip(b, o, Word(flags));
      WordRoundTrip(b, o + 2, Word(Remainder(flags)));
    }
  }

  /** The flags come back as they were exactly when the second continuation bit is clear and the
      first one says whether the second word is needed. */
  lemma FlagsRestoredIff(flags: Flags)
    ensures Restored(flags) == flags <==> !IsSet(flags, 16) && (IsSet(flags, 0) <==> flags >= 0x1_0000)
  {
    hide IsSet, Restored;
    RestoredWords(flags);
    LowestIsParity(flags);
    SeventeenthIsParity(flags);
  }

  lemma RestoredWords(flags: Flags)
    ensures Restored(flags) == flags <==> flags / 0x1_0000 % 2 == 0 && (flags % 2 == 1 <==> flags >= 0x1_0000)
  {
    var low, high := flags % 0x1_0000, flags / 0x1_0000;
    assert flags == low + 0x1_0000 * high && flags % 2 == low % 2;
    assert Word(high) == high - high % 2;
  }

  lemma SeventeenthIsParity(flags: Flags)
    ensures IsSet(flags, 16) <==> flags / 0x1_0000 % 2 == 1
  {
    hide IsSet, Pow2;
    Pow2Values();
    HighBits(flags % 0x1_0000, flags / 0x1_0000, 16, 0);
    LowestIsParity(flags / 0x1_0000);
  }

  lemma LowestIsParity(mask: nat)
    ensures IsSet(mask, 0) <==> mask % 2 == 1
  {
  }

  lemma Pow2Values()
    ensures Pow2(1) == 2 && Pow2(16) == 0x1_0000
  {
    assert Pow2(8) == 0x100;
  }

  /** The flag of a property is never lost or made up, whatever the other flags are. */
  lemma FlaggedRestored(flags: Flags, k: nat)
    ensures Flagged(Restored(flags), k) == Flagged(flags, k)
  {
    FlagsAreDistinct(k, k);
    var bit, r := BitIndex(k), Restored(flags);
    Pow2Values();
    if bit < 16 {
      LowBits(Word(flags), Word(Remainder(flags)), 16, bit);
      LowBits(flags % 0x1_0000, flags / 0x1_0000, 16, bit);
      WordKeepsBit(flags, bit);
    } else {
      var high := Remainder(flags);
      HighBits(Word(flags), Word(high), 16, bit - 16);
      HighBits(flags % 0x1_0000, high, 16, bit - 16);
      if bit < 32 {
        WordKeepsBit(high, bit - 16);
      } else {
        NoHighBits(high, bit - 16);
        NoHighBits(Word(high), bit - 16);
      }
    }
  }

  lemma {:induction false} NoHighBits(mask: nat, bit: nat)
    requires mask < 0x1_0000 && bit >= 16
    ensures !IsSet(mask, bit)
  {
    Pow2Values();
    HighBits(mask, 0, 16, bit - 16);
    NoBitsInZero(bit - 16);
  }

  lemma {:induction false} NoBitsInZero(bit: nat)
    ensures !IsSet(0, bit)
  {
    if bit > 0 {
      NoBitsInZero(bit - 1);
    }
  }

  /** All but the continuation bit of a word are those of the flags. */
  lemma WordKeepsBit(flags: Flags, bit: nat)
    requires 0 < bit < 16
    ensures IsSet(Word(flags), bit) == IsSet(flags % 0x1_0000, bit)
  {
    assert Word(flags) / 2 == flags % 0x1_0000 / 2;
  }

  //////////////////////////////////////////////////////////////////////////////
  // Property lists
  //////////////////////////////////////////////////////////////////////////////

  const BASIC_CLASS: nat := 60

  /** content-type, content-encoding, headers, delivery-mode, priority, correlation-id, reply-to,
      expiration, message-id, timestamp, type, user-id, app-id, cluster-id */
  const BASIC_PROPERTIES: seq<FieldType> :=
    [Shortstr, Shortstr, FieldTable, Octet, Octet, Shortstr, Shortstr, Shortstr, Shortstr, Longlong, Shortstr,
     Shortstr, Shortstr, Shortstr]

  /** The property types of a class; only the basic class has any. */
  function ClassProperties(classId: nat): (r: Option<seq<FieldType>>)
    ensures r.Some? ==> WellFormedClass(r.value)
  {
    if classId == BASIC_CLASS then Some(BASIC_PROPERTIES)
    else if classId in {10, 20, 30, 40, 50, 85, 90} then Some([])
    else None
  }

  /** No bits (they would be presence flags) and no more properties than there are flags. */
  predicate WellFormedClass(types: seq<FieldType>) {
    |types| <= 30 && Bit !in types
  }

  /** `_flags` and the members of a properties structure; a member whose flag is clear is whatever
      its memory held. */
  datatype PropertyList = PropertyList(flags: Flags, members: seq<Field>)

  /** The flagged members from `k` on. */
  function EncMembers(types: seq<FieldType>, p: PropertyList, k: nat): Option<Bytes>
    requires k <= |types| == |p.members|
    decreases |types| - k
  {
    if k == |types| then Some([])
    else if Flagged(p.flags, k) then
      match FieldBytes(types[k], p.members[k])
      case None => None
      case Some(first) => Then(first, EncMembers(types, p, k + 1))
    else EncMembers(types, p, k + 1)
  }

  function EncProperties(types: seq<FieldType>, p: PropertyList): Option<Bytes>
    requires |types| == |p.members|
  {
    Then(FlagWords(p.flags), EncMembers(types, p, 0))
  }

  function DecMembers(types: seq<FieldType>, flags: Flags, b: Bytes, o: nat, members: seq<Field>, k: nat)
    : Decoded<seq<Field>>
    requires k <= |types| == |members|
    decreases |types| - k
  {
    if k == |types| then Got(members, o)
    else if Flagged(flags, k) then
      match GetFieldValue(types[k], b, o)
      case Bad => Bad
      case Got(v, next) => DecMembers(types, flags, b, next, members[k := v], k + 1)
    else DecMembers(types, flags, b, o, members, k + 1)
  }

  function DecProperties(types: seq<FieldType>, b: Bytes, o: nat, raw: seq<Field>): Decoded<PropertyList>
    requires |types| == |raw|
  {
    match DecFlags(b, o, 0, 0)
    case Bad => Bad
    case Got(flags, next) =>
      match DecMembers(types, flags, b, next, raw, 0)
      case Bad => Bad
      case Got(members, last) => Got(PropertyList(flags, members), last)
  }

  /** Every flagged member has its C type, is accepted by the encoder and is portable. */
  predicate Sendable(types: seq<FieldType>, p: PropertyList) {
    && |types| == |p.members|
    && forall k | 0 <= k < |types| && Flagged(p.flags, k) :: SendableMember(types[k], p.members[k])
  }

  predicate SendableMember(t: FieldType, v: Field) {
    HasType(t, v) && Encodable(t, v) && PortableField(v)
  }

  /** `p` with the flags that come back and, where no flag is set, the members of `raw`. */
  function Received(p: PropertyList, raw: seq<Field>): (r: PropertyList)
    requires |raw| == |p.members|
    ensures |r.members| == |raw|
  {
    PropertyList(Restored(p.flags), seq(|raw|, k requires 0 <= k < |raw| =>
      if Flagged(p.flags, k) then p.members[k] else raw[k]))
  }

  lemma {:induction false} MembersRoundTrip(types: seq<FieldType>, p: PropertyList, b: Bytes, o: nat,
                                            raw: seq<Field>, read: seq<Field>, k: nat)
    requires WellFormedClass(types) && Sendable(types, p) && |b| < UINT32_MODULUS
    requires k <= |types| == |raw| == |read|
    requires read == Received(p, raw).members[..k] + raw[k..]
    requires EncMembers(types, p, k).Some? ==> At(b, o, EncMembers(types, p, k).value)
    ensures EncMembers(types, p, k).Some?
    ensures DecMembers(types, Restored(p.flags), b, o, read, k)
            == Got(Received(p, raw).members, o + |EncMembers(types, p, k).value|)
    decreases |types| - k
  {
    hide Flagged, Restored, FieldBytes, GetFieldValue, At, HasType, Encodable, PortableField;
    var target := Received(p, raw).members;
    if k < |types| {
      FlaggedRestored(p.flags, k);
      var read' := if Flagged(p.flags, k) then read[k := p.members[k]] else read;
      assert read' == target[..k + 1] + raw[k + 1..];
      if Flagged(p.flags, k) {
        assert SendableMember(types[k], p.members[k]);
        assert types[k] in types;
        FieldAccepts(types[k], p.members[k]);
        var first := FieldBytes(types[k], p.members[k]).value;
        var rest := EncMembers(types, p, k + 1);
        if rest.Some? {
          AtSplit(b, o, first, rest.value);
        }
        MembersRoundTrip(types, p, b, o + |first|, raw, read', k + 1);
        FieldRoundTrip(types[k], p.members[k], b, o);
      } else {
        MembersRoundTrip(types, p, b, o, raw, read', k + 1);
      }
    } else {
      assert read == target;
    }
  }

  /** Every flagged property comes back, for all values and all combinations of flags. */
  lemma PropertiesRoundTrip(types: seq<FieldType>, p: PropertyList, b: Bytes, o: nat, raw: seq<Field>)
    requires WellFormedClass(types) && Sendable(types, p) && |b| < UINT32_MODULUS && |raw| == |types|
    requires EncProperties(types, p).Some? ==> At(b, o, EncProperties(types, p).value)
    ensures EncProperties(types, p).Some?
    ensures DecProperties(types, b, o, raw) == Got(Received(p, raw), o + |EncProperties(types, p).value|)
  {
    hide FlagWords, DecFlags, EncMembers, DecMembers, At;
    var flags, members := FlagWords(p.flags), EncMembers(types, p, 0);
    var next := o + |flags|;
    if members.Some? {
      AtSplit(b, o, flags, members.value);
    }
    assert raw == Received(p, raw).members[..0] + raw[0..];
    MembersRoundTrip(types, p, b, next, raw, raw, 0);
    FlagsRoundTrip(b, o, p.flags);
  }

  //////////////////////////////////////////////////////////////////////////////
  // The loops of the library
  //////////////////////////////////////////////////////////////////////////////

  lemma FlagWordsStep(flags: Flags)
    ensures FlagWords(flags)
            == Be(2, Word(flags)) + if Remainder(flags) != 0 then FlagWords(Remainder(flags)) else []
    ensures Remainder(Remainder(flags)) == 0
  {
  }

  /** The `do` loop of `amqp_encode_properties`. */
  method EncodeFlagWords(buf: array<byte>, limit: nat, flags: Flags, start: nat) returns (status: Status, offset: nat)
    requires limit <= buf.Length
    modifies buf
    ensures Wrote(old(buf[..]), buf[..], limit, start, FlagWords(flags), true, status, offset)
    ensures status == Space(start + |FlagWords(flags)|, limit)
  {
    hide Wrote, Write, SameOutside, Be, Word, FlagWords, Remainder;
    ghost var before := buf[..];
    ghost var done: Bytes := [];
    WriteNothing(before, start);
    offset := start;
    var remaining, more := flags, true;
    while more
      invariant FlagWords(flags) == done + if more then FlagWords(remaining) else []
      invariant offset == start + |done| && (done == [] || offset <= limit)
      invariant buf[..] == Write(before, start, done)
      invariant !more ==> done != []
      decreases if !more then 0 else if Remainder(remaining) == 0 then 1 else 2
    {
      FlagWordsStep(remaining);
      ghost var word, between := Be(2, Word(remaining)), buf[..];
      var ok: bool;
      ok, offset := PutUint(buf, limit, offset, 2, Word(remaining));
      if !ok {
        WroteNone(between, limit, start + |done|, FlagWords(remaining), true, BadAmqpData, offset);
        WroteThen(before, limit, start, done, between, FlagWords(remaining), true, BadAmqpData, offset);
        return BadAmqpData, offset;
      }
      WriteAppend(before, start, done, word);
      ghost var rest := if Remainder(remaining) != 0 then FlagWords(Remainder(remaining)) else [];
      Regroup(done, word, rest);
      done := done + word;
      remaining := Remainder(remaining);
      more := remaining != 0;
    }
    assert done + [] == done;
    WroteDone(before, limit, start, done);
    status := Ok;
  }

  /** The status of encoding the flagged members from `k` on, at `o`. */
  function MembersStatus(types: seq<FieldType>, p: PropertyList, k: nat, o: nat, limit: nat): Status
    requires k <= |types| == |p.members|
    decreases |types| - k
  {
    if k == |types| then Ok
    else if Flagged(p.flags, k) then
      var status :=
        if HasType(types[k], p.members[k]) then MemberStatus(types[k], p.members[k], o, limit) else BadAmqpData;
      if status.Ok? then MembersStatus(types, p, k + 1, o + |OrElse(FieldBytes(types[k], p.members[k]))|, limit) else status
    else MembersStatus(types, p, k + 1, o, limit)
  }

  /** The status of `amqp_encode_properties`: the flag words come before the class is looked at. */
  function ClassStatus(classId: nat, p: PropertyList, o: nat, limit: nat): Status {
    var status, types := Space(o + |FlagWords(p.flags)|, limit), ClassProperties(classId);
    if !status.Ok? then status
    else if types.None? then UnknownClass
    else if |types.value| != |p.members| then BadAmqpData
    else MembersStatus(types.value, p, 0, o + |FlagWords(p.flags)|, limit)
  }

  /** `amqp_encode_properties`. */
  method EncodeProperties(buf: array<byte>, limit: nat, classId: nat, p: PropertyList, start: nat)
    returns (status: Status, offset: nat)
    requires limit <= buf.Length
    requires var types := ClassProperties(classId); types.Some? ==> Typeable(types.value, p)
    modifies buf
    ensures Wrote(old(buf[..]), buf[..], limit, start, OrElse(EncClass(classId, p)), EncClass(classId, p).Some?, status,
                  offset)
    ensures status == ClassStatus(classId, p, start, limit)
  {
    hide Wrote, Write, SameOutside, FlagWords, FieldBytes, Flagged, EncMembers, MembersStatus, MemberStatus, HasType;
    ghost var before := buf[..];
    status, offset := EncodeFlagWords(buf, limit, p.flags, start);
    ghost var all := EncClass(classId, p);
    if !status.Ok? {
      if all.Some? {
        ghost var members := EncMembers(ClassProperties(classId).value, p, 0).value;
        WroteShort(before, buf[..], limit, start, FlagWords(p.flags), members, true, true, status, offset);
      } else {
        WroteUnencodable(before, buf[..], limit, start, FlagWords(p.flags), true, [], status, offset);
      }
      return;
    }
    WroteAll(before, buf[..], limit, start, FlagWords(p.flags), true, status, offset);
    var types := ClassProperties(classId);
    if types.None? {
      WroteNone(buf[..], limit, offset, [], false, UnknownClass, offset);
      WroteThen(before, limit, start, FlagWords(p.flags), buf[..], [], false, UnknownClass, offset);
      WroteUnencodable(before, buf[..], limit, start, FlagWords(p.flags) + [], false, [], UnknownClass, offset);
      return UnknownClass, offset;
    }
    ghost var between := buf[..];
    ghost var members := EncMembers(types.value, p, 0);
    status, offset := EncodeMembers(buf, limit, types.value, p, offset);
    WroteThen(before, limit, start, FlagWords(p.flags), buf[..], OrElse(members), members.Some?, status, offset);
    if members.None? {
      WroteStatus(before, buf[..], limit, start, FlagWords(p.flags) + OrElse(members), false, status, offset);
      WroteUnencodable(before, buf[..], limit, start, FlagWords(p.flags) + OrElse(members), false, [], status, offset);
    }
  }

  /** What `amqp_encode_properties` writes for a class; `None` when it returns an error. */
  function EncClass(classId: nat, p: PropertyList): Option<Bytes> {
    match ClassProperties(classId)
    case None => None
    case Some(types) => if |types| == |p.members| then EncProperties(types, p) else None
  }

  /** Every flagged member has its C type. */
  predicate Typeable(types: seq<FieldType>, p: PropertyList) {
    && |types| == |p.members|
    && forall k | 0 <= k < |types| && Flagged(p.flags, k) :: HasType(types[k], p.members[k])
  }

  /** The emitted `if (flags & ...)` blocks of a class. */
  method EncodeMembers(buf: array<byte>, limit: nat, types: seq<FieldType>, p: PropertyList, start: nat)
    returns (status: Status, offset: nat)
    requires start <= limit <= buf.Length && WellFormedClass(types) && Typeable(types, p)
    modifies buf
    ensures Wrote(old(buf[..]), buf[..], limit, start, OrElse(EncMembers(types, p, 0)), EncMembers(types, p, 0).Some?,
                  status, offset)
    ensures status == MembersStatus(types, p, 0, start, limit)
  {
    hide Wrote, Write, SameOutside, FieldBytes, Flagged, HasType;
    ghost var before := buf[..];
    ghost var all := EncMembers(types, p, 0);
    ghost var done: Bytes := [];
    offset := start;
    WriteNothing(before, start);
    ThenNothing(all);
    for k := 0 to |types|
      invariant offset == start + |done| <= limit
      invariant all == Then(done, EncMembers(types, p, k))
      invariant MembersStatus(types, p, 0, start, limit) == MembersStatus(types, p, k, offset, limit)
      invariant buf[..] == Write(before, start, done)
    {
      if Flagged(p.flags, k) {
        ghost var first, tail := FieldBytes(types[k], p.members[k]), EncMembers(types, p, k + 1);
        ghost var between, from := buf[..], offset;
        assert types[k] in types;
        status, offset := PutMember(buf, limit, types[k], p.members[k], offset);
        if first.Some? {
          ThenThen(done, first.value, tail);
        }
        if !status.Ok? {
          WroteThen(before, limit, start, done, buf[..], OrElse(first), first.Some?, status, offset);
          if all.Some? {
            WroteShort(before, buf[..], limit, start, done + first.value, tail.value, true, true, status, offset);
          } else {
            WroteUnencodable(before, buf[..], limit, start, done + OrElse(first), first.Some?, [], status, offset);
          }
          return;
        }
        WroteAll(between, buf[..], limit, from, OrElse(first), first.Some?, status, offset);
        WriteAppend(before, start, done, first.value);
        done := done + first.value;
      }
    }
    assert done + [] == done;
    WroteDone(before, limit, start, done);
    status := Ok;
  }

  /** The `do` loop of `amqp_decode_properties`. */
  method DecodeFlagWords(b: Bytes, start: nat) returns (r: Decoded<Flags>)
    ensures r == DecFlags(b, start, 0, 0)
  {
    var offset: nat, index: nat := start, 0;
    var flags: Flags := 0;
    var more := true;
    while more
      invariant (index == 0 ==> flags == 0) && (index == 1 ==> flags < 0x1_0000)
      invariant DecFlags(b, start, 0, 0) == if more then DecFlags(b, offset, index, flags) else Got(flags, offset)
      invariant more || offset <= |b|
      decreases more, |b| - offset
    {
      var word := GetUint(b, offset, 2);
      if word.Bad? {
        return Bad;
      }
      Pow256Values();
      flags := flags + Shifted(word.value, index);
      offset, index, more := word.next, index + 1, Continues(word.value);
    }
    return Got(flags, offset);
  }

  /** A structure as `amqp_pool_alloc` hands it out. */
  function Blank(types: seq<FieldType>): (m: seq<Field>)
    ensures |m| == |types|
  {
    seq(|types|, _ => Uint(0))
  }

  /** `amqp_decode_properties`: the flag words are read before the class is looked at. */
  function DecClass(classId: nat, b: Bytes): (r: (Status, PropertyList))
    ensures r.0 in {Ok, BadAmqpData, UnknownClass}
  {
    var none := PropertyList(0, []);
    match DecFlags(b, 0, 0, 0)
    case Bad => (BadAmqpData, none)
    case Got(flags, next) =>
      match ClassProperties(classId)
      case None => (UnknownClass, none)
      case Some(types) =>
        match DecMembers(types, flags, b, next, Blank(types), 0)
        case Bad => (BadAmqpData, none)
        case Got(members, _) => (Ok, PropertyList(flags, members))
  }

  method DecodeProperties(classId: nat, b: Bytes) returns (status: Status, p: PropertyList)
    ensures (status, p) == DecClass(classId, b)
  {
    p := PropertyList(0, []);
    var flags := DecodeFlagWords(b, 0);
    if flags.Bad? {
      return BadAmqpData, p;
    }
    var types := ClassProperties(classId);
    if types.None? {
      return UnknownClass, p;
    }
    var offset, members := flags.next, Blank(types.value);
    for k := 0 to |types.value|
      invariant |members| == |types.value|
      invariant DecMembers(types.value, flags.value, b, flags.next, Blank(types.value), 0)
             == DecMembers(types.value, flags.value, b, offset, members, k)
    {
      hide Flagged, GetFieldValue;
      if Flagged(flags.value, k) {
        var v := GetFieldValue(types.value[k], b, offset);
        if v.Bad? {
          return BadAmqpData, p;
        }
        members, offset := members[k := v.value], v.next;
      }
    }
    return Ok, PropertyList(flags.value, members);
  }
}
