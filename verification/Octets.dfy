/** The formats octet by octet: methods, properties and frames of known contents, written as numbers. */
module Octets {
  import opened Wire
  import opened FieldTable
  import opened Codegen
  import opened Framing
  import opened Properties
  import opened Frames
  import opened FrameCodec

  //////////////////////////////////////////////////////////////////////////////
  // Numbers
  //////////////////////////////////////////////////////////////////////////////

  /** The number that two, four and eight octets stand for. */
  function Two(s: Bytes, i: nat): nat
    requires i + 2 <= |s|
  {
    0x100 * (s[i] as int) + s[i + 1]
  }

  function Four(s: Bytes, i: nat): nat
    requires i + 4 <= |s|
  {
    0x1_0000 * Two(s, i) + Two(s, i + 2)
  }

  function Eight(s: Bytes, i: nat): nat
    requires i + 8 <= |s|
  {
    0x1_0000_0000 * Four(s, i) + Four(s, i + 4)
  }

  lemma NumbersAreRead(s: Bytes, i: nat)
    ensures i + 2 <= |s| ==> Unbe(s[i..i + 2]) == Two(s, i)
    ensures i + 4 <= |s| ==> Unbe(s[i..i + 4]) == Four(s, i)
    ensures i + 8 <= |s| ==> Unbe(s[i..i + 8]) == Eight(s, i)
  {
    hide Unbe;
    if i + 2 <= |s| {
      ReadBigEndian(s[i..i + 2]);
    }
    if i + 4 <= |s| {
      ReadBigEndian(s[i..i + 4]);
    }
    if i + 8 <= |s| {
      var t := s[i..i + 8];
      ReadBigEndian(t);
      ReadBigEndian(t[..4]);
      ReadBigEndian(t[4..]);
    }
  }

  /** The digits of a number of 16, 32 or 64 bits. */
  function Digits2(n: nat): (s: Bytes)
    ensures |s| == 2
  {
    [n / 0x100 % 256, n % 256]
  }

  function Digits4(n: nat): (s: Bytes)
    ensures |s| == 4
  {
    Digits2(n / 0x1_0000) + Digits2(n)
  }

  //////////////////////////////////////////////////////////////////////////////
  // Methods
  //////////////////////////////////////////////////////////////////////////////

  /** The octets of a method are decoded to its arguments. */
  lemma MethodSample(types: seq<FieldType>, m: seq<Field>, octets: Bytes, raw: seq<Field>)
    requires HasTypes(types, m) && AllEncodable(types, m) && AllPortable(m) && |raw| == |m| && |octets| < UINT32_MODULUS
    requires EncMethod(types, m) == Some(octets)
    ensures DecMethod(types, octets, 0, raw) == Got(m, |octets|)
  {
    hide EncMethod, DecMethod, HasTypes, AllEncodable, AllPortable;
    assert octets[0..0 + |octets|] == octets;
    MethodRoundTrip(types, m, octets, 0, raw);
  }

  /** What is written from a field on that is no bit: `field` and then `rest`. */
  lemma FieldThen(types: seq<FieldType>, m: seq<Field>, i: nat, field: Bytes, rest: Bytes, all: Bytes)
    requires i < |types| && i < |m| && !types[i].Bit?
    requires FieldBytes(types[i], m[i]).Some? && FieldBytes(types[i], m[i]).value == field
    requires RunEncoder(EncoderLines(types, i + 1, 0), m, 0) == Some(rest) && all == field + rest
    ensures RunEncoder(EncoderLines(types, i, 0), m, 0) == Some(all)
  {
    hide EncoderLines, RunEncoder, FieldBytes;
    EncodeFieldStep(types, m, i, 0, 0);
    ThenNothing(Some(field + rest));
  }

  lemma NothingMore(types: seq<FieldType>, m: seq<Field>)
    ensures RunEncoder(EncoderLines(types, |types|, 0), m, 0) == Some([])
  {
    RunsNothing(m, 0);
  }

  /** connection.tune: 2047 channels, frames of 131072 octets, a heartbeat every 60 seconds. */
  lemma TuneOctets(raw: seq<Field>)
    requires |raw| == 3
    ensures var m, octets := [Uint(2047), Uint(131072), Uint(60)], [7, 255, 0, 2, 0, 0, 0, 60];
            EncMethod(TUNE, m) == Some(octets) && DecMethod(TUNE, octets, 0, raw) == Got(m, 8)
  {
    hide EncoderLines, RunEncoder, FieldBytes, Be;
    var m := [Uint(2047), Uint(131072), Uint(60)];
    FieldOctets(Short, m[0]);
    FieldOctets(Long, m[1]);
    FieldOctets(Short, m[2]);
    BigEndian(2047);
    BigEndian(131072);
    BigEndian(60);
    NothingMore(TUNE, m);
    FieldThen(TUNE, m, 2, [0, 60], [], [0, 60]);
    FieldThen(TUNE, m, 1, [0, 2, 0, 0], [0, 60], [0, 2, 0, 0, 0, 60]);
    FieldThen(TUNE, m, 0, [7, 255], [0, 2, 0, 0, 0, 60], [7, 255, 0, 2, 0, 0, 0, 60]);
    MethodSample(TUNE, m, [7, 255, 0, 2, 0, 0, 0, 60], raw);
  }

  /** What is written from a run of bits on: one octet and then `rest`. */
  lemma BitsThen(types: seq<FieldType>, m: seq<Field>, i: nat, n: nat, octet: byte, rest: Bytes, all: Bytes)
    requires HasTypes(types, m) && AllEncodable(types, m) && 0 < n <= 8 && i + n <= |types|
    requires forall k | i <= k < i + n :: types[k].Bit?
    requires n == 8 || i + n == |types| || !types[i + n].Bit?
    requires BitSum(m, i, n) == octet && all == [octet] + rest
    requires RunEncoder(EncoderLines(types, i + n, 0), m, 0) == Some(rest)
    ensures RunEncoder(EncoderLines(types, i, 0), m, 0) == Some(all)
  {
    hide EncoderLines, RunEncoder, HasTypes, AllEncodable, BitSum;
    BitRunValue(types, m, i, n, 0);
  }

  /** queue.declare of the exclusive queue "q": the third of five bits is set. */
  lemma QueueDeclareOctets(raw: seq<Field>)
    requires |raw| == 8
    ensures var m := [Uint(0), Str([113]), Flag(0), Flag(0), Flag(1), Flag(0), Flag(0), Tab([])];
            var octets := [0, 0, 1, 113, 4, 0, 0, 0, 0];
            EncMethod(QUEUE_DECLARE, m) == Some(octets) && DecMethod(QUEUE_DECLARE, octets, 0, raw) == Got(m, 9)
  {
    hide EncoderLines, RunEncoder, FieldBytes, Be, BitSum, EncTable;
    var m := [Uint(0), Str([113]), Flag(0), Flag(0), Flag(1), Flag(0), Flag(0), Tab([])];
    FieldOctets(Short, m[0]);
    FieldOctets(Shortstr, m[1]);
    FieldOctets(FieldType.FieldTable, m[7]);
    Zeros();
    NoOctets(1);
    assert BitSum(m, 2, 5) == 4 by {
      FiveBits(m, 2);
    }
    NothingMore(QUEUE_DECLARE, m);
    FieldThen(QUEUE_DECLARE, m, 7, [0, 0, 0, 0], [], [0, 0, 0, 0]);
    BitsThen(QUEUE_DECLARE, m, 2, 5, 4, [0, 0, 0, 0], [4, 0, 0, 0, 0]);
    FieldThen(QUEUE_DECLARE, m, 1, [1, 113], [4, 0, 0, 0, 0], [1, 113, 4, 0, 0, 0, 0]);
    FieldThen(QUEUE_DECLARE, m, 0, [0, 0], [1, 113, 4, 0, 0, 0, 0], [0, 0, 1, 113, 4, 0, 0, 0, 0]);
    MethodSample(QUEUE_DECLARE, m, [0, 0, 1, 113, 4, 0, 0, 0, 0], raw);
  }

  lemma Zeros()
    ensures Be(2, 0) == [0, 0] && Be(4, 0) == [0, 0, 0, 0] && EncTable([]) == [0, 0, 0, 0]
  {
    hide Be;
    NothingEncoded();
    BigEndian(0);
  }

  /** The value of one bit, and of two and five. */
  lemma TwoBits(m: seq<Field>, i: nat)
    requires i < |m| && m[i].Flag?
    ensures BitSum(m, i, 1) == if m[i].x != 0 then 1 else 0
    ensures i + 1 < |m| && m[i + 1].Flag? ==>
              BitSum(m, i, 2) == (if m[i].x != 0 then 1 else 0) + (if m[i + 1].x != 0 then 2 else 0)
  {
    hide Pow2;
    Powers(0);
    Powers(1);
    assert BitSum(m, i, 0) == 0;
    assert BitSum(m, i, 1) == if m[i].x != 0 then 1 else 0;
  }

  lemma FiveBits(m: seq<Field>, i: nat)
    requires i + 5 <= |m| && forall k | i <= k < i + 5 :: m[k].Flag?
    ensures BitSum(m, i, 5)
            == (if m[i].x != 0 then 1 else 0) + (if m[i + 1].x != 0 then 2 else 0) + (if m[i + 2].x != 0 then 4 else 0)
               + (if m[i + 3].x != 0 then 8 else 0) + (if m[i + 4].x != 0 then 16 else 0)
  {
    hide Pow2;
    Powers(2);
    Powers(3);
    Powers(4);
    TwoBits(m, i);
    assert BitSum(m, i, 3) == BitSum(m, i, 2) + if m[i + 2].x != 0 then 4 else 0;
    assert BitSum(m, i, 4) == BitSum(m, i, 3) + if m[i + 3].x != 0 then 8 else 0;
  }

  /** basic.publish to the queue "q" of the default exchange, immediate: the second of two bits is set. */
  lemma PublishOctets(raw: seq<Field>)
    requires |raw| == 5
    ensures var m, octets := [Uint(0), Str([]), Str([113]), Flag(0), Flag(1)], [0, 0, 0, 1, 113, 2];
            EncMethod(BASIC_PUBLISH, m) == Some(octets) && DecMethod(BASIC_PUBLISH, octets, 0, raw) == Got(m, 6)
  {
    hide EncoderLines, RunEncoder, FieldBytes, Be, BitSum;
    var m := [Uint(0), Str([]), Str([113]), Flag(0), Flag(1)];
    FieldOctets(Short, m[0]);
    FieldOctets(Shortstr, m[1]);
    FieldOctets(Shortstr, m[2]);
    Zeros();
    NoOctets(0);
    NoOctets(1);
    assert BitSum(m, 3, 2) == 2 by {
      TwoBits(m, 3);
    }
    NothingMore(BASIC_PUBLISH, m);
    BitsThen(BASIC_PUBLISH, m, 3, 2, 2, [], [2]);
    FieldThen(BASIC_PUBLISH, m, 2, [1, 113], [2], [1, 113, 2]);
    FieldThen(BASIC_PUBLISH, m, 1, [0], [1, 113, 2], [0, 1, 113, 2]);
    FieldThen(BASIC_PUBLISH, m, 0, [0, 0], [0, 1, 113, 2], [0, 0, 0, 1, 113, 2]);
    MethodSample(BASIC_PUBLISH, m, [0, 0, 0, 1, 113, 2], raw);
  }

  /** basic.deliver to the consumer "t", redelivered. */
  lemma DeliverOctets(raw: seq<Field>)
    requires |raw| == 5
    ensures var m := [Str([116]), Uint(7), Flag(1), Str([]), Str([113])];
            var octets := [1, 116, 0, 0, 0, 0, 0, 0, 0, 7, 1, 0, 1, 113];
            EncMethod(BASIC_DELIVER, m) == Some(octets) && DecMethod(BASIC_DELIVER, octets, 0, raw) == Got(m, 14)
  {
    hide EncMethod, DecMethod, HasTypes, AllEncodable, AllPortable;
    var m := [Str([116]), Uint(7), Flag(1), Str([]), Str([113])];
    DeliverIsEncoded(m);
    MethodSample(BASIC_DELIVER, m, [1, 116, 0, 0, 0, 0, 0, 0, 0, 7, 1, 0, 1, 113], raw);
  }

  lemma DeliverIsEncoded(m: seq<Field>)
    requires m == [Str([116]), Uint(7), Flag(1), Str([]), Str([113])]
    ensures HasTypes(BASIC_DELIVER, m) && AllEncodable(BASIC_DELIVER, m) && AllPortable(m)
    ensures EncMethod(BASIC_DELIVER, m) == Some([1, 116, 0, 0, 0, 0, 0, 0, 0, 7, 1, 0, 1, 113])
  {
    hide EncoderLines, RunEncoder, FieldBytes, Be, BitSum;
    FieldOctets(Shortstr, m[0]);
    FieldOctets(Longlong, m[1]);
    NoOctets(1);
    DeliveryTag();
    BehindDeliveryTag(m);
    FieldThen(BASIC_DELIVER, m, 1, [0, 0, 0, 0, 0, 0, 0, 7], [1, 0, 1, 113], [0, 0, 0, 0, 0, 0, 0, 7, 1, 0, 1, 113]);
    FieldThen(BASIC_DELIVER, m, 0, [1, 116], [0, 0, 0, 0, 0, 0, 0, 7, 1, 0, 1, 113],
              [1, 116, 0, 0, 0, 0, 0, 0, 0, 7, 1, 0, 1, 113]);
  }

  lemma DeliveryTag()
    ensures Be(8, 7) == [0, 0, 0, 0, 0, 0, 0, 7]
  {
    hide Be;
    BigEndian(7);
    BigEndian(0);
  }

  lemma BehindDeliveryTag(m: seq<Field>)
    requires HasTypes(BASIC_DELIVER, m) && AllEncodable(BASIC_DELIVER, m)
    requires m[2] == Flag(1) && m[3] == Str([]) && m[4] == Str([113])
    ensures RunEncoder(EncoderLines(BASIC_DELIVER, 2, 0), m, 0) == Some([1, 0, 1, 113])
  {
    hide EncoderLines, RunEncoder, FieldBytes, Be, BitSum;
    FieldOctets(Shortstr, m[3]);
    FieldOctets(Shortstr, m[4]);
    NoOctets(0);
    NoOctets(1);
    assert BitSum(m, 2, 1) == 1 by {
      TwoBits(m, 2);
    }
    NothingMore(BASIC_DELIVER, m);
    FieldThen(BASIC_DELIVER, m, 4, [1, 113], [], [1, 113]);
    FieldThen(BASIC_DELIVER, m, 3, [0], [1, 113], [0, 1, 113]);
    BitsThen(BASIC_DELIVER, m, 2, 1, 1, [0, 1, 113], [1, 0, 1, 113]);
  }

  //////////////////////////////////////////////////////////////////////////////
  // Properties
  //////////////////////////////////////////////////////////////////////////////

  /** The basic properties, with the values of their flags and their types: content-type, content-encoding,
      headers, delivery-mode, priority, correlation-id, reply-to, expiration, message-id, timestamp, type,
      user-id, app-id, cluster-id. */
  const BASIC: seq<(nat, FieldType)> :=
    [(0x8000, Shortstr), (0x4000, Shortstr), (0x2000, FieldType.FieldTable), (0x1000, Octet), (0x800, Octet),
     (0x400, Shortstr), (0x200, Shortstr), (0x100, Shortstr), (0x80, Shortstr), (0x40, Longlong), (0x20, Shortstr),
     (0x10, Shortstr), (8, Shortstr), (4, Shortstr)]

  lemma {:induction false} SetIsDigit(mask: nat, bit: nat)
    ensures IsSet(mask, bit) <==> mask / Pow2(bit) % 2 == 1
  {
    if bit > 0 {
      SetIsDigit(mask / 2, bit - 1);
      HalfFirst(mask, Pow2(bit - 1));
    }
  }

  lemma HighPowers(bit: nat)
    requires 8 <= bit < 16
    ensures Pow2(bit) == [0x100, 0x200, 0x400, 0x800, 0x1000, 0x2000, 0x4000, 0x8000][bit - 8]
  {
    Powers(7);
    assert Pow2(8) == 2 * Pow2(7);
    assert Pow2(9) == 2 * Pow2(8);
    assert Pow2(10) == 2 * Pow2(9);
    assert Pow2(11) == 2 * Pow2(10);
    assert Pow2(12) == 2 * Pow2(11);
    assert Pow2(13) == 2 * Pow2(12);
    assert Pow2(14) == 2 * Pow2(13);
    assert Pow2(15) == 2 * Pow2(14);
  }

  lemma BasicTypes(k: nat)
    requires k < 14
    ensures |BASIC_PROPERTIES| == 14 && BASIC_PROPERTIES[k] == BASIC[k].1
  {
  }

  lemma BasicFlags(k: nat)
    requires k < 14
    ensures BASIC[k].0 == Pow2(15 - k)
  {
    hide Pow2;
    if 15 - k < 8 {
      Powers(15 - k);
    } else {
      HighPowers(15 - k);
    }
  }

  /** A property is present when its flag is set, whatever the others are. */
  lemma BasicFormat(k: nat, flags: Flags)
    requires k < 14
    ensures |BASIC_PROPERTIES| == 14 && BASIC_PROPERTIES[k] == BASIC[k].1
    ensures BASIC[k].0 > 0 && (Flagged(flags, k) <==> flags / BASIC[k].0 % 2 == 1)
  {
    hide IsSet, Pow2;
    BasicTypes(k);
    BasicFlags(k);
    SetIsDigit(flags, 15 - k);
  }

  /** The flag words: fifteen flags each, and in the lowest bit whether another word follows. */
  lemma FlagOctets(flags: Flags)
    ensures FlagWords(flags)
            == if flags < 0x1_0000 then Digits2(flags - flags % 2)
               else Digits2(flags % 0x1_0000 - flags % 2 + 1) + Digits2(flags / 0x1_0000 - flags / 0x1_0000 % 2)
  {
    hide Be;
    BigEndian(Word(flags));
    BigEndian(Word(Remainder(flags)));
  }

  lemma FlagsAreRead(b: Bytes)
    ensures |b| < 2 ==> DecFlags(b, 0, 0, 0) == Bad
    ensures |b| >= 2 && b[1] % 2 == 0 ==> DecFlags(b, 0, 0, 0) == Got(Two(b, 0), 2)
    ensures |b| >= 4 && b[1] % 2 == 1 && b[3] % 2 == 0 ==> DecFlags(b, 0, 0, 0) == Got(Two(b, 0) + 0x1_0000 * Two(b, 2), 4)
    ensures 2 <= |b| < 4 && b[1] % 2 == 1 ==> DecFlags(b, 0, 0, 0) == Bad
  {
    hide DecFlags;
    FlagWordIsRead(b, 0, 0, 0);
    if |b| >= 2 {
      FlagWordIsRead(b, 2, 1, Two(b, 0));
    }
  }

  lemma FlagWordIsRead(b: Bytes, o: nat, index: nat, flags: Flags)
    requires (index == 0 ==> flags == 0) && index < 2 && flags < 0x1_0000
    ensures |b| < o + 2 ==> DecFlags(b, o, index, flags) == Bad
    ensures |b| >= o + 2 ==>
              var next := flags + (if index == 0 then 1 else 0x1_0000) * Two(b, o);
              DecFlags(b, o, index, flags)
              == if b[o + 1] % 2 == 0 then Got(next, o + 2) else DecFlags(b, o + 2, index + 1, next)
  {
    hide Unbe;
    NumbersAreRead(b, o);
    if |b| >= o + 2 {
      assert Two(b, o) % 2 == b[o + 1] % 2;
    }
  }

  /** Classes without properties, classes that do not exist, and missing flags. */
  lemma ClassIsRead(classId: nat, b: Bytes)
    ensures |b| < 2 ==> DecClass(classId, b).0 == BadAmqpData
    ensures |b| >= 2 && b[1] % 2 == 0 && classId !in {10, 20, 30, 40, 50, 60, 85, 90} ==>
              DecClass(classId, b).0 == UnknownClass
    ensures |b| >= 2 && b[1] % 2 == 0 && classId in {10, 20, 30, 40, 50, 85, 90} ==>
              DecClass(classId, b) == (Ok, PropertyList(Two(b, 0), []))
    ensures |b| >= 2 && b[1] % 2 == 0 && classId == 60 ==>
              DecClass(classId, b)
              == var members := DecMembers(BASIC_PROPERTIES, Two(b, 0), b, 2, Blank(BASIC_PROPERTIES), 0);
                 if members.Bad? then (BadAmqpData, PropertyList(0, []))
                 else (Ok, PropertyList(Two(b, 0), members.value))
  {
    hide DecFlags;
    FlagsAreRead(b);
  }

  /** Properties up to the next one that is present are skipped. */
  lemma {:induction false} AbsentMembers(types: seq<FieldType>, p: PropertyList, k: nat, next: nat)
    requires k <= next <= |types| == |p.members| && forall j | k <= j < next :: !Flagged(p.flags, j)
    ensures EncMembers(types, p, k) == EncMembers(types, p, next)
    decreases next - k
  {
    if k < next {
      AbsentMembers(types, p, k + 1, next);
    }
  }

  lemma PresentMember(types: seq<FieldType>, p: PropertyList, k: nat, next: nat, field: Bytes, rest: Bytes, all: Bytes)
    requires k < next <= |types| == |p.members| && Flagged(p.flags, k) && forall j | k < j < next :: !Flagged(p.flags, j)
    requires FieldBytes(types[k], p.members[k]).Some? && FieldBytes(types[k], p.members[k]).value == field
    requires EncMembers(types, p, next) == Some(rest) && all == field + rest
    ensures EncMembers(types, p, k) == Some(all)
  {
    hide Flagged, FieldBytes;
    AbsentMembers(types, p, k + 1, next);
  }

  /** The persistent message of type "a": content-type and delivery-mode. */
  lemma BasicOctets()
    ensures var p := PropertyList(0x9000, Blank(BASIC_PROPERTIES)[0 := Str([97])][3 := Uint(2)]);
            var octets := [144, 0, 1, 97, 2];
            EncClass(60, p) == Some(octets) && DecClass(60, octets) == (Ok, p)
  {
    hide EncMembers, Flagged, FieldBytes, FlagWords, DecFlags, DecMembers, Received;
    var p := PropertyList(0x9000, Blank(BASIC_PROPERTIES)[0 := Str([97])][3 := Uint(2)]);
    PersistentFlags();
    FlagOctets(0x9000);
    FieldOctets(Shortstr, Str([97]));
    FieldOctets(Octet, Uint(2));
    NoOctets(1);
    NoOctets(2);
    AbsentMembers(BASIC_PROPERTIES, p, 4, 14);
    NoMemberLeft(BASIC_PROPERTIES, p);
    PresentMember(BASIC_PROPERTIES, p, 3, 14, [2], [], [2]);
    PresentMember(BASIC_PROPERTIES, p, 0, 3, [1, 97], [2], [1, 97, 2]);
    var octets: Bytes := [144, 0, 1, 97, 2];
    assert Digits2(0x9000) + [1, 97, 2] == octets;
    ClassIsDecoded(60, BASIC_PROPERTIES, p, octets);
  }

  lemma NoMemberLeft(types: seq<FieldType>, p: PropertyList)
    requires |types| == |p.members|
    ensures EncMembers(types, p, |types|) == Some([])
  {
  }

  lemma PersistentFlags()
    ensures forall k | 0 <= k < 14 :: Flagged(0x9000, k) <==> k == 0 || k == 3
  {
    hide Flagged;
    forall k | 0 <= k < 14
      ensures Flagged(0x9000, k) <==> k == 0 || k == 3
    {
      BasicFormat(k, 0x9000);
    }
  }

  /** What is encoded is decoded; members without a flag are blank. */
  lemma ClassIsDecoded(classId: nat, types: seq<FieldType>, p: PropertyList, octets: Bytes)
    requires ClassProperties(classId) == Some(types) && Sendable(types, p)
    requires EncProperties(types, p) == Some(octets) && |octets| < UINT32_MODULUS
    requires p.flags < 0x1_0000 && p.flags % 2 == 0
    requires forall k | 0 <= k < |types| && !Flagged(p.flags, k) :: p.members[k] == Blank(types)[k]
    ensures DecClass(classId, octets) == (Ok, p)
  {
    hide Flagged, SendableMember, EncProperties, DecFlags, DecMembers, ClassProperties;
    assert octets[0..0 + |octets|] == octets;
    PropertiesRoundTrip(types, p, octets, 0, Blank(types));
    ReceivedAsSent(p, Blank(types));
  }

  lemma ReceivedAsSent(p: PropertyList, raw: seq<Field>)
    requires |raw| == |p.members| && p.flags < 0x1_0000 && p.flags % 2 == 0
    requires forall k | 0 <= k < |raw| && !Flagged(p.flags, k) :: p.members[k] == raw[k]
    ensures Received(p, raw) == p
  {
    hide Flagged;
    assert Received(p, raw).members == p.members;
  }

  //////////////////////////////////////////////////////////////////////////////
  // Frames
  //////////////////////////////////////////////////////////////////////////////

  /** Seven octets announce the size of a frame: it has to be allowed, and the octet behind it to be 206. */
  lemma FrameIsFound(cfg: Config, s: Bytes)
    ensures |s| < 7 ==> ParseFrame(cfg, s) == Incomplete
    ensures |s| >= 7 && (Four(s, 3) >= 0x7FFF_FFFF || Four(s, 3) + 8 > cfg.frameMax) ==>
              ParseFrame(cfg, s) == Failed(BadAmqpData)
    ensures |s| >= 7 && Four(s, 3) < 0x7FFF_FFFF && Four(s, 3) + 8 <= cfg.frameMax ==>
              ParseFrame(cfg, s)
              == if |s| < Four(s, 3) + 8 then Incomplete
                 else if s[Four(s, 3) + 7] != 206 then Failed(BadAmqpData)
                 else ParsePayload(cfg, s[0], Two(s, 1), s[7..Four(s, 3) + 7])
  {
    hide Unbe, ParsePayload;
    NumbersAreRead(s, 3);
    NumbersAreRead(s, 1);
  }

  /** Type 3 is a body, type 8 a heartbeat, and frames of any other type but 1 and 2 are ignored. */
  lemma PayloadIsRead(cfg: Config, kind: byte, channel: nat, payload: Bytes)
    requires kind != 1 && kind != 2
    ensures ParsePayload(cfg, kind, channel, payload)
            == Parsed(if kind == 3 then Some(Body(channel, payload))
                      else if kind == 8 then Some(Heartbeat(channel))
                      else None, |payload| + 8)
  {
  }

  /** Type 1 is a method: its id, of class and method, and its arguments. */
  lemma MethodIsRead(cfg: Config, channel: nat, payload: Bytes)
    requires |payload| >= 4
    ensures var id := Four(payload, 0);
            ParsePayload(cfg, 1, channel, payload)
            == if cfg.schema(id).None? then Failed(UnknownMethod)
               else
                 var args := DecMethod(cfg.schema(id).value, payload[4..], 0, Blank(cfg.schema(id).value));
                 if args.Bad? then Failed(BadAmqpData) else Parsed(Some(Method(channel, id, args.value)), |payload| + 8)
  {
    hide Unbe, DecMethod;
    NumbersAreRead(payload, 0);
    assert payload[..4] == payload[0..4];
  }

  /** Type 2 is a content header: class, weight, body size and properties. */
  lemma HeaderIsRead(cfg: Config, channel: nat, payload: Bytes)
    requires |payload| >= 12
    ensures var (status, properties) := DecClass(Two(payload, 0), payload[12..]);
            ParsePayload(cfg, 2, channel, payload)
            == if status.Ok? then Parsed(Some(Header(channel, Two(payload, 0), Eight(payload, 4), properties)), |payload| + 8)
               else Failed(status)
  {
    hide Unbe, DecClass;
    NumbersAreRead(payload, 0);
    NumbersAreRead(payload, 4);
    assert payload[..2] == payload[0..2];
  }

  /** A frame that is sent: its type is 1, 2, 3 or 8, its end 206. */
  lemma FrameIsWritten(cfg: Config, f: Frame)
    requires !f.ProtocolHeader?
    ensures var payload := PayloadBytes(cfg, f);
            FrameBytes(cfg, f)
            == if payload.None? then None
               else Some([match f case Method(_, _, _) => 1 case Header(_, _, _, _) => 2 case Body(_, _) => 3 case _ => 8]
                         + Digits2(f.channel) + Digits4(|payload.value|) + payload.value + [206])
    ensures f.Method? && cfg.schema(f.id).Some? ==>
              PayloadBytes(cfg, f) == Then(Digits4(f.id), EncMethod(cfg.schema(f.id).value, f.args))
    ensures f.Header? ==>
              PayloadBytes(cfg, f)
              == Then(Digits2(f.classId) + [0, 0] + Digits4(f.bodySize / 0x1_0000_0000) + Digits4(f.bodySize),
                      EncClass(f.classId, f.properties))
    ensures f.Body? ==> PayloadBytes(cfg, f) == Some(f.fragment)
    ensures f.Heartbeat? ==> PayloadBytes(cfg, f) == Some([])
  {
    hide Be, EncMethod, EncClass;
    BigEndian(f.channel);
    BigEndian(0);
    if f.Method? {
      DigitsAreBigEndian(f.id);
    } else if f.Header? {
      BigEndian(f.classId);
      BigEndian(f.bodySize);
      DigitsAreBigEndian(f.bodySize);
      DigitsAreBigEndian(f.bodySize / 0x1_0000_0000);
      assert HeaderPrefix(f.classId, f.bodySize)
          == Digits2(f.classId) + [0, 0] + Digits4(f.bodySize / 0x1_0000_0000) + Digits4(f.bodySize);
    }
    var payload := PayloadBytes(cfg, f);
    if payload.Some? {
      DigitsAreBigEndian(|payload.value|);
      assert Framed(KindOfFrame(f), f.channel, payload.value)
          == [KindOfFrame(f)] + Digits2(f.channel) + Digits4(|payload.value|) + payload.value + [206];
    }
  }

  lemma DigitsAreBigEndian(n: nat)
    ensures Be(4, n) == Digits4(n)
  {
    hide Be;
    BigEndian(n);
  }

  /** connection.tune as a broker sends it: a method frame. */
  lemma TuneFrame(cfg: Config)
    requires cfg.schema(0x000A_001E) == Some(TUNE) && 20 <= cfg.frameMax
    ensures var s := [1, 0, 0, 0, 0, 0, 12, 0, 10, 0, 30, 7, 255, 0, 2, 0, 0, 0, 60, 206];
            var f := Method(0, 0x000A_001E, [Uint(2047), Uint(131072), Uint(60)]);
            ParseFrame(cfg, s) == Parsed(Some(f), 20) && FrameBytes(cfg, f) == Some(s)
  {
    hide ParseFrame, ParsePayload, FrameBytes, EncMethod, DecMethod, PayloadBytes, Digits2, Digits4;
    var args: Bytes := [7, 255, 0, 2, 0, 0, 0, 60];
    var payload: Bytes := [0, 10, 0, 30] + args;
    var s: Bytes := [1, 0, 0] + [0, 0, 0, 12] + payload + [206];
    TuneOctets(Blank(TUNE));
    FrameIsFound(cfg, s);
    FramePayload([1, 0, 0], [0, 0, 0, 12], payload);
    MethodIsRead(cfg, 0, payload);
    FrameIsWritten(cfg, Method(0, 0x000A_001E, [Uint(2047), Uint(131072), Uint(60)]));
    TuneDigits();
  }

  lemma TuneDigits()
    ensures Digits2(0) == [0, 0] && Digits4(12) == [0, 0, 0, 12] && Digits4(0x000A_001E) == [0, 10, 0, 30]
    ensures [1] + Digits2(0) == [1, 0, 0]
    ensures [1, 0, 0] + [0, 0, 0, 12] + ([0, 10, 0, 30] + [7, 255, 0, 2, 0, 0, 0, 60]) + [206]
            == [1, 0, 0, 0, 0, 0, 12, 0, 10, 0, 30, 7, 255, 0, 2, 0, 0, 0, 60, 206]
  {
  }

  lemma FramePayload(head: Bytes, size: Bytes, payload: Bytes)
    requires |head| == 3 && |size| == 4
    ensures var s := head + size + payload + [206];
            && s[0] == head[0] && Two(s, 1) == Two(head, 1) && Four(s, 3) == Four(size, 0)
            && s[7..7 + |payload|] == payload && s[7 + |payload|] == 206
  {
  }

  /** The header of that persistent message, whose body has five octets, on channel 1; its weight is 0. */
  lemma HeaderFrame(cfg: Config)
    requires 25 <= cfg.frameMax
    ensures var s := [2, 0, 1, 0, 0, 0, 17, 0, 60, 0, 0, 0, 0, 0, 0, 0, 0, 0, 5, 144, 0, 1, 97, 2, 206];
            var f := Header(1, 60, 5, PropertyList(0x9000, Blank(BASIC_PROPERTIES)[0 := Str([97])][3 := Uint(2)]));
            ParseFrame(cfg, s) == Parsed(Some(f), 25) && FrameBytes(cfg, f) == Some(s)
  {
    hide ParseFrame, ParsePayload, FrameBytes, EncClass, DecClass, PayloadBytes, Digits2, Digits4;
    var f := Header(1, 60, 5, PropertyList(0x9000, Blank(BASIC_PROPERTIES)[0 := Str([97])][3 := Uint(2)]));
    var prefix: Bytes := [0, 60, 0, 0] + [0, 0, 0, 0] + [0, 0, 0, 5];
    var octets: Bytes := [144, 0, 1, 97, 2];
    var payload := prefix + octets;
    var s: Bytes := [2, 0, 1] + [0, 0, 0, 17] + payload + [206];
    BasicOctets();
    FrameIsFound(cfg, s);
    FramePayload([2, 0, 1], [0, 0, 0, 17], payload);
    assert payload[12..] == octets;
    HeaderIsRead(cfg, 1, payload);
    FrameIsWritten(cfg, f);
    HeaderDigits();
  }

  lemma HeaderDigits()
    ensures [2] + Digits2(1) == [2, 0, 1] && Digits4(17) == [0, 0, 0, 17]
    ensures Digits2(60) + [0, 0] == [0, 60, 0, 0]
    ensures Digits4(5 / 0x1_0000_0000) == [0, 0, 0, 0] && Digits4(5) == [0, 0, 0, 5]
    ensures var payload := [0, 60, 0, 0] + [0, 0, 0, 0] + [0, 0, 0, 5] + [144, 0, 1, 97, 2];
            && Two(payload, 0) == 60 && Eight(payload, 4) == 5
            && [2, 0, 1] + [0, 0, 0, 17] + payload + [206]
               == [2, 0, 1, 0, 0, 0, 17, 0, 60, 0, 0, 0, 0, 0, 0, 0, 0, 0, 5, 144, 0, 1, 97, 2, 206]
  {
  }

  /** A body fragment of two octets on channel 258. */
  lemma BodyFrame(cfg: Config)
    requires 10 <= cfg.frameMax
    ensures var s, f := [3, 1, 2, 0, 0, 0, 2, 104, 105, 206], Body(258, [104, 105]);
            ParseFrame(cfg, s) == Parsed(Some(f), 10) && FrameBytes(cfg, f) == Some(s)
  {
    hide ParseFrame, ParsePayload, FrameBytes, PayloadBytes;
    var s: Bytes := [3, 1, 2, 0, 0, 0, 2, 104, 105, 206];
    FrameIsFound(cfg, s);
    assert s[7..9] == [104, 105];
    PayloadIsRead(cfg, 3, 258, [104, 105]);
    FrameIsWritten(cfg, Body(258, [104, 105]));
    assert [3] + Digits2(258) + Digits4(2) + [104, 105] + [206] == s;
  }

  /** A heartbeat; a frame of a type that does not exist; a frame that does not end as it should. */
  lemma HeartbeatFrame(cfg: Config)
    requires 8 <= cfg.frameMax
    ensures var s := [8, 0, 0, 0, 0, 0, 0, 206];
            ParseFrame(cfg, s) == Parsed(Some(Heartbeat(0)), 8) && FrameBytes(cfg, Heartbeat(0)) == Some(s)
    ensures ParseFrame(cfg, [4, 0, 0, 0, 0, 0, 0, 206]) == Parsed(None, 8)
    ensures ParseFrame(cfg, [8, 0, 0, 0, 0, 0, 0, 205]) == Failed(BadAmqpData)
    ensures ParseFrame(cfg, [8, 0, 0, 127, 255, 255, 255]) == Failed(BadAmqpData)
  {
    hide ParseFrame, ParsePayload, FrameBytes, PayloadBytes;
    FrameIsFound(cfg, [8, 0, 0, 0, 0, 0, 0, 206]);
    FrameIsFound(cfg, [4, 0, 0, 0, 0, 0, 0, 206]);
    FrameIsFound(cfg, [8, 0, 0, 0, 0, 0, 0, 205]);
    FrameIsFound(cfg, [8, 0, 0, 127, 255, 255, 255]);
    PayloadIsRead(cfg, 8, 0, []);
    PayloadIsRead(cfg, 4, 0, []);
    var s, payload: Bytes := [8, 0, 0, 0, 0, 0, 0, 206], [];
    var unknown: Bytes := [4, 0, 0, 0, 0, 0, 0, 206];
    assert s[7..7] == payload && unknown[7..7] == payload;
    FrameIsWritten(cfg, Heartbeat(0));
    assert [8] + Digits2(0) + Digits4(0) + payload + [206] == s;
  }

  /** The protocol header of another version, with which a server refuses a connection. */
  lemma ProtocolHeaderIsRead(cfg: Config, rest: Bytes)
    ensures ParseFirst(cfg, [65, 77, 81, 80, 0, 0, 9, 1] + rest) == Parsed(Some(ProtocolHeader(0, [0, 0, 9, 1])), 8)
  {
    var s := [65, 77, 81, 80, 0, 0, 9, 1] + rest;
    assert s[..4] == [65, 77, 81, 80] && s[4..8] == [0, 0, 9, 1];
  }
}
