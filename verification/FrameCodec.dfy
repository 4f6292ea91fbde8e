/** Frames as octets: `amqp_frame_to_bytes`, and that the parser reads back what it writes. */
module FrameCodec {
  import opened Wire
  import opened Codegen
  import opened Properties
  import opened Frames

  function KindOfFrame(f: Frame): byte {
    match f
    case Method(_, _, _) => FRAME_METHOD
    case Header(_, _, _, _) => FRAME_HEADER
    case Body(_, _) => FRAME_BODY
    case Heartbeat(_) => FRAME_HEARTBEAT
    case ProtocolHeader(_, _) => 65
  }

  /** The fixed-size part in front of a header payload: class, weight (always 0) and body size. */
  function HeaderPrefix(classId: nat, bodySize: nat): (s: Bytes)
    ensures |s| == 12
  {
    Be(2, classId) + (Be(2, 0) + Be(8, bodySize))
  }

  /** The payload of a frame; `None` when its encoder reports an error. */
  function PayloadBytes(cfg: Config, f: Frame): Option<Bytes> {
    match f
    case Method(_, id, args) =>
      (match cfg.schema(id)
       case None => None
       case Some(types) => Then(Be(4, id), EncMethod(types, args)))
    case Header(_, classId, bodySize, properties) =>
      Then(HeaderPrefix(classId, bodySize), EncClass(classId, properties))
    case Body(_, fragment) => Some(fragment)
    case Heartbeat(_) => Some([])
    case ProtocolHeader(_, _) => None
  }

  /** Type, channel, size, payload, end marker. */
  function Framed(kind: byte, channel: nat, payload: Bytes): (s: Bytes)
    ensures |s| == |payload| + HEADER_SIZE + FOOTER_SIZE
  {
    ([kind] + Be(2, channel)) + (Be(4, |payload|) + (payload + [FRAME_END]))
  }

  function FrameBytes(cfg: Config, f: Frame): Option<Bytes> {
    var payload := PayloadBytes(cfg, f);
    if payload.None? then None else Some(Framed(KindOfFrame(f), f.channel, payload.value))
  }

  //////////////////////////////////////////////////////////////////////////////
  // Parsing undoes framing
  //////////////////////////////////////////////////////////////////////////////

  /** What the C types of the frame guarantee, and what the encoders of its payload accept. */
  ghost predicate SendableFrame(cfg: Config, f: Frame) {
    f.channel < 0x1_0000
    && match f
       case Method(_, id, args) =>
         && id < UINT32_MODULUS && cfg.schema(id).Some? && HasTypes(cfg.schema(id).value, args)
         && AllEncodable(cfg.schema(id).value, args) && AllPortable(args)
       case Header(_, classId, bodySize, properties) =>
         && classId < 0x1_0000 && bodySize < 0x1_0000_0000_0000_0000
         && ClassProperties(classId).Some? && Sendable(ClassProperties(classId).value, properties)
       case Body(_, _) => true
       case Heartbeat(_) => true
       case ProtocolHeader(_, _) => false
  }

  /** A frame as the other side decodes it: properties without a flag have no value. */
  function Decoding(f: Frame): Frame {
    if f.Header? && ClassProperties(f.classId).Some?
       && |ClassProperties(f.classId).value| == |f.properties.members| then
      f.(properties := Received(f.properties, Blank(ClassProperties(f.classId).value)))
    else f
  }

  lemma SendableHasBytes(cfg: Config, f: Frame)
    requires SendableFrame(cfg, f)
    ensures FrameBytes(cfg, f).Some?
  {
    match f
    case Method(_, id, args) =>
      EncoderAccepts(cfg.schema(id).value, args, 0, 0, 0);
    case Header(_, classId, _, properties) =>
      ClassEncodes(ClassProperties(classId).value, properties, 0);
    case _ =>
  }

  lemma {:induction false} ClassEncodes(types: seq<FieldType>, p: PropertyList, k: nat)
    requires WellFormedClass(types) && Sendable(types, p) && k <= |types|
    ensures EncMembers(types, p, k).Some?
    decreases |types| - k
  {
    hide Flagged, FieldBytes, HasType, Encodable;
    if k < |types| {
      ClassEncodes(types, p, k + 1);
      if Flagged(p.flags, k) {
        assert SendableMember(types[k], p.members[k]) && types[k] in types;
        FieldAccepts(types[k], p.members[k]);
      }
    }
  }

  lemma AtWhole(s: Bytes)
    ensures At(s, 0, s)
  {
    assert s[0..|s|] == s;
  }

  lemma MethodPayload(cfg: Config, f: Frame, payload: Bytes)
    requires f.Method? && SendableFrame(cfg, f) && PayloadBytes(cfg, f) == Some(payload)
    requires |payload| < UINT32_MODULUS
    ensures ParsePayload(cfg, FRAME_METHOD, f.channel, payload) == Parsed(Some(f), |payload| + 8)
  {
    hide EncMethod, DecMethod, HasTypes, AllEncodable, AllPortable, Be, Unbe, At;
    var types := cfg.schema(f.id).value;
    var enc := EncMethod(types, f.args).value;
    assert payload[..4] == Be(4, f.id) && payload[4..] == enc;
    Pow256Values();
    UnbeBe(4, f.id);
    AtWhole(enc);
    assert |types| == |f.args| by {
      HasTypesLength(types, f.args);
    }
    MethodRoundTrip(types, f.args, enc, 0, Blank(types));
  }

  lemma HasTypesLength(types: seq<FieldType>, m: seq<Field>)
    requires HasTypes(types, m)
    ensures |types| == |m|
  {
  }

  lemma HeaderPayload(cfg: Config, f: Frame, payload: Bytes)
    requires f.Header? && SendableFrame(cfg, f) && PayloadBytes(cfg, f) == Some(payload)
    requires |payload| < UINT32_MODULUS
    ensures ParsePayload(cfg, FRAME_HEADER, f.channel, payload) == Parsed(Some(Decoding(f)), |payload| + 8)
  {
    hide EncProperties, DecProperties, DecMembers, DecFlags, Sendable, Received, Be, Unbe, At;
    var types := ClassProperties(f.classId).value;
    var enc := EncProperties(types, f.properties).value;
    var prefix := HeaderPrefix(f.classId, f.bodySize);
    assert payload[..2] == prefix[..2] == Be(2, f.classId);
    assert payload[4..12] == prefix[4..12] == Be(8, f.bodySize);
    assert payload[12..] == enc;
    Pow256Values();
    UnbeBe(2, f.classId);
    UnbeBe(8, f.bodySize);
    AtWhole(enc);
    SendableLength(types, f.properties);
    PropertiesRoundTrip(types, f.properties, enc, 0, Blank(types));
    DecClassIs(f.classId, types, enc);
  }

  lemma SendableLength(types: seq<FieldType>, p: PropertyList)
    requires Sendable(types, p)
    ensures |types| == |p.members|
  {
  }

  lemma DecClassIs(classId: nat, types: seq<FieldType>, b: Bytes)
    requires ClassProperties(classId) == Some(types)
    requires DecProperties(types, b, 0, Blank(types)).Got?
    ensures DecClass(classId, b) == (Ok, DecProperties(types, b, 0, Blank(types)).value)
  {
  }

  lemma FramedParts(kind: byte, channel: nat, payload: Bytes, rest: Bytes)
    ensures var s := Framed(kind, channel, payload) + rest;
            && |s| >= HEADER_SIZE && s[0] == kind && s[1..3] == Be(2, channel) && s[3..7] == Be(4, |payload|)
            && s[7..7 + |payload|] == payload && s[7 + |payload|] == FRAME_END
            && s[8 + |payload|..] == rest
  {
    hide Be;
  }

  /** Every frame that can be sent is parsed back, whatever follows it in the stream. */
  lemma FrameRoundTrip(cfg: Config, f: Frame, rest: Bytes)
    requires SendableFrame(cfg, f)
    requires FrameBytes(cfg, f).Some? ==> |FrameBytes(cfg, f).value| <= cfg.frameMax <= INT32_MAX
    ensures FrameBytes(cfg, f).Some?
    ensures var enc := FrameBytes(cfg, f).value;
            ParseFrame(cfg, enc + rest) == Parsed(Some(Decoding(f)), |enc|) && (enc + rest)[|enc|..] == rest
  {
    hide ParsePayload, ParseFrame, SendableFrame, PayloadBytes, Framed, Be, Unbe;
    SendableHasBytes(cfg, f);
    SendableChannel(cfg, f);
    var payload := PayloadBytes(cfg, f).value;
    var s := Framed(KindOfFrame(f), f.channel, payload) + rest;
    FramedParts(KindOfFrame(f), f.channel, payload, rest);
    ParseFramed(cfg, s, KindOfFrame(f), f.channel, payload);
    PayloadRoundTrip(cfg, f, payload);
  }

  lemma ParseFramed(cfg: Config, s: Bytes, kind: byte, channel: nat, payload: Bytes)
    requires |payload| + 8 <= |s| && |payload| + 8 <= cfg.frameMax <= INT32_MAX && channel < 0x1_0000
    requires s[0] == kind && s[1..3] == Be(2, channel) && s[3..7] == Be(4, |payload|)
    requires s[7..7 + |payload|] == payload && s[7 + |payload|] == FRAME_END
    ensures ParseFrame(cfg, s) == ParsePayload(cfg, kind, channel, payload)
  {
    hide ParsePayload, Be, Unbe;
    Pow256Values();
    UnbeBe(2, channel);
    UnbeBe(4, |payload|);
  }

  lemma SendableChannel(cfg: Config, f: Frame)
    requires SendableFrame(cfg, f)
    ensures f.channel < 0x1_0000 && !f.ProtocolHeader?
  {
  }

  lemma PayloadRoundTrip(cfg: Config, f: Frame, payload: Bytes)
    requires SendableFrame(cfg, f) && PayloadBytes(cfg, f) == Some(payload) && |payload| < UINT32_MODULUS
    ensures ParsePayload(cfg, KindOfFrame(f), f.channel, payload) == Parsed(Some(Decoding(f)), |payload| + 8)
  {
    match f
    case Method(_, _, _) => MethodPayload(cfg, f, payload);
    case Header(_, _, _, _) => HeaderPayload(cfg, f, payload);
    case Body(_, _) =>
    case Heartbeat(_) =>
  }

  //////////////////////////////////////////////////////////////////////////////
  // The first frame of a connection
  //////////////////////////////////////////////////////////////////////////////

  /** What the parser sees of a payload while it is in its initial state. */
  function FirstOctetCleared(payload: Bytes): (r: Bytes)
    ensures |r| == |payload|
  {
    if payload == [] then [] else payload[0 := 0]
  }

  /** In its initial state the parser reads a frame as if the first octet of its payload were 0, and
      does not find the end marker of a frame without payload. */
  lemma FirstFrameIsParsed(cfg: Config, kind: byte, channel: nat, payload: Bytes, rest: Bytes)
    requires |payload| + 8 <= cfg.frameMax <= INT32_MAX && channel < 0x1_0000 && kind != AMQP[0]
    ensures ParseFirst(cfg, Framed(kind, channel, payload) + rest)
            == if payload == [] then Failed(BadAmqpData)
               else ParsePayload(cfg, kind, channel, FirstOctetCleared(payload))
  {
    hide ParsePayload, ParseFrame, Framed, Be, Unbe;
    var s := Framed(kind, channel, payload) + rest;
    FramedParts(kind, channel, payload, rest);
    assert s[..4][0] == kind;
    if payload == [] {
      EmptyFirstFrame(cfg, channel, Kept(s));
    } else {
      var k := Kept(s);
      assert k[1..3] == s[1..3] && k[3..7] == s[3..7];
      assert k[7..7 + |payload|] == s[7..7 + |payload|][0 := 0];
      ParseFramed(cfg, k, kind, channel, FirstOctetCleared(payload));
    }
  }

  lemma EmptyFirstFrame(cfg: Config, channel: nat, s: Bytes)
    requires |s| >= 8 && s[3..7] == Be(4, 0) && s[7] != FRAME_END && 8 <= cfg.frameMax <= INT32_MAX
    ensures ParseFrame(cfg, s) == Failed(BadAmqpData)
  {
    hide Be, Unbe;
    Pow256Values();
    UnbeBe(4, 0);
  }

  /** The first frame of a connection is parsed as what was sent exactly when its first payload octet
      is 0, as it is in connection.start. */
  lemma FirstFrameIntactIff(cfg: Config, f: Frame, rest: Bytes)
    requires SendableFrame(cfg, f)
    requires FrameBytes(cfg, f).Some? ==> |FrameBytes(cfg, f).value| <= cfg.frameMax <= INT32_MAX
    ensures FrameBytes(cfg, f).Some? && |FrameBytes(cfg, f).value| >= 8
    ensures var enc := FrameBytes(cfg, f).value;
            ParseFirst(cfg, enc + rest) == Parsed(Some(Decoding(f)), |enc|) <==> enc[7] == 0
  {
    hide ParseFirst, ParsePayload, SendableFrame, PayloadBytes, Framed, Decoding;
    SendableHasBytes(cfg, f);
    SendableChannel(cfg, f);
    var payload := PayloadBytes(cfg, f).value;
    var enc := FrameBytes(cfg, f).value;
    FramedParts(KindOfFrame(f), f.channel, payload, []);
    assert enc + [] == enc;
    FirstFrameIsParsed(cfg, KindOfFrame(f), f.channel, payload, rest);
    if payload != [] {
      assert enc[7] == enc[7..7 + |payload|][0] == payload[0];
      if payload[0] == 0 {
        assert FirstOctetCleared(payload) == payload;
        PayloadRoundTrip(cfg, f, payload);
      } else {
        ClearedPayloadDiffers(cfg, f, payload);
      }
    }
  }

  /** Clearing the first octet of a payload, when it is not 0, makes another frame of it, or none. */
  lemma ClearedPayloadDiffers(cfg: Config, f: Frame, payload: Bytes)
    requires SendableFrame(cfg, f) && PayloadBytes(cfg, f) == Some(payload) && payload != [] && payload[0] != 0
    ensures ParsePayload(cfg, KindOfFrame(f), f.channel, FirstOctetCleared(payload))
            != Parsed(Some(Decoding(f)), |payload| + 8)
  {
    hide DecArguments, DecClass, EncMethod, EncClass, Sendable, Unbe, Be;
    var cleared := FirstOctetCleared(payload);
    match f
    case Method(_, id, _) =>
      Pow256Values();
      assert payload[..4] == Be(4, id) && cleared[..4][0] != payload[..4][0];
      BeUnbe(cleared[..4]);
    case Header(_, _, _, _) =>
      HeaderBeginsWithZero(cfg, f, payload);
    case Body(_, _) =>
    case Heartbeat(_) =>
  }

  lemma HeaderBeginsWithZero(cfg: Config, f: Frame, payload: Bytes)
    requires f.Header? && SendableFrame(cfg, f) && PayloadBytes(cfg, f) == Some(payload)
    ensures |payload| >= 12 && payload[0] == 0
  {
    hide EncClass, Sendable;
    assert Be(1, f.classId / 0x100) == [0];
  }

  /** A first frame that is misread: a body of one octet arrives as a body of one octet that is 0. */
  lemma FirstFrameMisread(cfg: Config)
    requires 9 <= cfg.frameMax <= INT32_MAX
    ensures var s: Bytes := [FRAME_BODY, 0, 0, 0, 0, 0, 1, 9, FRAME_END];
            && ParseFrame(cfg, s) == Parsed(Some(Body(0, [9])), 9)
            && ParseFirst(cfg, s) == Parsed(Some(Body(0, [0])), 9)
  {
    var f: Bytes := [9];
    assert Be(2, 0) == [0, 0] by { assert Be(1, 0) == [0]; }
    assert Be(3, 0) == [0, 0, 0];
    assert Be(4, 1) == [0, 0, 0, 1];
    var s: Bytes := [FRAME_BODY, 0, 0, 0, 0, 0, 1, 9, FRAME_END];
    assert Framed(FRAME_BODY, 0, f) + [] == s;
    FirstFrameIsParsed(cfg, FRAME_BODY, 0, f, []);
    assert f[0 := 0] == [0];
    FramedParts(FRAME_BODY, 0, f, []);
    ParseFramed(cfg, s, FRAME_BODY, 0, f);
  }

  //////////////////////////////////////////////////////////////////////////////
  // Streams of sent frames
  //////////////////////////////////////////////////////////////////////////////

  /** The octets of several frames. */
  function StreamBytes(cfg: Config, frames: seq<Frame>): Bytes {
    if frames == [] then []
    else OrElse(FrameBytes(cfg, frames[0])) + StreamBytes(cfg, frames[1..])
  }

  ghost predicate Fits(cfg: Config, f: Frame) {
    SendableFrame(cfg, f) && FrameBytes(cfg, f).Some? && |FrameBytes(cfg, f).value| <= cfg.frameMax
  }

  function Decodings(frames: seq<Frame>): (r: seq<Frame>)
    ensures |r| == |frames|
  {
    if frames == [] then [] else [Decoding(frames[0])] + Decodings(frames[1..])
  }

  /** A stream of sent frames is parsed back frame by frame. */
  lemma {:induction false} StreamRoundTrip(cfg: Config, frames: seq<Frame>, rest: Bytes)
    requires cfg.frameMax <= INT32_MAX && forall k | 0 <= k < |frames| :: Fits(cfg, frames[k])
    ensures ParseStream(cfg, StreamBytes(cfg, frames) + rest) == Before(Decodings(frames), ParseStream(cfg, rest))
  {
    hide ParseFrame, FrameBytes, Decoding, SendableFrame;
    if frames == [] {
      assert [] + rest == rest;
      BeforeBefore([], [], ParseStream(cfg, rest));
    } else {
      var f, others := frames[0], frames[1..];
      assert Fits(cfg, f);
      var enc, tail := FrameBytes(cfg, f).value, StreamBytes(cfg, others) + rest;
      assert StreamBytes(cfg, frames) + rest == enc + tail;
      FrameRoundTrip(cfg, f, tail);
      StreamRoundTrip(cfg, others, rest);
      BeforeBefore([Decoding(f)], Decodings(others), ParseStream(cfg, rest));
    }
  }
}
