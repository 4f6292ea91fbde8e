/** Frames on the wire: section 4.2.3 of the AMQP 0-9-1 specification, as `amqp_handle_input` reads
    them and `amqp_frame_to_bytes` writes them. */
module Frames {
  import opened Wire
  import opened Codegen
  import opened Properties

  const HEADER_SIZE: nat := 7
  const FOOTER_SIZE: nat := 1
  const FRAME_METHOD: byte := 1
  const FRAME_HEADER: byte := 2
  const FRAME_BODY: byte := 3
  const FRAME_HEARTBEAT: byte := 8
  const FRAME_END: byte := 206
  const INT32_MAX: nat := 0x7FFF_FFFF

  /** A decoded frame; the payload of a method is its id and its arguments. */
  datatype Frame =
    | Method(channel: nat, id: nat, args: seq<Field>)
    | Header(channel: nat, classId: nat, bodySize: nat, properties: PropertyList)
    | Body(channel: nat, fragment: Bytes)
    | Heartbeat(channel: nat)
    | ProtocolHeader(channel: nat, version: Bytes)

  /** The argument types of a method id: the cases of `amqp_decode_method`. */
  type Schema = nat -> Option<seq<FieldType>>

  /** What the parser depends on: the negotiated frame size and the known methods. */
  datatype Config = Config(frameMax: nat, schema: Schema)

  /** The state of a parse of octets that start at a frame boundary: more is needed, the connection is
      broken, `size` octets make a frame (`None` when it is of a type to be ignored), or the payload is
      too short to hold what its frame type requires. */
  datatype Parse =
    | Incomplete
    | Failed(status: Status)
    | Parsed(frame: Option<Frame>, size: nat)
    | Underrun

  function SizeField(s: Bytes): nat
    requires |s| >= HEADER_SIZE
  {
    Unbe(s[3..7])
  }

  /** The header announces a frame that may be received. */
  predicate SizeAllowed(cfg: Config, s: Bytes)
    requires |s| >= HEADER_SIZE
  {
    SizeField(s) < INT32_MAX && SizeField(s) + HEADER_SIZE + FOOTER_SIZE <= cfg.frameMax
  }

  /** The parse of the first frame of `s`, all of `s` being at hand. */
  function ParseFrame(cfg: Config, s: Bytes): (r: Parse)
    ensures r.Parsed? ==> HEADER_SIZE < r.size <= |s|
    ensures r.Underrun? ==> HEADER_SIZE <= |s|
    ensures r.Failed? ==> !r.status.Ok?
  {
    if |s| < HEADER_SIZE then Incomplete
    else if !SizeAllowed(cfg, s) then Failed(BadAmqpData)
    else
      var target := SizeField(s) + HEADER_SIZE + FOOTER_SIZE;
      if |s| < target then Incomplete
      else if s[target - 1] != FRAME_END then Failed(BadAmqpData)
      else ParsePayload(cfg, s[0], Unbe(s[1..3]), s[HEADER_SIZE..target - 1])
  }

  /** The payload of a complete frame. */
  function ParsePayload(cfg: Config, kind: byte, channel: nat, payload: Bytes): (r: Parse)
    ensures r.Parsed? ==> r.size == |payload| + HEADER_SIZE + FOOTER_SIZE
    ensures r.Failed? ==> !r.status.Ok?
    ensures !r.Incomplete?
  {
    var size := |payload| + HEADER_SIZE + FOOTER_SIZE;
    if kind == FRAME_METHOD then
      if |payload| < 4 then Underrun
      else
        var id := Unbe(payload[..4]);
        var (status, args) := DecArguments(cfg, id, payload[4..]);
        if status.Ok? then Parsed(Some(Method(channel, id, args)), size) else Failed(status)
    else if kind == FRAME_HEADER then
      if |payload| < 12 then Underrun
      else
        var classId := Unbe(payload[..2]);
        var (status, properties) := DecClass(classId, payload[12..]);
        if status.Ok? then Parsed(Some(Header(channel, classId, Unbe(payload[4..12]), properties)), size)
        else Failed(status)
    else if kind == FRAME_BODY then Parsed(Some(Body(channel, payload)), size)
    else if kind == FRAME_HEARTBEAT then Parsed(Some(Heartbeat(channel)), size)
    else Parsed(None, size)
  }

  /** `amqp_decode_method`. */
  function DecArguments(cfg: Config, id: nat, b: Bytes): (r: (Status, seq<Field>))
    ensures r.0 in {Ok, BadAmqpData, UnknownMethod}
  {
    match cfg.schema(id)
    case None => (UnknownMethod, [])
    case Some(types) =>
      match DecMethod(types, b, 0, Blank(types))
      case Bad => (BadAmqpData, [])
      case Got(args, _) => (Ok, args)
  }

  //////////////////////////////////////////////////////////////////////////////
  // Streams of frames
  //////////////////////////////////////////////////////////////////////////////

  /** How a stream ends: inside a frame of which `rest` has arrived, with an error, or with a payload
      that is too short. */
  datatype End = Partial(rest: Bytes) | Broken(status: Status) | TooShort

  /** The frames of a stream, in order, and how it ends. */
  datatype Stream = Stream(frames: seq<Frame>, end: End)

  function Shown(frame: Option<Frame>): seq<Frame> {
    if frame.Some? then [frame.value] else []
  }

  function Before(frames: seq<Frame>, s: Stream): Stream {
    Stream(frames + s.frames, s.end)
  }

  /** The one-shot parse of a whole stream. */
  function ParseStream(cfg: Config, s: Bytes): Stream
    decreases |s|
  {
    match ParseFrame(cfg, s)
    case Incomplete => Stream([], Partial(s))
    case Failed(status) => Stream([], Broken(status))
    case Underrun => Stream([], TooShort)
    case Parsed(frame, size) => Before(Shown(frame), ParseStream(cfg, s[size..]))
  }

  /** More input changes nothing about a frame that is complete, or broken, already. */
  lemma ParseFrameStable(cfg: Config, s: Bytes, t: Bytes)
    requires !ParseFrame(cfg, s).Incomplete?
    ensures ParseFrame(cfg, s + t) == ParseFrame(cfg, s)
  {
    hide ParsePayload, Unbe;
    assert (s + t)[3..7] == s[3..7] && (s + t)[1..3] == s[1..3];
    if SizeAllowed(cfg, s) {
      var target := SizeField(s) + HEADER_SIZE + FOOTER_SIZE;
      assert (s + t)[HEADER_SIZE..target - 1] == s[HEADER_SIZE..target - 1];
    }
  }

  lemma BeforeBefore(a: seq<Frame>, b: seq<Frame>, s: Stream)
    ensures Before(a, Before(b, s)) == Before(a + b, s)
    ensures Before([], s) == s
  {
    assert a + (b + s.frames) == (a + b) + s.frames;
    assert [] + s.frames == s.frames;
  }

  /** A parsed stream after `t` has arrived as well. */
  function Continued(cfg: Config, s: Stream, t: Bytes): Stream {
    if s.end.Partial? then Before(s.frames, ParseStream(cfg, s.end.rest + t)) else s
  }

  /** Parsing can stop where a stream is cut and go on from the unfinished frame. */
  lemma {:induction false} ParseStreamAppend(cfg: Config, s: Bytes, t: Bytes)
    ensures ParseStream(cfg, s + t)
            == Continued(cfg, ParseStream(cfg, s), t)
    decreases |s|
  {
    var first := ParseFrame(cfg, s);
    if first.Incomplete? {
      BeforeBefore([], [], ParseStream(cfg, s + t));
    } else {
      ParseFrameStable(cfg, s, t);
      if first.Parsed? {
        var rest := s[first.size..];
        assert (s + t)[first.size..] == rest + t;
        ParseStreamAppend(cfg, rest, t);
        var tail := ParseStream(cfg, rest);
        if tail.end.Partial? {
          BeforeBefore(Shown(first.frame), tail.frames, ParseStream(cfg, tail.end.rest + t));
        }
      }
    }
  }

  /** What is left of a stream is an unfinished frame. */
  lemma {:induction false} PartialIsIncomplete(cfg: Config, s: Bytes)
    requires ParseStream(cfg, s).end.Partial?
    ensures ParseFrame(cfg, ParseStream(cfg, s).end.rest).Incomplete?
    decreases |s|
  {
    var first := ParseFrame(cfg, s);
    if first.Parsed? {
      PartialIsIncomplete(cfg, s[first.size..]);
    }
  }

  //////////////////////////////////////////////////////////////////////////////
  // Payloads that are too short
  //////////////////////////////////////////////////////////////////////////////

  /** The octets a payload has to have for the library to read it: a method id, or the fixed part of a
      header. */
  function LeastPayload(kind: byte): nat {
    if kind == FRAME_METHOD then 4 else if kind == FRAME_HEADER then 12 else 0
  }

  /** The frames that the model excludes, because the library lets a length wrap around there. */
  lemma UnderrunIff(cfg: Config, s: Bytes)
    ensures ParseFrame(cfg, s).Underrun?
            <==> && |s| >= HEADER_SIZE && SizeAllowed(cfg, s) && |s| >= SizeField(s) + HEADER_SIZE + FOOTER_SIZE
                 && s[SizeField(s) + HEADER_SIZE] == FRAME_END && SizeField(s) < LeastPayload(s[0])
  {
    hide Unbe, DecArguments, DecClass;
  }

  /** Where the frame begins whose payload is too short. */
  function ShortAt(cfg: Config, s: Bytes): (n: nat)
    requires ParseStream(cfg, s).end.TooShort?
    ensures n <= |s|
    decreases |s|
  {
    var first := ParseFrame(cfg, s);
    if first.Underrun? then 0 else first.size + ShortAt(cfg, s[first.size..])
  }

  lemma {:induction false} ShortFrameIsThere(cfg: Config, s: Bytes)
    requires ParseStream(cfg, s).end.TooShort?
    ensures ParseFrame(cfg, s[ShortAt(cfg, s)..]).Underrun?
    decreases |s|
  {
    hide ParseFrame;
    var first := ParseFrame(cfg, s);
    if first.Underrun? {
      assert s[0..] == s;
    } else {
      var rest := s[first.size..];
      ShortFrameIsThere(cfg, rest);
      assert rest[ShortAt(cfg, rest)..] == s[first.size + ShortAt(cfg, rest)..];
    }
  }

  /** Up to the last octet of that frame the stream is one without it: all frames in front of it, and an
      unfinished one. */
  lemma {:induction false} ShortFrameIsAtTheEnd(cfg: Config, s: Bytes, m: nat)
    requires ParseStream(cfg, s).end.TooShort? && ParseFrame(cfg, s[ShortAt(cfg, s)..]).Underrun?
    requires var n := ShortAt(cfg, s); n <= m < n + SizeField(s[n..]) + HEADER_SIZE + FOOTER_SIZE && m <= |s|
    ensures ParseStream(cfg, s[..m]) == Stream(ParseStream(cfg, s).frames, Partial(s[ShortAt(cfg, s)..m]))
    decreases |s|
  {
    hide ParseFrame, SizeField;
    var first := ParseFrame(cfg, s);
    if first.Underrun? {
      assert s[0..] == s && s[..m] == s[0..m];
      CutFrameIsIncomplete(cfg, s, m);
    } else {
      var rest, n := s[first.size..], ShortAt(cfg, s[first.size..]);
      assert rest[n..] == s[first.size + n..];
      ShortFrameIsAtTheEnd(cfg, rest, m - first.size);
      FrameInPrefix(cfg, s, m);
      assert s[..m][first.size..] == rest[..m - first.size];
      assert rest[n..m - first.size] == s[first.size + n..m];
    }
  }

  lemma CutFrameIsIncomplete(cfg: Config, s: Bytes, m: nat)
    requires ParseFrame(cfg, s).Underrun? && m <= |s| && m < SizeField(s) + HEADER_SIZE + FOOTER_SIZE
    ensures ParseFrame(cfg, s[..m]).Incomplete?
  {
    hide ParsePayload, Unbe;
    if m >= HEADER_SIZE {
      assert s[..m][3..7] == s[3..7];
    }
  }

  /** A frame that lies within a prefix is parsed from it. */
  lemma FrameInPrefix(cfg: Config, s: Bytes, m: nat)
    requires ParseFrame(cfg, s).Parsed? && ParseFrame(cfg, s).size <= m <= |s|
    ensures ParseFrame(cfg, s[..m]) == ParseFrame(cfg, s)
  {
    hide ParsePayload, Unbe;
    var t := s[..m];
    assert t[3..7] == s[3..7] && t[1..3] == s[1..3];
    var target := SizeField(s) + HEADER_SIZE + FOOTER_SIZE;
    assert t[HEADER_SIZE..target - 1] == s[HEADER_SIZE..target - 1];
  }

  //////////////////////////////////////////////////////////////////////////////
  // The first octets of a connection
  //////////////////////////////////////////////////////////////////////////////

  /** "AMQP" */
  const AMQP: Bytes := [65, 77, 81, 80]

  /** The parse while the parser is still in its initial state, where it may see a protocol header. */
  function ParseFirst(cfg: Config, s: Bytes): (r: Parse)
    ensures r.Parsed? ==> HEADER_SIZE < r.size <= |s|
    ensures r.Failed? ==> !r.status.Ok?
  {
    if |s| < 8 then Incomplete
    else if s[..4] == AMQP then Parsed(Some(ProtocolHeader(0, s[4..8])), 8)
    else ParseFrame(cfg, Kept(s))
  }

  /** From the initial state eight octets are read before the frame buffer exists, and seven are
      copied into it. */
  function Kept(s: Bytes): (r: Bytes)
    requires |s| >= 8
    ensures |r| == |s|
  {
    s[7 := 0]
  }

  lemma ParseFirstStable(cfg: Config, s: Bytes, t: Bytes)
    requires !ParseFirst(cfg, s).Incomplete?
    ensures ParseFirst(cfg, s + t) == ParseFirst(cfg, s)
  {
    assert (s + t)[..4] == s[..4] && (s + t)[4..8] == s[4..8];
    if s[..4] != AMQP {
      assert Kept(s + t) == Kept(s) + t;
      ParseFrameStable(cfg, Kept(s), t);
    }
  }
}
