/** The incremental frame parser of `amqp_connection.c`: `consume_data`, `return_to_idle` and
    `amqp_handle_input`, filling a buffer in place from whatever chunks arrive. */
module FrameParser {
  import opened Wire
  import opened Frames

  datatype State = Initial | Idle | InHeader | InBody

  /** The return value of `amqp_handle_input`: octets consumed and the frame that is now complete, or
      an error. */
  datatype Outcome = Consumed(n: nat, frame: Option<Frame>) | Error(status: Status)

  /** What the parser has to say once `s` has arrived of the current frame. */
  function ParseInput(cfg: Config, initial: bool, s: Bytes): (r: Parse)
    ensures initial && !r.Incomplete? ==> |s| >= 8
    ensures r.Failed? ==> !r.status.Ok?
    ensures r.Parsed? ==> r.size <= |s|
  {
    if initial then ParseFirst(cfg, s) else ParseFrame(cfg, s)
  }

  /** What the parser keeps of `s`. */
  function KeptInput(initial: bool, s: Bytes): (r: Bytes)
    ensures |r| == |s|
  {
    if initial && |s| >= 8 then Kept(s) else s
  }

  /** How many octets of a frame have arrived in a state. */
  predicate StateFits(state: State, n: nat) {
    match state
    case Initial => n < 8
    case Idle => n == 0
    case InHeader => 0 < n < HEADER_SIZE
    case InBody => n >= HEADER_SIZE
  }

  class Parser {
    const cfg: Config
    var state: State
    const headerBuffer: array<byte>
    var inbound: array<byte>
    var inboundOffset: nat
    var targetSize: nat

    /** `amqp_new_connection`. */
    constructor (cfg: Config)
      ensures Valid() && fresh(headerBuffer) && fresh(inbound)
      ensures this.cfg == cfg && state == Initial && Received() == []
    {
      this.cfg := cfg;
      headerBuffer := new byte[8](_ => 0);
      inbound := headerBuffer;
      state, inboundOffset, targetSize := Initial, 0, 8;
    }

    /** The octets of the current frame that have arrived. */
    ghost function Received(): Bytes
      reads this, inbound
      requires inboundOffset <= inbound.Length
    {
      inbound[..inboundOffset]
    }

    /** Between calls a frame is never complete, and there is room for all of it. */
    ghost predicate Valid()
      reads this, inbound
    {
      && headerBuffer.Length == 8
      && inboundOffset < targetSize <= inbound.Length
      && match state
         case Initial => inbound == headerBuffer && targetSize == 8
         case Idle => inbound == headerBuffer && targetSize == HEADER_SIZE && inboundOffset == 0
         case InHeader => inbound == headerBuffer && targetSize == HEADER_SIZE && inboundOffset > 0
         case InBody =>
           && inbound != headerBuffer
           && inboundOffset >= HEADER_SIZE
           && SizeAllowed(cfg, Received())
           && targetSize == SizeField(Received()) + HEADER_SIZE + FOOTER_SIZE
    }

    /** How much of a frame has arrived in each state. */
    lemma StateOfReceived()
      requires Valid()
      ensures inboundOffset <= inbound.Length && StateFits(state, |Received()|)
    {
    }

    method ReturnToIdle()
      requires headerBuffer.Length == 8
      modifies this
      ensures Valid() && state == Idle && Received() == []
    {
      inbound := headerBuffer;
      inboundOffset := 0;
      targetSize := HEADER_SIZE;
      state := Idle;
    }

    /** `consume_data`: as much as is available and fits. */
    method ConsumeData(data: Bytes) returns (n: nat)
      requires inboundOffset <= targetSize <= inbound.Length
      modifies this`inboundOffset, inbound
      ensures n == Min(targetSize - old(inboundOffset), |data|)
      ensures inboundOffset == old(inboundOffset) + n
      ensures Received() == old(Received()) + data[..n]
    {
      n := Min(targetSize - inboundOffset, |data|);
      ghost var before := inbound[..];
      CopyIn(inbound, inboundOffset, data[..n]);
      assert inbound[..inboundOffset + n] == before[..inboundOffset] + data[..n];
      inboundOffset := inboundOffset + n;
    }

    /** The case for a complete body: the footer, then the payload. */
    method FinishFrame(n: nat) returns (r: Outcome)
      requires headerBuffer.Length == 8 && HEADER_SIZE < inboundOffset == targetSize <= inbound.Length
      requires SizeAllowed(cfg, Received()) && targetSize == SizeField(Received()) + HEADER_SIZE + FOOTER_SIZE
      requires !ParseFrame(cfg, Received()).Underrun?
      modifies this
      ensures inbound == old(inbound) || inbound == headerBuffer
      ensures match ParseFrame(cfg, old(Received()))
              case Incomplete => false
              case Underrun => false
              case Failed(status) => r == Error(status)
              case Parsed(frame, size) =>
                size == old(inboundOffset) && r == Consumed(n, frame) && Valid() && state == Idle && Received() == []
    {
      hide ParsePayload, SizeAllowed, SizeField;
      ghost var s := Received();
      if inbound[targetSize - 1] != FRAME_END {
        return Error(BadAmqpData);
      }
      var payload := inbound[HEADER_SIZE..targetSize - 1];
      assert payload == s[HEADER_SIZE..targetSize - 1] && inbound[1..3] == s[1..3];
      match ParsePayload(cfg, inbound[0], Unbe(inbound[1..3]), payload) {
        case Failed(status) =>
          return Error(status);
        case Parsed(frame, _) =>
          ReturnToIdle();
          return Consumed(n, frame);
      }
    }

    /** `amqp_pool_alloc_bytes` for the frame, and the header copied into it: of the octets that have
        arrived, the first seven. */
    method AllocateFrame(ghost s: Bytes)
      requires headerBuffer.Length == 8 && targetSize >= 8
      requires inboundOffset == HEADER_SIZE || (inboundOffset == 8 && |s| >= 8 && s[7] == 0)
      requires |s| >= HEADER_SIZE && headerBuffer[..HEADER_SIZE] == s[..HEADER_SIZE]
      modifies this`inbound, this`state
      ensures fresh(inbound) && inbound.Length == targetSize && state == InBody && Received() == s[..inboundOffset]
    {
      var buffer := new byte[targetSize](_ => 0);
      CopyIn(buffer, 0, headerBuffer[..HEADER_SIZE]);
      inbound := buffer;
      state := InBody;
      forall k | 0 <= k < inboundOffset ensures buffer[k] == s[k] {
        assert k < HEADER_SIZE ==> s[k] == s[..HEADER_SIZE][k];
        assert buffer[k] == buffer[..][k];
      }
    }

    /** The case for a complete header, `n` octets of `data` being consumed: the frame buffer is
        allocated, the header copied into it and the frame read on. */
    method BeginBody(data: Bytes, n: nat, ghost s: Bytes) returns (r: Outcome)
      requires headerBuffer.Length == 8 && inbound == headerBuffer && n <= |data|
      requires inboundOffset == HEADER_SIZE || (inboundOffset == 8 && |s| >= 8 && s[7] == 0)
      requires |s| >= HEADER_SIZE && inbound[..HEADER_SIZE] == s[..HEADER_SIZE] && s[inboundOffset..] == data[n..]
      requires !ParseFrame(cfg, s).Underrun?
      modifies this
      ensures inbound == old(inbound) || fresh(inbound)
      ensures match ParseFrame(cfg, s)
              case Incomplete => r == Consumed(|data|, None) && Valid() && state == InBody && Received() == s
              case Underrun => false
              case Failed(status) => r == Error(status)
              case Parsed(frame, size) =>
                && size >= old(inboundOffset)
                && r == Consumed(n + (size - old(inboundOffset)), frame)
                && Valid() && state == Idle && Received() == []
    {
      hide ParseFrame, SizeAllowed, Unbe;
      SizeIsRead(cfg, inbound[..], s);
      StillIncomplete(cfg, s);
      var frameSize := Unbe(inbound[3..7]);
      if frameSize >= INT32_MAX {
        return Error(BadAmqpData);
      }
      targetSize := frameSize + HEADER_SIZE + FOOTER_SIZE;
      if cfg.frameMax < targetSize {
        return Error(BadAmqpData);
      }
      AllocateFrame(s);
      var more := ConsumeData(data[n..]);
      assert Received() == s[..inboundOffset];
      SizeOfPrefix(cfg, s, inboundOffset);
      if inboundOffset < targetSize {
        return Consumed(n + more, None);
      }
      assert s[..inboundOffset] + s[inboundOffset..] == s;
      PrefixDecides(cfg, s, inboundOffset);
      r := FinishFrame(n + more);
    }

    /** The case for the first eight octets of a connection: a protocol header, or the header of a frame. */
    method BeginFirst(data: Bytes, n: nat, ghost s: Bytes) returns (r: Outcome)
      requires headerBuffer.Length == 8 && inbound == headerBuffer && n <= |data| && inboundOffset == 8
      requires |s| >= 8 && inbound[..8] == s[..8] && s[8..] == data[n..] && !ParseFirst(cfg, s).Underrun?
      modifies this
      ensures inbound == old(inbound) || fresh(inbound)
      ensures match ParseFirst(cfg, s)
              case Incomplete => r == Consumed(|data|, None) && Valid() && state == InBody && Received() == Kept(s)
              case Underrun => false
              case Failed(status) => r == Error(status)
              case Parsed(frame, size) =>
                size >= 8 && r == Consumed(n + (size - 8), frame) && Valid() && state == Idle && Received() == []
    {
      hide ParseFrame, Unbe, SizeField, SizeAllowed;
      assert inbound[..4] == inbound[..8][..4] == s[..4];
      assert inbound[4..8] == inbound[..8][4..8] == s[4..8];
      if inbound[..4] == AMQP {
        var version := inbound[4..8];
        ReturnToIdle();
        return Consumed(n, Some(ProtocolHeader(0, version)));
      }
      assert Kept(s)[8..] == s[8..];
      assert inbound[..HEADER_SIZE] == inbound[..8][..HEADER_SIZE] && Kept(s)[..HEADER_SIZE] == s[..8][..HEADER_SIZE];
      r := BeginBody(data, n, Kept(s));
    }

    /** `amqp_handle_input`. */
    method HandleInput(data: Bytes) returns (r: Outcome)
      requires Valid()
      requires !ParseInput(cfg, state == Initial, Received() + data).Underrun?
      modifies this, headerBuffer, inbound
      ensures inbound == old(inbound) || inbound == headerBuffer || fresh(inbound)
      ensures r.Consumed? ==> Valid() && r.n <= |data| && (data != [] ==> r.n > 0)
      ensures match ParseInput(cfg, old(state) == Initial, old(Received()) + data)
              case Incomplete =>
                && r == Consumed(|data|, None)
                && Received() == KeptInput(old(state) == Initial, old(Received()) + data)
                && (state == Initial <==> old(state) == Initial && |old(Received()) + data| < 8)
              case Parsed(frame, size) =>
                && size > |old(Received())|
                && r == Consumed(size - |old(Received())|, frame)
                && state == Idle && Received() == []
              case Failed(status) => r == Error(status)
              case Underrun => false
    {
      hide ParseFrame, Unbe, SizeField, SizeAllowed;
      ghost var s := Received() + data;
      StillIncomplete(cfg, s);
      if data == [] {
        StillIncomplete(cfg, Received());
        assert s == Received();
        return Consumed(0, None);
      }
      if state == Idle {
        state := InHeader;
      }
      var n := ConsumeData(data);
      assert Received() == s[..inboundOffset];
      assert s[inboundOffset..] == data[n..];
      if state == InBody {
        ghost var k := old(inboundOffset);
        assert s[..k] == old(Received());
        SizeOfPrefix(cfg, s, k);
      }
      if inboundOffset < targetSize {
        assert s[..inboundOffset] == s;
        return Consumed(n, None);
      }
      match state {
        case Initial =>
          assert inbound[..8] == s[..8];
          r := BeginFirst(data, n, s);
        case InHeader =>
          r := BeginBody(data, n, s);
        case InBody =>
          SizeOfPrefix(cfg, s, inboundOffset);
          PrefixDecides(cfg, s, inboundOffset);
          r := FinishFrame(n);
      }
    }

    /** The loop of `amqp_try_recv` and `wait_frame_inner` over the octets of the receive buffer. */
    method Drain(data: Bytes) returns (frames: seq<Frame>, status: Status)
      requires Valid()
      requires !ParseConnection(cfg, state == Initial, Received() + data).end.TooShort?
      modifies this, headerBuffer, inbound
      ensures inbound == old(inbound) || inbound == headerBuffer || fresh(inbound)
      ensures frames == ParseConnection(cfg, old(state) == Initial, old(Received()) + data).frames
      ensures match ParseConnection(cfg, old(state) == Initial, old(Received()) + data).end
              case Partial(rest) =>
                && status.Ok? && Valid() && Received() == rest
                && (state == Initial <==> old(state) == Initial && |old(Received()) + data| < 8)
              case Broken(error) => status == error && !status.Ok?
              case TooShort => false
    {
      hide ParseInput, ParseConnection, KeptInput;
      ghost var initial, all := state == Initial, Received() + data;
      var offset := 0;
      frames := [];
      assert data[0..] == data;
      BeforeBefore([], [], ParseConnection(cfg, initial, all));
      while offset < |data|
        invariant offset <= |data| && Valid()
        invariant inbound == old(inbound) || inbound == headerBuffer || fresh(inbound)
        invariant ParseConnection(cfg, initial, all)
               == Before(frames, ParseConnection(cfg, state == Initial, Received() + data[offset..]))
        invariant state == Initial ==> initial && |Received() + data[offset..]| == |all|
        invariant initial && state != Initial ==> |all| >= 8
      {
        ghost var first, s, before := state == Initial, Received() + data[offset..], frames;
        ConnectionStep(cfg, first, s);
        var r := HandleInput(data[offset..]);
        if r.Error? {
          return frames, r.status;
        }
        frames := frames + Shown(r.frame);
        offset := offset + r.n;
        BeforeBefore(before, Shown(r.frame), ParseConnection(cfg, state == Initial, Received() + data[offset..]));
        if ParseInput(cfg, first, s).Incomplete? {
          assert Received() + data[offset..] == Received();
        } else {
          assert Received() + data[offset..] == s[ParseInput(cfg, first, s).size..];
        }
      }
      NothingComplete();
      assert Received() + data[offset..] == Received();
      ConnectionStep(cfg, state == Initial, Received());
      return frames, Ok;
    }

    /** A whole connection, in whatever chunks it arrives: the frames and the first error are those of
        the one-shot parse of all octets. */
    method Feed(chunks: seq<Bytes>) returns (frames: seq<Frame>, status: Status)
      requires Valid()
      requires !ParseConnection(cfg, state == Initial, Received() + Flatten(chunks)).end.TooShort?
      modifies this, headerBuffer, inbound
      ensures frames == ParseConnection(cfg, old(state) == Initial, old(Received()) + Flatten(chunks)).frames
      ensures match ParseConnection(cfg, old(state) == Initial, old(Received()) + Flatten(chunks)).end
              case Partial(rest) => status.Ok? && Valid() && Received() == rest
              case Broken(error) => status == error
              case TooShort => false
    {
      hide ParseConnection, ParseInput, KeptInput;
      ghost var initial, all := state == Initial, Received() + Flatten(chunks);
      frames := [];
      BeforeBefore([], [], ParseConnection(cfg, initial, all));
      assert chunks[0..] == chunks;
      for i := 0 to |chunks|
        invariant Valid()
        invariant inbound == old(inbound) || inbound == headerBuffer || fresh(inbound)
        invariant ParseConnection(cfg, initial, all)
               == Before(frames, ParseConnection(cfg, state == Initial, Received() + Flatten(chunks[i..])))
      {
        ghost var now, s, t := state == Initial, Received() + chunks[i], Flatten(chunks[i + 1..]);
        assert Received() + Flatten(chunks[i..]) == s + t;
        ParseConnectionAppend(cfg, now, s, t);
        ghost var before := frames;
        var more: seq<Frame>;
        more, status := Drain(chunks[i]);
        frames := frames + more;
        if !status.Ok? {
          return;
        }
        BeforeBefore(before, more, ParseConnection(cfg, state == Initial, Received() + t));
      }
      assert Received() + Flatten([]) == Received();
      NothingComplete();
      ConnectionStep(cfg, state == Initial, Received());
      status := Ok;
    }

    lemma NothingComplete()
      requires Valid()
      ensures ParseInput(cfg, state == Initial, Received()).Incomplete?
      ensures KeptInput(state == Initial, Received()) == Received()
    {
      hide ParseFrame;
      StillIncomplete(cfg, Received());
    }
  }

  /** The one-shot parse of everything a connection receives. */
  ghost function ParseConnection(cfg: Config, initial: bool, s: Bytes): Stream {
    if !initial then ParseStream(cfg, s)
    else
      match ParseFirst(cfg, s)
      case Incomplete => Stream([], Partial(KeptInput(true, s)))
      case Failed(status) => Stream([], Broken(status))
      case Underrun => Stream([], TooShort)
      case Parsed(frame, size) => Before(Shown(frame), ParseStream(cfg, s[size..]))
  }

  /** The first step of the one-shot parse. */
  lemma ConnectionStep(cfg: Config, initial: bool, s: Bytes)
    ensures match ParseInput(cfg, initial, s)
            case Incomplete =>
              && ParseConnection(cfg, initial, s) == Stream([], Partial(KeptInput(initial, s)))
              && ParseConnection(cfg, initial && |s| < 8, KeptInput(initial, s)) == ParseConnection(cfg, initial, s)
            case Failed(status) => ParseConnection(cfg, initial, s) == Stream([], Broken(status))
            case Underrun => ParseConnection(cfg, initial, s) == Stream([], TooShort)
            case Parsed(frame, size) =>
              ParseConnection(cfg, initial, s) == Before(Shown(frame), ParseConnection(cfg, false, s[size..]))
  {
    hide ParseFrame;
  }

  /** A connection can be cut anywhere. */
  lemma ParseConnectionAppend(cfg: Config, initial: bool, s: Bytes, t: Bytes)
    ensures var head := ParseConnection(cfg, initial, s);
            ParseConnection(cfg, initial, s + t)
            == if head.end.Partial? then
                 Before(head.frames, ParseConnection(cfg, initial && |s| < 8, head.end.rest + t))
               else head
  {
    hide ParseFrame;
    var first := ParseInput(cfg, initial, s);
    if !initial {
      ParseStreamAppend(cfg, s, t);
    } else if first.Incomplete? {
      BeforeBefore([], [], ParseConnection(cfg, initial && |s| < 8, KeptInput(true, s) + t));
      if |s| >= 8 {
        KeptConnection(cfg, s, t);
      }
    } else {
      ParseFirstStable(cfg, s, t);
      if first.Parsed? {
        var rest := s[first.size..];
        assert (s + t)[first.size..] == rest + t;
        ParseStreamAppend(cfg, rest, t);
        var tail := ParseStream(cfg, rest);
        if tail.end.Partial? {
          BeforeBefore(Shown(first.frame), tail.frames, ParseStream(cfg, tail.end.rest + t));
        }
      }
    }
  }

  /** After eight octets that are no protocol header, a connection is parsed with the eighth as zero. */
  lemma KeptConnection(cfg: Config, s: Bytes, t: Bytes)
    requires |s| >= 8 && s[..4] != AMQP
    ensures ParseConnection(cfg, true, s + t) == ParseStream(cfg, Kept(s) + t)
  {
    hide ParseFrame;
    assert (s + t)[..4] == s[..4];
    assert Kept(s + t) == Kept(s) + t;
    var first := ParseFrame(cfg, Kept(s + t));
    if first.Parsed? {
      assert first.size >= 8;
      assert Kept(s + t)[first.size..] == (s + t)[first.size..];
    }
  }

  /** The size field of a header that has arrived in a buffer, and that it may be refused. */
  lemma SizeIsRead(cfg: Config, buffer: Bytes, s: Bytes)
    requires |buffer| >= HEADER_SIZE && |s| >= HEADER_SIZE && buffer[..HEADER_SIZE] == s[..HEADER_SIZE]
    ensures Unbe(buffer[3..7]) == SizeField(s)
    ensures SizeAllowed(cfg, s) <==> SizeField(s) < INT32_MAX && SizeField(s) + HEADER_SIZE + FOOTER_SIZE <= cfg.frameMax
    ensures !SizeAllowed(cfg, s) ==> ParseFrame(cfg, s) == Failed(BadAmqpData)
  {
    assert buffer[3..7] == buffer[..HEADER_SIZE][3..7] && s[3..7] == s[..HEADER_SIZE][3..7];
  }

  lemma StillIncomplete(cfg: Config, s: Bytes)
    ensures |s| < HEADER_SIZE ==> ParseFrame(cfg, s).Incomplete?
    ensures |s| >= HEADER_SIZE && SizeAllowed(cfg, s) && |s| < SizeField(s) + HEADER_SIZE + FOOTER_SIZE
            ==> ParseFrame(cfg, s).Incomplete?
  {
  }

  lemma SizeOfPrefix(cfg: Config, s: Bytes, n: nat)
    requires HEADER_SIZE <= n <= |s|
    ensures SizeField(s[..n]) == SizeField(s) && SizeAllowed(cfg, s[..n]) == SizeAllowed(cfg, s)
  {
    assert s[..n][3..7] == s[3..7];
  }

  /** A complete frame is parsed without what follows it. */
  lemma PrefixDecides(cfg: Config, s: Bytes, n: nat)
    requires HEADER_SIZE < n <= |s| && SizeAllowed(cfg, s) && n == SizeField(s) + HEADER_SIZE + FOOTER_SIZE
    ensures ParseFrame(cfg, s[..n]) == ParseFrame(cfg, s)
  {
    hide ParsePayload;
    SizeOfPrefix(cfg, s, n);
    assert s[..n] + s[n..] == s;
    ParseFrameStable(cfg, s[..n], s[n..]);
  }

  function Min(a: nat, b: nat): nat {
    if a <= b then a else b
  }
}
