/** Sending: `amqp_frame_to_bytes`, `amqp_try_send`, `amqp_send_frame_inner` and
    `amqp_basic_publish`. */
module Outbound {
  import opened Wire
  import opened Codegen
  import opened Properties
  import opened Frames
  import opened FrameCodec
  import opened Framing

  //////////////////////////////////////////////////////////////////////////////
  // The socket
  //////////////////////////////////////////////////////////////////////////////

  /** One attempt to send: the socket takes `extra` octets more than one, as far as there are any, or
      it takes none and polling it succeeds, times out or fails. */
  datatype Attempt = Takes(extra: nat) | Ready | TimedOut | Fails(status: Status)

  /** Why a send timed out: the deadline of the caller, or that of the heartbeat, upon which the
      library tries to receive with this result. */
  datatype Interruption = AtDeadline | AtHeartbeat(received: Status)

  /** A connected socket: what it has accepted, and how it will behave. */
  class Socket {
    var accepted: Bytes
    var attempts: seq<Attempt>
    var interruptions: seq<Interruption>

    constructor (attempts: seq<Attempt>, interruptions: seq<Interruption>)
      requires forall a | a in attempts :: a.Fails? ==> !a.status.Ok?
      ensures accepted == [] && Valid()
    {
      this.accepted, this.attempts, this.interruptions := [], attempts, interruptions;
    }

    ghost predicate Valid()
      reads this
    {
      forall a | a in attempts :: a.Fails? ==> !a.status.Ok?
    }

    /** `amqp_socket_send` followed, when it takes nothing, by `do_poll`. */
    method Attempt(data: Bytes) returns (a: Attempt, n: nat)
      requires Valid() && data != []
      modifies this`accepted, this`attempts
      ensures Valid() && n <= |data| && accepted == old(accepted) + data[..n]
      ensures n == if !a.Takes? then 0 else if a.extra < |data| then a.extra + 1 else |data|
      ensures a.Fails? ==> !a.status.Ok?
      ensures old(attempts) == [] ==> a == Fails(SocketError) && attempts == []
      ensures old(attempts) != [] ==> a == old(attempts)[0] && attempts == old(attempts)[1..]
    {
      n := 0;
      assert data[..0] == [];
      if attempts == [] {
        return Fails(SocketError), 0;
      }
      a := attempts[0];
      attempts := attempts[1..];
      if a.Takes? {
        n := if a.extra < |data| then a.extra + 1 else |data|;
        accepted := accepted + data[..n];
      }
    }
  }

  /** How often the socket will take something, and whether it does nothing else but ask for time. */
  function Takings(attempts: seq<Attempt>): nat {
    if attempts == [] then 0 else (if attempts[0].Takes? then 1 else 0) + Takings(attempts[1..])
  }

  predicate Works(attempts: seq<Attempt>) {
    forall a | a in attempts :: a.Takes? || a.Ready?
  }

  /** From `before` to `after` the socket has lost at most `n` of its takings, and works still. */
  ghost predicate KeepsWorking(before: seq<Attempt>, after: seq<Attempt>, n: nat) {
    Works(before) ==> Works(after) && Takings(after) + n >= Takings(before)
  }

  lemma NothingLost(attempts: seq<Attempt>)
    ensures KeepsWorking(attempts, attempts, 0)
  {
  }

  /** What trying to send `n` octets comes to: how many are taken, the error if there is one, and what the
      socket will do next. Without an error either all are taken or the time is up. */
  datatype Trial = Trial(taken: nat, failure: Option<Status>, left: seq<Attempt>)

  function Tried(attempts: seq<Attempt>, n: nat): (r: Trial)
    requires n > 0
    ensures r.taken <= n && |r.left| <= |attempts|
  {
    if attempts == [] then Trial(0, Some(SocketError), [])
    else
      match attempts[0]
      case Takes(extra) =>
        if n <= extra + 1 then Trial(n, None, attempts[1..])
        else
          var rest := Tried(attempts[1..], n - (extra + 1));
          rest.(taken := extra + 1 + rest.taken)
      case Ready => Tried(attempts[1..], n)
      case TimedOut => Trial(0, None, attempts[1..])
      case Fails(status) => Trial(0, Some(status), attempts[1..])
  }

  /** A socket that works takes everything, and works still; an error is an error. */
  lemma {:induction false} TriedKeepsWorking(attempts: seq<Attempt>, n: nat)
    requires n > 0 && forall a | a in attempts :: a.Fails? ==> !a.status.Ok?
    ensures var t := Tried(attempts, n);
            && KeepsWorking(attempts, t.left, t.taken) && (forall a | a in t.left :: a in attempts)
            && (t.failure.Some? ==> !t.failure.value.Ok? && t.taken < n)
            && (Works(attempts) && Takings(attempts) >= n ==> t.failure.None? && t.taken == n)
    decreases |attempts|
  {
    if attempts != [] {
      var a, others := attempts[0], attempts[1..];
      assert a in attempts && forall b | b in others :: b in attempts;
      if a.Ready? {
        TriedKeepsWorking(others, n);
      } else if a.Takes? && a.extra + 1 < n {
        TriedKeepsWorking(others, n - (a.extra + 1));
      }
    }
  }

  /** The result of `amqp_try_send`: how much was sent before the deadline, or an error. */
  datatype Sent = SentSome(n: nat) | SendError(status: Status)

  /** `amqp_try_send`: whatever the socket does, it has taken a prefix of `data`. */
  method TrySend(socket: Socket, data: Bytes) returns (r: Sent, ghost taken: nat)
    requires socket.Valid() && data != []
    modifies socket`accepted, socket`attempts
    ensures socket.Valid() && taken <= |data| && socket.accepted == old(socket.accepted) + data[..taken]
    ensures r.SentSome? ==> r.n == taken
    ensures r.SendError? ==> !r.status.Ok? && taken < |data|
    ensures KeepsWorking(old(socket.attempts), socket.attempts, taken)
    ensures Works(old(socket.attempts)) && Takings(old(socket.attempts)) >= |data| ==> r == SentSome(|data|)
    ensures var t := Tried(old(socket.attempts), |data|);
            && taken == t.taken && socket.attempts == t.left
            && r == if t.failure.Some? then SendError(t.failure.value) else SentSome(t.taken)
  {
    hide KeepsWorking, Works, Takings;
    TriedKeepsWorking(socket.attempts, |data|);
    var left := data;
    taken := 0;
    assert data[..0] == [] && data[0..] == data;
    while true
      invariant socket.Valid() && taken < |data| && left == data[taken..]
      invariant socket.accepted == old(socket.accepted) + data[..taken]
      invariant var rest := Tried(socket.attempts, |left|);
                Tried(old(socket.attempts), |data|) == rest.(taken := taken + rest.taken)
      decreases |socket.attempts|
    {
      var a, n := socket.Attempt(left);
      Further(data, taken, n);
      taken := taken + n;
      left := left[n..];
      match a {
        case Takes(_) =>
          if left == [] {
            return SentSome(|data|), taken;
          }
        case Ready =>
        case TimedOut =>
          return SentSome(|data| - |left|), taken;
        case Fails(status) =>
          return SendError(status), taken;
      }
    }
  }

  lemma Further(data: Bytes, taken: nat, n: nat)
    requires taken + n <= |data|
    ensures data[..taken] + data[taken..][..n] == data[..taken + n] && data[taken..][n..] == data[taken + n..]
  {
  }

  //////////////////////////////////////////////////////////////////////////////
  // One frame
  //////////////////////////////////////////////////////////////////////////////

  /** The status of `amqp_frame_to_bytes`: that of the encoder of the payload. */
  function FrameStatus(cfg: Config, f: Frame): Status
    requires cfg.frameMax >= FOOTER_SIZE
  {
    match f
    case Method(_, id, args) =>
      (match cfg.schema(id)
       case None => UnknownMethod
       case Some(types) => MethodStatus(types, args, HEADER_SIZE + 4, cfg.frameMax - FOOTER_SIZE))
    case Header(_, classId, _, properties) =>
      ClassStatus(classId, properties, HEADER_SIZE + 12, cfg.frameMax - FOOTER_SIZE)
    case Body(_, _) => Ok
    case Heartbeat(_) => Ok
    case ProtocolHeader(_, _) => InvalidParameter
  }

  /** Why a frame is refused: an unknown method, an unknown class (once the flags have been written), a frame
      type that cannot be sent, or no room. */
  lemma FrameFailures(cfg: Config, channel: nat, id: nat, args: seq<Field>, size: nat, p: PropertyList, version: Bytes)
    requires cfg.frameMax >= 22
    ensures cfg.schema(id).None? ==> FrameStatus(cfg, Method(channel, id, args)) == UnknownMethod
    ensures p.flags == 0 ==> FrameStatus(cfg, Header(channel, 61, size, p)) == UnknownClass
    ensures p.flags == 0 && p.members == [] ==> FrameStatus(cfg, Header(channel, 10, size, p)) == Ok
    ensures FrameStatus(cfg.(frameMax := 21), Header(channel, 61, size, p)) == BadAmqpData
    ensures FrameStatus(cfg, ProtocolHeader(channel, version)) == InvalidParameter
  {
  }

  /** What sending comes to: how many octets are taken, the status, and what is left of the behaviour of the
      socket. */
  datatype Sending = Sending(taken: nat, status: Status, attempts: seq<Attempt>, interruptions: seq<Interruption>)

  /** `amqp_send_frame_inner` for a frame of `n` octets: when the time is up, it is that of the caller, or
      that of the heartbeat, upon which something has to be received before sending goes on. */
  function Sends(attempts: seq<Attempt>, interruptions: seq<Interruption>, n: nat): Sending
    requires n > 0
    decreases |interruptions|
  {
    var t := Tried(attempts, n);
    if t.failure.Some? then Sending(t.taken, t.failure.value, t.left, interruptions)
    else if t.taken == n then Sending(n, Ok, t.left, interruptions)
    else if interruptions == [] || interruptions[0].AtDeadline? then Sending(t.taken, Timeout, t.left, interruptions)
    else
      var received, others := interruptions[0].received, interruptions[1..];
      if received == Timeout then Sending(t.taken, HeartbeatTimeout, t.left, others)
      else if !received.Ok? then Sending(t.taken, received, t.left, others)
      else
        var rest := Sends(t.left, others, n - t.taken);
        rest.(taken := t.taken + rest.taken)
  }

  /** What sending one frame comes to, and several: the first failure ends it. */
  function SendsFrame(cfg: Config, f: Frame, attempts: seq<Attempt>, interruptions: seq<Interruption>): Sending
    requires cfg.frameMax >= FOOTER_SIZE
  {
    if Encoded(cfg, f) then Sends(attempts, interruptions, |FrameBytes(cfg, f).value|)
    else Sending(0, FrameStatus(cfg, f), attempts, interruptions)
  }

  function SendsFrames(cfg: Config, frames: seq<Frame>, attempts: seq<Attempt>, interruptions: seq<Interruption>): Sending
    requires cfg.frameMax >= FOOTER_SIZE
  {
    if frames == [] then Sending(0, Ok, attempts, interruptions)
    else
      var first := SendsFrame(cfg, frames[0], attempts, interruptions);
      if first.status.Ok? then
        var rest := SendsFrames(cfg, frames[1..], first.attempts, first.interruptions);
        rest.(taken := first.taken + rest.taken)
      else first
  }

  lemma SendsFirst(cfg: Config, f: Frame, rest: seq<Frame>, attempts: seq<Attempt>, interruptions: seq<Interruption>)
    requires cfg.frameMax >= FOOTER_SIZE
    ensures var first := SendsFrame(cfg, f, attempts, interruptions);
            SendsFrames(cfg, [f] + rest, attempts, interruptions)
            == if first.status.Ok? then
                 var others := SendsFrames(cfg, rest, first.attempts, first.interruptions);
                 others.(taken := first.taken + others.taken)
               else first
    ensures SendsFrames(cfg, [], attempts, interruptions) == Sending(0, Ok, attempts, interruptions)
  {
    assert ([f] + rest)[1..] == rest;
  }

  /** Some outcomes: everything taken in pieces, and why nothing more is. */
  lemma SendingSamples(status: Status)
    ensures Sends([Takes(1), Ready, Takes(9)], [], 5) == Sending(5, Ok, [], [])
    ensures Sends([TimedOut], [AtDeadline], 5) == Sending(0, Timeout, [], [AtDeadline])
    ensures Sends([TimedOut], [AtHeartbeat(Timeout)], 5) == Sending(0, HeartbeatTimeout, [], [])
    ensures status != Ok && status != Timeout ==> Sends([TimedOut], [AtHeartbeat(status)], 5) == Sending(0, status, [], [])
    ensures Sends([Takes(1), TimedOut, Takes(9)], [AtHeartbeat(Ok)], 5) == Sending(5, Ok, [], [])
    ensures Sends([Takes(1), Fails(status)], [], 5) == Sending(2, status, [], [])
  {
    assert [Takes(1), Ready, Takes(9)][1..] == [Ready, Takes(9)] && [Ready, Takes(9)][1..] == [Takes(9)];
    assert Tried([Takes(9)], 3) == Trial(3, None, []);
    assert Tried([Ready, Takes(9)], 3) == Trial(3, None, []);
    assert [Takes(1), TimedOut, Takes(9)][1..] == [TimedOut, Takes(9)] && [TimedOut, Takes(9)][1..] == [Takes(9)];
    assert Tried([Takes(1), TimedOut, Takes(9)], 5) == Trial(2, None, [Takes(9)]);
    assert Sends([Takes(9)], [], 3) == Sending(3, Ok, [], []);
    assert [AtHeartbeat(Ok)][1..] == [] && [AtHeartbeat(status)][1..] == [];
    assert Tried([TimedOut], 5) == Trial(0, None, []);
    assert [Takes(1), Fails(status)][1..] == [Fails(status)];
    assert Tried([Fails(status)], 3) == Trial(0, Some(status), []);
  }

  lemma {:induction false} SendsKeepsWorking(attempts: seq<Attempt>, interruptions: seq<Interruption>, n: nat)
    requires n > 0 && forall a | a in attempts :: a.Fails? ==> !a.status.Ok?
    ensures var r := Sends(attempts, interruptions, n);
            && r.taken <= n && (r.status.Ok? <==> r.taken == n) && KeepsWorking(attempts, r.attempts, r.taken)
            && (Works(attempts) && Takings(attempts) >= n ==> r.status.Ok?)
    decreases |interruptions|
  {
    hide Tried, Works, Takings;
    TriedKeepsWorking(attempts, n);
    var t := Tried(attempts, n);
    if t.failure.None? && t.taken < n && interruptions != [] && interruptions[0].AtHeartbeat?
       && interruptions[0].received.Ok? {
      SendsKeepsWorking(t.left, interruptions[1..], n - t.taken);
    }
  }

  class Sender {
    const cfg: Config
    const outboundBuffer: array<byte>
    const socket: Socket

    ghost predicate Valid()
      reads this, socket
    {
      outboundBuffer.Length == cfg.frameMax && 20 <= cfg.frameMax <= INT32_MAX && socket.Valid()
    }

    constructor (cfg: Config, socket: Socket, outboundBuffer: array<byte>)
      requires outboundBuffer.Length == cfg.frameMax && 20 <= cfg.frameMax <= INT32_MAX && socket.Valid()
      ensures Valid() && this.cfg == cfg && this.socket == socket && this.outboundBuffer == outboundBuffer
    {
      this.cfg, this.socket, this.outboundBuffer := cfg, socket, outboundBuffer;
    }

    /** The part of `amqp_frame_to_bytes` that depends on the frame type. */
    method EncodePayload(f: Frame) returns (status: Status, offset: nat)
      requires Valid() && TypedFrame(cfg, f)
      modifies outboundBuffer
      ensures Wrote(old(outboundBuffer[..]), outboundBuffer[..], cfg.frameMax - FOOTER_SIZE, HEADER_SIZE,
                    OrElse(PayloadBytes(cfg, f)), PayloadBytes(cfg, f).Some?, status, offset)
      ensures status == FrameStatus(cfg, f)
    {
      hide Wrote, Write, SameOutside, Be, HasTypes, Typeable;
      var limit := cfg.frameMax - FOOTER_SIZE;
      ghost var before := outboundBuffer[..];
      match f {
        case Body(_, fragment) =>
          CopyIn(outboundBuffer, HEADER_SIZE, fragment);
          WroteDone(before, limit, HEADER_SIZE, fragment);
          return Ok, HEADER_SIZE + |fragment|;
        case Method(_, id, args) =>
          CopyIn(outboundBuffer, HEADER_SIZE, Be(4, id));
          var types := cfg.schema(id);
          if types.None? {
            WroteNone(outboundBuffer[..], limit, HEADER_SIZE + 4, [], false, UnknownMethod, 0);
            WroteThen(before, limit, HEADER_SIZE, Be(4, id), outboundBuffer[..], [], false, UnknownMethod, 0);
            WroteUnencodable(before, outboundBuffer[..], limit, HEADER_SIZE, Be(4, id) + [], false, [], UnknownMethod, 0);
            return UnknownMethod, 0;
          }
          status, offset := EncodeMethod(outboundBuffer, limit, types.value, args, HEADER_SIZE + 4);
          FinishPayload(before, limit, Be(4, id), outboundBuffer[..], EncMethod(types.value, args), status, offset);
        case Header(_, classId, bodySize, properties) =>
          CopyIn(outboundBuffer, HEADER_SIZE, HeaderPrefix(classId, bodySize));
          status, offset := EncodeProperties(outboundBuffer, limit, classId, properties, HEADER_SIZE + 12);
          FinishPayload(before, limit, HeaderPrefix(classId, bodySize), outboundBuffer[..], EncClass(classId, properties),
                        status, offset);
        case Heartbeat(_) =>
          WroteDone(before, limit, HEADER_SIZE, []);
          WriteNothing(before, HEADER_SIZE);
          return Ok, HEADER_SIZE;
        case ProtocolHeader(_, _) =>
          WroteNone(before, limit, HEADER_SIZE, [], false, InvalidParameter, 0);
          return InvalidParameter, 0;
      }
    }

    /** `amqp_frame_to_bytes`: it succeeds exactly when the frame has an encoding that fits the buffer. */
    method FrameToBytes(f: Frame) returns (status: Status, len: nat)
      requires Valid() && TypedFrame(cfg, f)
      modifies outboundBuffer
      ensures status.Ok? <==> FrameBytes(cfg, f).Some? && |FrameBytes(cfg, f).value| <= cfg.frameMax
      ensures status.Ok? ==> len == |FrameBytes(cfg, f).value| && outboundBuffer[..len] == FrameBytes(cfg, f).value
      ensures status == FrameStatus(cfg, f)
    {
      hide Wrote, Write, SameOutside, Be, PayloadBytes, Framed, TypedFrame;
      ghost var before := outboundBuffer[..];
      var prefix := [KindOfFrame(f)] + Be(2, f.channel);
      CopyIn(outboundBuffer, 0, prefix);
      ghost var headed := outboundBuffer[..];
      var offset: nat;
      status, offset := EncodePayload(f);
      ghost var payload := OrElse(PayloadBytes(cfg, f));
      WroteStatus(headed, outboundBuffer[..], cfg.frameMax - FOOTER_SIZE, HEADER_SIZE, payload, PayloadBytes(cfg, f).Some?,
                  status, offset);
      if !status.Ok? {
        return status, 0;
      }
      WroteAll(headed, outboundBuffer[..], cfg.frameMax - FOOTER_SIZE, HEADER_SIZE, payload, true, status, offset);
      CopyIn(outboundBuffer, 3, Be(4, offset - HEADER_SIZE));
      outboundBuffer[offset] := FRAME_END;
      len := offset + FOOTER_SIZE;
      FrameAssembled(before, KindOfFrame(f), f.channel, payload, outboundBuffer[..]);
    }

    /** `amqp_send_frame_inner`: the socket takes a prefix of the frame, without gap or repeat however
        often it is interrupted, and all of it exactly when the result is `Ok`. */
    method SendFrame(f: Frame) returns (status: Status, ghost taken: nat)
      requires Valid() && TypedFrame(cfg, f)
      modifies outboundBuffer, socket
      ensures Valid() && taken <= |OrElse(FrameBytes(cfg, f))|
      ensures socket.accepted == old(socket.accepted) + OrElse(FrameBytes(cfg, f))[..taken]
      ensures status.Ok? <==> Encoded(cfg, f) && taken == |FrameBytes(cfg, f).value|
      ensures !Encoded(cfg, f) ==> taken == 0
      ensures KeepsWorking(old(socket.attempts), socket.attempts, taken)
      ensures Encoded(cfg, f) && Works(old(socket.attempts)) && Takings(old(socket.attempts)) >= |FrameBytes(cfg, f).value|
              ==> status.Ok?
      ensures Sending(taken, status, socket.attempts, socket.interruptions)
              == SendsFrame(cfg, f, old(socket.attempts), old(socket.interruptions))
    {
      hide FrameBytes, TypedFrame, FrameStatus, KeepsWorking, Works, Takings, Sends;
      ghost var enc := OrElse(FrameBytes(cfg, f));
      assert enc[..0] == [];
      var len: nat;
      status, len := FrameToBytes(f);
      taken := 0;
      if !status.Ok? {
        NothingLost(socket.attempts);
        return;
      }
      FramesAreNotEmpty(cfg, f);
      SendsKeepsWorking(socket.attempts, socket.interruptions, |enc|);
      status, taken := SendOctets(outboundBuffer[..len]);
    }

    /** The loop of `amqp_send_frame_inner`. */
    method SendOctets(octets: Bytes) returns (status: Status, ghost taken: nat)
      requires socket.Valid() && octets != []
      modifies socket
      ensures socket.Valid() && taken <= |octets| && socket.accepted == old(socket.accepted) + octets[..taken]
      ensures Sending(taken, status, socket.attempts, socket.interruptions)
              == Sends(old(socket.attempts), old(socket.interruptions), |octets|)
    {
      hide KeepsWorking, Works, Takings, Tried;
      var data := octets;
      taken := 0;
      while true
        invariant socket.Valid() && taken < |octets| && data == octets[taken..]
        invariant socket.accepted == old(socket.accepted) + octets[..taken]
        invariant var rest := Sends(socket.attempts, socket.interruptions, |data|);
                  Sends(old(socket.attempts), old(socket.interruptions), |octets|) == rest.(taken := taken + rest.taken)
        decreases |socket.interruptions|
      {
        var r; ghost var n;
        r, n := TrySend(socket, data);
        Further(octets, taken, n);
        taken := taken + n;
        match r {
          case SendError(error) =>
            return error, taken;
          case SentSome(sent) =>
            if sent == |data| {
              return Ok, taken;
            }
            if socket.interruptions == [] || socket.interruptions[0].AtDeadline? {
              return Timeout, taken;
            }
            var received := socket.interruptions[0].received;
            socket.interruptions := socket.interruptions[1..];
            if received == Timeout {
              return HeartbeatTimeout, taken;
            } else if !received.Ok? {
              return received, taken;
            }
            data := data[sent..];
        }
      }
    }

    method SendOne(f: Frame) returns (status: Status, ghost taken: nat)
      requires Valid() && TypedFrame(cfg, f)
      modifies outboundBuffer, socket
      ensures Valid()
      ensures Transmitted(cfg, [f], old(socket.accepted), socket.accepted, old(socket.attempts), socket.attempts, status,
                          taken)
      ensures Sending(taken, status, socket.attempts, socket.interruptions)
              == SendsFrame(cfg, f, old(socket.attempts), old(socket.interruptions))
    {
      hide SendsFrame, FrameBytes, TypedFrame, KeepsWorking, Works, Takings;
      status, taken := SendFrame(f);
      assert StreamBytes(cfg, [f]) == OrElse(FrameBytes(cfg, f)) + [];
      assert OrElse(FrameBytes(cfg, f)) + [] == OrElse(FrameBytes(cfg, f));
      assert f in [f];
      FitsAlone(cfg, f);
    }

    /** `amqp_basic_publish`: a method frame, a header frame and as many body frames as it takes. */
    method BasicPublish(channel: nat, args: seq<Field>, properties: PropertyList, body: Bytes)
      returns (status: Status, ghost taken: nat)
      requires Valid() && HasTypes(BASIC_PUBLISH, args) && Typeable(BASIC_PROPERTIES, properties)
      requires cfg.schema(BASIC_PUBLISH_METHOD) == Some(BASIC_PUBLISH)
      modifies outboundBuffer, socket
      ensures Valid()
      ensures Transmitted(cfg, PublishFrames(cfg, channel, args, properties, body), old(socket.accepted), socket.accepted,
                          old(socket.attempts), socket.attempts, status, taken)
      ensures Sending(taken, status, socket.attempts, socket.interruptions)
              == SendsFrames(cfg, PublishFrames(cfg, channel, args, properties, body), old(socket.attempts),
                             old(socket.interruptions))
    {
      hide SendsFrame, SendsFrames, Transmitted, TypedFrame, HasTypes, Typeable, BodyFrames;
      ghost var before, attempts := socket.accepted, socket.attempts;
      ghost var all := PublishFrames(cfg, channel, args, properties, body);
      var usable := cfg.frameMax - (HEADER_SIZE + FOOTER_SIZE);
      var publish := Method(channel, BASIC_PUBLISH_METHOD, args);
      TypedContent(cfg, publish, channel, properties, |body|);
      status, taken := SendOne(publish);
      ghost var sent: seq<Frame> := [publish];
      ghost var rest := ContentFrames(cfg, channel, properties, body);
      SendsFirst(cfg, publish, rest, attempts, old(socket.interruptions));
      if !status.Ok? {
        TransmittedPart(cfg, sent, rest, before, socket.accepted, attempts, socket.attempts, status, taken);
        return;
      }
      var frame := Header(channel, BASIC_CLASS, |body|, properties);
      var offset := 0;
      assert rest == [frame] + BodyFrames(channel, body, usable) && body[0..] == body;
      var more := true;
      while more
        invariant Valid() && offset <= |body| && (more ==> TypedFrame(cfg, frame))
        invariant Transmitted(cfg, sent, before, socket.accepted, attempts, socket.attempts, Ok, taken)
        invariant rest == if more then [frame] + BodyFrames(channel, body[offset..], usable) else []
        invariant all == sent + rest
        invariant var others := SendsFrames(cfg, rest, socket.attempts, socket.interruptions);
                  SendsFrames(cfg, all, attempts, old(socket.interruptions)) == others.(taken := taken + others.taken)
        decreases |body| - offset, more
      {
        ghost var between, middle, n := socket.accepted, socket.attempts, 0;
        SendsFirst(cfg, frame, BodyFrames(channel, body[offset..], usable), middle, socket.interruptions);
        status, n := SendOne(frame);
        TransmittedBoth(cfg, sent, [frame], before, between, socket.accepted, attempts, middle, socket.attempts, status,
                        taken, n);
        sent, taken := sent + [frame], taken + n;
        rest := BodyFrames(channel, body[offset..], usable);
        assert all == sent + rest;
        NoFragment(channel, body, usable);
        if !status.Ok? {
          TransmittedPart(cfg, sent, rest, before, socket.accepted, attempts, socket.attempts, status, taken);
          return;
        }
        more := offset < |body|;
        if more {
          var len := if |body| - offset >= usable then usable else |body| - offset;
          frame := Body(channel, body[offset..offset + len]);
          NextFragment(channel, body, offset, usable);
          offset := offset + len;
          TypedBody(cfg, frame);
        }
      }
      assert sent + [] == sent;
      SendsFirst(cfg, publish, [], socket.attempts, socket.interruptions);
      status := Ok;
    }
  }

  lemma TypedContent(cfg: Config, publish: Frame, channel: nat, properties: PropertyList, size: nat)
    requires publish.Method? && publish.id == BASIC_PUBLISH_METHOD && HasTypes(BASIC_PUBLISH, publish.args)
    requires cfg.schema(BASIC_PUBLISH_METHOD) == Some(BASIC_PUBLISH) && Typeable(BASIC_PROPERTIES, properties)
    ensures TypedFrame(cfg, publish) && TypedFrame(cfg, Header(channel, BASIC_CLASS, size, properties))
  {
  }

  lemma TypedBody(cfg: Config, f: Frame)
    requires f.Body? && |f.fragment| + 8 <= cfg.frameMax
    ensures TypedFrame(cfg, f)
  {
  }

  lemma NoFragment(channel: nat, body: Bytes, usable: nat)
    requires usable > 0
    ensures BodyFrames(channel, body[|body|..], usable) == []
  {
  }

  lemma NextFragment(channel: nat, body: Bytes, offset: nat, usable: nat)
    requires usable > 0 && offset < |body|
    ensures var len := if |body| - offset >= usable then usable else |body| - offset;
            BodyFrames(channel, body[offset..], usable)
            == [Body(channel, body[offset..offset + len])] + BodyFrames(channel, body[offset + len..], usable)
  {
    var len := if |body| - offset >= usable then usable else |body| - offset;
    var rest := body[offset..];
    assert rest[..len] == body[offset..offset + len] && rest[len..] == body[offset + len..];
    if |rest| < usable {
      assert rest[..len] == rest && rest[len..] == [];
    }
  }

  predicate AllEncoded(cfg: Config, frames: seq<Frame>) {
    forall f | f in frames :: Encoded(cfg, f)
  }

  /** The outcome of sending `frames`: a prefix of their octets was accepted, all of them exactly when
      the result is `Ok`, and none of a frame that does not fit or of what follows it; a socket that
      works and takes enough never keeps the result from being `Ok`. */
  ghost predicate Transmitted(cfg: Config, frames: seq<Frame>, before: Bytes, after: Bytes, attempts: seq<Attempt>,
                              attemptsLeft: seq<Attempt>, status: Status, taken: nat)
  {
    var stream := StreamBytes(cfg, frames);
    && taken <= |stream| && after == before + stream[..taken]
    && (status.Ok? <==> taken == |stream| && AllEncoded(cfg, frames))
    && KeepsWorking(attempts, attemptsLeft, taken)
    && (AllEncoded(cfg, frames) && Works(attempts) && Takings(attempts) >= |stream| ==> status.Ok?)
    && taken <= |StreamBytes(cfg, FittingPrefix(cfg, frames))|
  }

  /** The frames up to the first one that has no encoding or does not fit the frame size; nothing of
      what follows is sent. */
  function FittingPrefix(cfg: Config, frames: seq<Frame>): (r: seq<Frame>)
    ensures forall f | f in r :: Encoded(cfg, f)
  {
    if frames == [] || !Encoded(cfg, frames[0]) then [] else [frames[0]] + FittingPrefix(cfg, frames[1..])
  }

  /** The fitting prefix of `a + b` is that of `a`, and goes on into `b` when all of `a` fits. */
  lemma {:induction false} FittingAppend(cfg: Config, a: seq<Frame>, b: seq<Frame>)
    ensures FittingPrefix(cfg, a + b) == if AllEncoded(cfg, a) then a + FittingPrefix(cfg, b) else FittingPrefix(cfg, a)
  {
    hide Encoded;
    if a == [] {
      assert a + b == b;
    } else {
      assert (a + b)[1..] == a[1..] + b && (a + b)[0] == a[0];
      FittingAppend(cfg, a[1..], b);
      assert AllEncoded(cfg, a) <==> Encoded(cfg, a[0]) && AllEncoded(cfg, a[1..]);
      assert [a[0]] + (a[1..] + FittingPrefix(cfg, b)) == a + FittingPrefix(cfg, b);
    }
  }

  /** No fewer octets may be sent of `a + b` than of `a`. */
  lemma FittingGrows(cfg: Config, a: seq<Frame>, b: seq<Frame>)
    ensures |StreamBytes(cfg, FittingPrefix(cfg, a))| <= |StreamBytes(cfg, FittingPrefix(cfg, a + b))|
    ensures AllEncoded(cfg, a) ==>
              |StreamBytes(cfg, FittingPrefix(cfg, a + b))|
              == |StreamBytes(cfg, a)| + |StreamBytes(cfg, FittingPrefix(cfg, b))|
  {
    hide Encoded, StreamBytes, FittingPrefix, AllEncoded;
    FittingAppend(cfg, a, b);
    if AllEncoded(cfg, a) {
      FittingAppend(cfg, a, []);
      assert a + [] == a;
      NothingFits(cfg);
      assert a + FittingPrefix(cfg, []) == a;
      StreamBytesAppend(cfg, a, FittingPrefix(cfg, b));
    }
  }

  lemma FitsAlone(cfg: Config, f: Frame)
    ensures FittingPrefix(cfg, [f]) == if Encoded(cfg, f) then [f] else []
  {
    assert [f][1..] == [];
  }

  lemma NothingFits(cfg: Config)
    ensures FittingPrefix(cfg, []) == []
  {
  }

  lemma {:induction false} StreamBytesAppend(cfg: Config, a: seq<Frame>, b: seq<Frame>)
    ensures StreamBytes(cfg, a + b) == StreamBytes(cfg, a) + StreamBytes(cfg, b)
  {
    if a == [] {
      assert a + b == b;
    } else {
      assert (a + b)[1..] == a[1..] + b;
      StreamBytesAppend(cfg, a[1..], b);
    }
  }

  lemma AllEncodedAppend(cfg: Config, a: seq<Frame>, b: seq<Frame>)
    ensures AllEncoded(cfg, a + b) <==> AllEncoded(cfg, a) && AllEncoded(cfg, b)
  {
    assert forall f :: f in a + b <==> f in a || f in b;
  }

  lemma TransmittedPart(cfg: Config, a: seq<Frame>, b: seq<Frame>, before: Bytes, after: Bytes,
                        attempts: seq<Attempt>, left: seq<Attempt>, status: Status, taken: nat)
    requires Transmitted(cfg, a, before, after, attempts, left, status, taken) && !status.Ok?
    ensures Transmitted(cfg, a + b, before, after, attempts, left, status, taken)
  {
    hide Encoded, AllEncoded, StreamBytes, FittingPrefix, KeepsWorking, Works, Takings;
    StreamBytesAppend(cfg, a, b);
    AllEncodedAppend(cfg, a, b);
    FittingGrows(cfg, a, b);
    var s := StreamBytes(cfg, a);
    assert (s + StreamBytes(cfg, b))[..taken] == s[..taken];
  }

  lemma TransmittedBoth(cfg: Config, a: seq<Frame>, b: seq<Frame>, before: Bytes, between: Bytes, after: Bytes,
                        attempts: seq<Attempt>, middle: seq<Attempt>, left: seq<Attempt>, status: Status,
                        takenA: nat, takenB: nat)
    requires Transmitted(cfg, a, before, between, attempts, middle, Ok, takenA)
    requires Transmitted(cfg, b, between, after, middle, left, status, takenB)
    ensures Transmitted(cfg, a + b, before, after, attempts, left, status, takenA + takenB)
  {
    hide Encoded, AllEncoded, StreamBytes, FittingPrefix, Takings;
    StreamBytesAppend(cfg, a, b);
    AllEncodedAppend(cfg, a, b);
    FittingGrows(cfg, a, b);
    var s, t := StreamBytes(cfg, a), StreamBytes(cfg, b);
    assert (s + t)[..takenA + takenB] == s[..takenA] + t[..takenB];
  }

  /** The frame has an encoding and it fits the frame size. */
  predicate Encoded(cfg: Config, f: Frame) {
    FrameBytes(cfg, f).Some? && |FrameBytes(cfg, f).value| <= cfg.frameMax
  }

  lemma FramesAreNotEmpty(cfg: Config, f: Frame)
    ensures FrameBytes(cfg, f).Some? ==> |FrameBytes(cfg, f).value| >= 8
  {
  }

  /** The fragments of a body. */
  function BodyFrames(channel: nat, body: Bytes, usable: nat): (r: seq<Frame>)
    requires usable > 0
    ensures forall f | f in r :: f.Body? && f.channel == channel && 0 < |f.fragment| <= usable
  {
    if body == [] then []
    else if |body| >= usable then [Body(channel, body[..usable])] + BodyFrames(channel, body[usable..], usable)
    else [Body(channel, body)]
  }

  /** The content of a message: its header frame and its body frames. */
  function ContentFrames(cfg: Config, channel: nat, properties: PropertyList, body: Bytes): (r: seq<Frame>)
    requires cfg.frameMax > 8
    ensures r != []
  {
    [Header(channel, BASIC_CLASS, |body|, properties)] + BodyFrames(channel, body, cfg.frameMax - 8)
  }

  function PublishFrames(cfg: Config, channel: nat, args: seq<Field>, properties: PropertyList, body: Bytes): seq<Frame>
    requires cfg.frameMax > 8
  {
    [Method(channel, BASIC_PUBLISH_METHOD, args)] + ContentFrames(cfg, channel, properties, body)
  }

  lemma FinishPayload(before: Bytes, limit: nat, prefix: Bytes, after: Bytes, enc: Option<Bytes>, status: Status,
                      offset: nat)
    requires limit <= |before| && HEADER_SIZE + |prefix| <= limit
    requires Wrote(Write(before, HEADER_SIZE, prefix), after, limit, HEADER_SIZE + |prefix|, OrElse(enc), enc.Some?, status,
                   offset)
    ensures Wrote(before, after, limit, HEADER_SIZE, OrElse(Then(prefix, enc)), enc.Some?, status, offset)
  {
    WroteThen(before, limit, HEADER_SIZE, prefix, after, OrElse(enc), enc.Some?, status, offset);
    if enc.None? {
      WroteUnencodable(before, after, limit, HEADER_SIZE, prefix + [], false, [], status, offset);
    }
  }

  /** The pieces of a frame, written where they belong in any order, are the frame. */
  lemma FrameAssembled(before: Bytes, kind: byte, channel: nat, payload: Bytes, after: Bytes)
    requires |payload| + 8 <= |before|
    requires var s := Write(Write(Write(before, 0, [kind] + Be(2, channel)), HEADER_SIZE, payload), 3, Be(4, |payload|));
             after == s[HEADER_SIZE + |payload| := FRAME_END]
    ensures after[..|payload| + 8] == Framed(kind, channel, payload)
  {
    hide Be;
  }

  /** What the C types of a frame guarantee, and that a body fragment fits the buffer, which
      `amqp_frame_to_bytes` leaves to its callers. */
  predicate TypedFrame(cfg: Config, f: Frame) {
    match f
    case Method(_, id, args) => cfg.schema(id).Some? ==> HasTypes(cfg.schema(id).value, args)
    case Header(_, classId, _, properties) =>
      ClassProperties(classId).Some? ==> Typeable(ClassProperties(classId).value, properties)
    case Body(_, fragment) => |fragment| + HEADER_SIZE + FOOTER_SIZE <= cfg.frameMax
    case _ => true
  }
}
