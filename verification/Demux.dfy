/** Waiting for one frame among many: `amqp_simple_wait_frame`, `amqp_simple_wait_frame_on_channel` and
    `simple_rpc_inner`. */
module Demux {
  import opened Wire
  import opened Codegen
  import opened Frames
  import opened FrameCodec
  import opened FrameQueue
  import opened Framing
  import opened Outbound
  import opened Receiving

  /** The frame a wait yields, `None` when there is none to come, and what is left in the queue and on
      the wire. */
  datatype Taken = Taken(frame: Option<Frame>, queue: seq<Frame>, wire: seq<Frame>)

  /** `amqp_simple_wait_frame`: the queue first, then the wire. */
  function TakeAny(queue: seq<Frame>, wire: seq<Frame>): (t: Taken)
    ensures t.frame.Some? <==> queue + wire != []
    ensures queue + wire == (if t.frame.Some? then [t.frame.value] else []) + (t.queue + t.wire)
  {
    if queue != [] then
      assert queue == [queue[0]] + queue[1..];
      Taken(Some(queue[0]), queue[1..], wire)
    else if wire != [] then Taken(Some(wire[0]), [], wire[1..])
    else Taken(None, [], [])
  }

  /** `amqp_simple_wait_frame_on_channel`: the queue first, and with the frame goes what was queued
      ahead of it; then the wire, queueing what belongs to other channels. */
  function TakeNext(queue: seq<Frame>, wire: seq<Frame>, channel: nat): Taken {
    var k := FirstOn(queue, channel);
    if k < |queue| then Taken(Some(queue[k]), queue[k + 1..], wire)
    else
      var j := FirstOn(wire, channel);
      if j < |wire| then Taken(Some(wire[j]), queue + wire[..j], wire[j + 1..])
      else Taken(None, queue + wire, [])
  }

  /** The frames `simple_rpc_inner` does not put aside. */
  predicate IsReply(f: Frame, channel: nat, expected: seq<nat>): (b: bool)
    ensures b ==> f.Method?
  {
    f.Method? &&
    ((f.channel == channel && (f.id in expected || f.id == CHANNEL_CLOSE_METHOD))
     || (f.channel == 0 && f.id == CONNECTION_CLOSE_METHOD))
  }

  /** `amqp_rpc_reply_t`. */
  datatype Reply = Normal(frame: Frame) | ServerException(frame: Frame) | LibraryException(status: Status)

  /** The index of the first reply, or the number of frames. */
  function FirstReply(frames: seq<Frame>, channel: nat, expected: seq<nat>): (k: nat)
    ensures k <= |frames|
    ensures k < |frames| ==> IsReply(frames[k], channel, expected)
    ensures forall i | 0 <= i < k :: !IsReply(frames[i], channel, expected)
  {
    FirstWhere(frames, (f: Frame) => IsReply(f, channel, expected))
  }

  /** What `simple_rpc_inner` returns for a reply. */
  function ReplyOf(f: Frame, expected: seq<nat>): Reply
    requires f.Method?
  {
    if f.id in expected then Normal(f) else ServerException(f)
  }

  /** The outcome of reading frames until one is a reply. */
  ghost predicate Replied(queue: seq<Frame>, wire: seq<Frame>, channel: nat, expected: seq<nat>, end: Status, reply: Reply,
                          queueAfter: seq<Frame>)
  {
    var k := FirstReply(wire, channel, expected);
    && queueAfter == queue + wire[..k]
    && if k == |wire| then reply == LibraryException(end)
       else
         && (reply.Normal? <==> wire[k].id in expected) && (reply.ServerException? <==> wire[k].id !in expected)
         && reply.frame == wire[k]
  }

  /** A reply is a method of an expected id, or channel.close, on the channel, or connection.close on channel
      0; nothing else is. */
  lemma RepliesAre(channel: nat, id: nat, args: seq<Field>, at: nat, expected: seq<nat>, f: Frame)
    ensures IsReply(Method(at, id, args), channel, expected)
            <==> (at == channel && (id in expected || id == 0x0014_0028)) || (at == 0 && id == 0x000A_0032)
    ensures !f.Method? ==> !IsReply(f, channel, expected)
  {
  }

  /** queue.declare on channel 1: what is taken for its reply, and what is not. */
  lemma ReplySamples(args: seq<Field>)
    ensures var expected := [0x0032_000B];
            && IsReply(Method(1, 0x0032_000B, args), 1, expected) && !IsReply(Method(2, 0x0032_000B, args), 1, expected)
            && IsReply(Method(1, 0x0014_0028, args), 1, expected) && !IsReply(Method(2, 0x0014_0028, args), 1, expected)
            && IsReply(Method(0, 0x000A_0032, args), 1, expected) && !IsReply(Method(1, 0x000A_0032, args), 1, expected)
            && !IsReply(Method(1, 0x003C_003C, args), 1, expected) && !IsReply(Heartbeat(1), 1, expected)
            && ReplyOf(Method(1, 0x0032_000B, args), expected) == Normal(Method(1, 0x0032_000B, args))
            && ReplyOf(Method(1, 0x0014_0028, args), expected) == ServerException(Method(1, 0x0014_0028, args))
  {
  }

  lemma RepliedHere(queue: seq<Frame>, wire: seq<Frame>, channel: nat, expected: seq<nat>, j: nat, end: Status)
    requires j <= FirstReply(wire, channel, expected) && (j < |wire| ==> IsReply(wire[j], channel, expected))
    ensures Replied(queue, wire, channel, expected, end,
                    if j < |wire| then ReplyOf(wire[j], expected) else LibraryException(end), queue + wire[..j])
    ensures j < |wire| ==> !ReplyOf(wire[j], expected).LibraryException? && ReplyOf(wire[j], expected).frame == wire[j]
  {
    hide FirstReply, IsReply;
  }

  lemma AsideNone(q: seq<Frame>, w: seq<Frame>)
    ensures q + w[..0] == q && w[0..] == w
  {
  }

  lemma NothingGot(q: seq<Frame>, w: seq<Frame>)
    ensures q + [] == q && [] + w == w && WithoutHeartbeats([]) + w == w
  {
  }

  lemma GotMore(got: seq<Frame>, frame: Option<Frame>, q: seq<Frame>, wire: seq<Frame>)
    ensures WithoutHeartbeats(got) + (WithoutHeartbeats(Shown(frame)) + wire) == WithoutHeartbeats(got + Shown(frame)) + wire
    ensures q + (got + Shown(frame)) == (q + got) + Shown(frame)
    ensures frame.None? ==> got + Shown(frame) == got
  {
    hide WithoutHeartbeats;
    WithoutHeartbeatsAppend(got, Shown(frame));
  }

  lemma Regrouped(a: seq<Frame>, b: seq<Frame>, c: seq<Frame>)
    ensures a + (b + c) == (a + b) + c
  {
  }

  lemma AsideOne(q: seq<Frame>, w: seq<Frame>, j: nat)
    requires j < |w|
    ensures q + w[..j] + [w[j]] == q + w[..j + 1] && w[j..][0] == w[j] && w[j..][1..] == w[j + 1..]
  {
  }

  lemma AsideAll(q: seq<Frame>, w: seq<Frame>, j: nat)
    requires j < |w|
    ensures (q + w[..j]) + [w[j]] + w[j..][1..] == q + w
  {
  }

  /** The outcome of reading frames until one belongs to the channel. */
  ghost predicate Waited(queue: seq<Frame>, wire: seq<Frame>, channel: nat, end: Status, status: Status,
                         frame: Option<Frame>, queueAfter: seq<Frame>)
  {
    var k := FirstOn(wire, channel);
    && queueAfter == queue + wire[..k]
    && if k < |wire| then status.Ok? && frame == Some(wire[k]) else !status.Ok? && status == end && frame.None?
  }

  lemma WaitedHere(queue: seq<Frame>, wire: seq<Frame>, channel: nat, j: nat, end: Status, status: Status,
                   frame: Option<Frame>)
    requires j <= FirstOn(wire, channel)
    requires if j < |wire| then status.Ok? && frame == Some(wire[j]) && wire[j].channel == channel
             else !status.Ok? && status == end && frame.None?
    ensures Waited(queue, wire, channel, end, status, frame, queue + wire[..j])
    ensures j < |wire| ==> Behind(wire, channel) == wire[j + 1..]
  {
    hide FirstOn;
  }

  /** The frames behind the first one on the channel. */
  function Behind(frames: seq<Frame>, channel: nat): seq<Frame> {
    var k := FirstOn(frames, channel);
    if k < |frames| then frames[k + 1..] else []
  }

  /** The part of the connection state that receives, queues and sends. */
  class Connection {
    const receiver: Receiver
    const queue: Queue
    const sender: Sender

    constructor (receiver: Receiver, queue: Queue, sender: Sender)
      requires receiver.Valid() && queue.Valid() && sender.Valid() && receiver.parser.cfg == sender.cfg
      requires sender.outboundBuffer !in receiver.Footprint()
      ensures Valid() && this.receiver == receiver && this.queue == queue && this.sender == sender
    {
      this.receiver, this.queue, this.sender := receiver, queue, sender;
    }

    ghost predicate Valid()
      reads this, receiver, receiver.parser, receiver.parser.headerBuffer, receiver.parser.inbound
      reads queue, queue.links, sender, sender.socket
    {
      && receiver.Valid() && queue.Valid() && sender.Valid()
      && receiver.parser.cfg == sender.cfg && sender.outboundBuffer !in receiver.Footprint()
    }

    /** The objects that receiving and queueing change. */
    ghost function Footprint(): set<object>
      reads this, receiver, receiver.parser, queue
    {
      receiver.Footprint() + queue.Footprint()
    }

    /** The frames that are queued. */
    ghost function Queued(): seq<Frame>
      reads this, queue
    {
      queue.Contents()
    }

    /** The frames that are still to be received. */
    ghost function Wire(): seq<Frame>
      requires Valid()
      reads this, receiver, receiver.parser, receiver.parser.headerBuffer, receiver.parser.inbound
      reads queue, queue.links, sender, sender.socket
    {
      receiver.Wire()
    }

    /** The same with the heartbeats. */
    ghost function Coming(): seq<Frame>
      requires Valid()
      reads this, receiver, receiver.parser, receiver.parser.headerBuffer, receiver.parser.inbound
      reads queue, queue.links, sender, sender.socket
    {
      receiver.Coming().frames
    }

    /** The status that ends all waiting. */
    ghost function End(): Status
      requires Valid()
      reads this, receiver, receiver.parser, receiver.parser.headerBuffer, receiver.parser.inbound
      reads queue, queue.links, sender, sender.socket
    {
      receiver.End()
    }

    /** `wait_frame_inner` on the connection: the next frame from the wire. */
    method ReadFrame() returns (status: Status, frame: Option<Frame>)
      requires Valid()
      modifies Footprint()
      ensures Queued() == old(Queued()) && forall o | o in Footprint() :: o in old(Footprint()) || fresh(o)
      ensures status.Ok? <==> old(Wire()) != []
      ensures status.Ok? ==> Valid() && frame == Some(old(Wire())[0]) && Wire() == old(Wire())[1..] && End() == old(End())
      ensures !status.Ok? ==> status == old(End()) && frame.None?
    {
      hide Receiver.Valid, Receiver.Wire, Receiver.Coming, Receiver.End, Receiver.Undecoded, Queue.Valid, Sender.Valid;
      status, frame := receiver.WaitFrame();
    }

    /** `amqp_queue_frame` on the connection. */
    method PutAside(frame: Frame)
      requires Valid()
      modifies Footprint()
      ensures Valid() && forall o | o in Footprint() :: o in old(Footprint()) || fresh(o)
      ensures Queued() == old(Queued()) + [frame] && Wire() == old(Wire()) && End() == old(End())
      ensures Coming() == old(Coming())
      ensures receiver.sockInbound == old(receiver.sockInbound) && receiver.sockOffset == old(receiver.sockOffset)
    {
      hide Receiver.Valid, Receiver.Wire, Receiver.Coming, Receiver.End, Receiver.Undecoded, Queue.Valid, Sender.Valid;
      queue.Enqueue(frame);
    }

    /** `amqp_put_back_frame` on the connection. */
    method PutBack(frame: Frame)
      requires Valid()
      modifies Footprint()
      ensures Valid() && forall o | o in Footprint() :: o in old(Footprint()) || fresh(o)
      ensures Queued() == [frame] + old(Queued()) && Wire() == old(Wire()) && End() == old(End())
    {
      hide Receiver.Valid, Receiver.Wire, Receiver.Coming, Receiver.End, Receiver.Undecoded, Queue.Valid, Sender.Valid;
      queue.PutBack(frame);
    }

    /** `amqp_simple_wait_frame`. */
    method WaitFrame() returns (status: Status, frame: Option<Frame>)
      requires Valid()
      modifies Footprint()
      ensures forall o | o in Footprint() :: o in old(Footprint()) || fresh(o)
      ensures var t := TakeAny(old(Queued()), old(Wire()));
              && frame == t.frame && Queued() == t.queue
              && (status.Ok? <==> frame.Some?)
              && (status.Ok? ==> Valid() && Wire() == t.wire && End() == old(End()))
              && (!status.Ok? ==> status == old(End()))
    {
      hide Connection.Valid, Connection.Queued, Connection.Wire, Connection.End, Connection.Footprint;
      frame := TakeFirst();
      if frame.Some? {
        return Ok, frame;
      }
      status, frame := ReadFrame();
    }

    /** The first part of it: a queued frame goes first. */
    method TakeFirst() returns (frame: Option<Frame>)
      requires Valid()
      modifies Footprint()
      ensures Valid() && Wire() == old(Wire()) && End() == old(End())
      ensures forall o | o in Footprint() :: o in old(Footprint()) || fresh(o)
      ensures var q := old(Queued());
              if q == [] then frame.None? && Queued() == [] else frame == Some(q[0]) && Queued() == q[1..]
    {
      hide Receiver.Valid, Receiver.Wire, Receiver.Coming, Receiver.End, Receiver.Undecoded, Queue.Valid, Sender.Valid;
      frame := queue.Dequeue();
    }

    /** `amqp_simple_wait_frame_on_channel`. */
    method WaitFrameOnChannel(channel: nat) returns (status: Status, frame: Option<Frame>)
      requires Valid()
      modifies Footprint()
      ensures forall o | o in Footprint() :: o in old(Footprint()) || fresh(o)
      ensures var t := TakeNext(old(Queued()), old(Wire()), channel);
              && frame == t.frame && Queued() == t.queue
              && (status.Ok? <==> frame.Some?)
              && (status.Ok? ==> Valid() && Wire() == t.wire && End() == old(End()))
              && (!status.Ok? ==> status == old(End()))
    {
      hide FirstOn, Connection.Valid, Connection.Queued, Connection.Wire, Connection.End, Connection.Footprint;
      ghost var w := Wire();
      frame := TakeQueued(channel);
      if frame.Some? {
        return Ok, frame;
      }
      status, frame := WaitOnWire(channel);
      assert w[..|w|] == w;
    }

    /** The first part of it: the queue is searched. */
    method TakeQueued(channel: nat) returns (frame: Option<Frame>)
      requires Valid()
      modifies Footprint()
      ensures Valid() && Wire() == old(Wire()) && End() == old(End())
      ensures forall o | o in Footprint() :: o in old(Footprint()) || fresh(o)
      ensures var q, k := old(Queued()), FirstOn(old(Queued()), channel);
              if k < |q| then frame == Some(q[k]) && Queued() == q[k + 1..] else frame.None? && Queued() == q
    {
      hide FirstOn;
      hide Receiver.Valid, Receiver.Wire, Receiver.Coming, Receiver.End, Receiver.Undecoded, Queue.Valid, Sender.Valid;
      frame := queue.TakeOnChannel(channel);
    }

    /** The second part of `amqp_simple_wait_frame_on_channel`: frames are read until one belongs to the
        channel; the others are queued. */
    method WaitOnWire(channel: nat) returns (status: Status, frame: Option<Frame>)
      requires Valid()
      modifies Footprint()
      ensures forall o | o in Footprint() :: o in old(Footprint()) || fresh(o)
      ensures Waited(old(Queued()), old(Wire()), channel, old(End()), status, frame, Queued())
      ensures status.Ok? ==> Valid() && Wire() == Behind(old(Wire()), channel) && End() == old(End())
    {
      hide FirstOn, Waited, Behind;
      hide Connection.Valid, Connection.Queued, Connection.Wire, Connection.End, Connection.Footprint;
      ghost var q, w, f, j := Queued(), Wire(), Footprint(), 0;
      ghost var k, end := FirstOn(w, channel), End();
      AsideNone(q, w);
      while true
        invariant Valid() && forall o | o in Footprint() :: o in f || fresh(o)
        invariant j <= k && Wire() == w[j..] && Queued() == q + w[..j] && End() == old(End())
        decreases |w| - j
      {
        status, frame := ReadFrame();
        if !status.Ok? || frame.value.channel == channel {
          WaitedHere(q, w, channel, j, end, status, frame);
          return;
        }
        PutAside(frame.value);
        AsideOne(q, w, j);
        j := j + 1;
      }
    }

    /** `consume_one_frame` on the connection. */
    method ConsumeOneFrame() returns (status: Status, frame: Option<Frame>)
      requires Valid() && receiver.sockOffset < |receiver.sockInbound|
      modifies Footprint()
      ensures forall o | o in Footprint() :: o in old(Footprint()) || fresh(o)
      ensures Queued() == old(Queued())
      ensures status.Ok? ==>
                && Valid() && End() == old(End()) && old(Wire()) == WithoutHeartbeats(Shown(frame)) + Wire()
                && old(Coming()) == Shown(frame) + Coming()
                && |receiver.sockInbound| - receiver.sockOffset < old(|receiver.sockInbound| - receiver.sockOffset)
      ensures !status.Ok? ==> status == old(End()) && old(Wire()) == [] && old(Coming()) == []
    {
      hide Queue.Valid, Sender.Valid, Receiver.Coming, Receiver.Undecoded;
      status, frame := receiver.ConsumeOneFrame();
      if status.Ok? {
        WithoutHeartbeatsAppend(Shown(frame), receiver.Coming().frames);
      }
    }

    /** `recv_with_timeout` on the connection. */
    method Receive() returns (status: Status)
      requires Valid() && receiver.sockOffset == |receiver.sockInbound|
      modifies Footprint()
      ensures forall o | o in Footprint() :: o in old(Footprint()) || fresh(o)
      ensures Valid() && Queued() == old(Queued()) && Wire() == old(Wire()) && End() == old(End())
      ensures Coming() == old(Coming())
      ensures !status.Ok? ==> status == End() && Wire() == [] && Coming() == []
    {
      hide Queue.Valid, Sender.Valid, Receiver.Coming, Receiver.Undecoded;
      status := receiver.Receive();
    }

    /** `amqp_try_recv`: whatever is in the receive buffer goes behind the queue, heartbeats included, and
        more is received. Nothing is lost or reordered. */
    method TryRecv() returns (status: Status, ghost got: seq<Frame>)
      requires Valid()
      modifies Footprint()
      ensures forall o | o in Footprint() :: o in old(Footprint()) || fresh(o)
      ensures Queued() == old(Queued()) + got
      ensures status.Ok? ==> Valid() && End() == old(End()) && old(Wire()) == WithoutHeartbeats(got) + Wire()
      ensures !status.Ok? ==> status == old(End()) && old(Wire()) == WithoutHeartbeats(got)
      ensures old(Coming()) == got + if status.Ok? then Coming() else []
    {
      hide Connection.Coming, Connection.Valid, Connection.Queued, Connection.Wire, Connection.End, Connection.Footprint, WithoutHeartbeats;
      ghost var q, w, f, all := Queued(), Wire(), Footprint(), Coming();
      got := [];
      NothingGot(q, w);
      NothingGot(q, all);
      while receiver.sockOffset < |receiver.sockInbound|
        invariant Valid() && forall o | o in Footprint() :: o in f || fresh(o)
        invariant Queued() == q + got && End() == old(End()) && w == WithoutHeartbeats(got) + Wire()
        invariant all == got + Coming()
        decreases |receiver.sockInbound| - receiver.sockOffset
      {
        var frame;
        status, frame := ConsumeOneFrame();
        if !status.Ok? {
          NothingGot(WithoutHeartbeats(got), []);
          return;
        }
        GotMore(got, frame, q, Wire());
        Regrouped(got, Shown(frame), Coming());
        got := got + Shown(frame);
        if frame.Some? {
          PutAside(frame.value);
        }
      }
      BufferInBounds();
      status := Receive();
    }

    lemma BufferInBounds()
      requires Valid()
      ensures receiver.sockOffset <= |receiver.sockInbound|
    {
    }

    /** `simple_rpc_inner`: the request is sent, then frames are read until one is a reply. The first
        reply on the wire decides, and exactly the frames before it are put aside, in their order. */
    method SimpleRpc(channel: nat, request: nat, args: seq<Field>, expected: seq<nat>)
      returns (reply: Reply, ghost sent: bool)
      requires Valid() && TypedFrame(sender.cfg, Method(channel, request, args))
      modifies Footprint(), sender.outboundBuffer, sender.socket
      ensures forall o | o in Footprint() :: o in old(Footprint()) || fresh(o)
      ensures var enc := OrElse(FrameBytes(sender.cfg, Method(channel, request, args)));
              if sent then sender.socket.accepted == old(sender.socket.accepted) + enc
              else sender.socket.accepted <= old(sender.socket.accepted) + enc
      ensures !sent ==> Valid() && reply.LibraryException? && Queued() == old(Queued()) && Wire() == old(Wire())
      ensures var s := SendsFrame(sender.cfg, Method(channel, request, args), old(sender.socket.attempts),
                                  old(sender.socket.interruptions));
              sent == s.status.Ok? && (!sent ==> reply == LibraryException(s.status))
      ensures sent ==> Replied(old(Queued()), old(Wire()), channel, expected, old(End()), reply, Queued())
      ensures var w := old(Wire());
              var k := FirstReply(w, channel, expected);
              sent ==>
                && (reply.Normal? <==> k < |w| && w[k].id in expected)
                && (reply.ServerException? <==> k < |w| && w[k].id !in expected)
                && if k < |w| then reply.frame == w[k] else reply == LibraryException(old(End()))
      ensures !reply.LibraryException? ==>
                Valid() && End() == old(End()) && Queued() + [reply.frame] + Wire() == old(Queued()) + old(Wire())
    {
      hide FrameBytes, TypedFrame, SendsFrame, FirstReply;
      hide Receiver.Valid, Receiver.Wire, Receiver.Coming, Receiver.End, Receiver.Undecoded, Queue.Valid, Sender.Valid;
      var status: Status; ghost var taken;
      status, taken := sender.SendFrame(Method(channel, request, args));
      if !status.Ok? {
        return LibraryException(status), false;
      }
      reply := ReadReply(channel, expected);
      return reply, true;
    }

    /** The loop of `simple_rpc_inner`. */
    method ReadReply(channel: nat, expected: seq<nat>) returns (reply: Reply)
      requires Valid()
      modifies Footprint()
      ensures forall o | o in Footprint() :: o in old(Footprint()) || fresh(o)
      ensures Replied(old(Queued()), old(Wire()), channel, expected, old(End()), reply, Queued())
      ensures !reply.LibraryException? ==>
                Valid() && End() == old(End()) && Queued() + [reply.frame] + Wire() == old(Queued()) + old(Wire())
    {
      hide FirstReply, IsReply, Replied, ReplyOf;
      hide Connection.Valid, Connection.Queued, Connection.Wire, Connection.End, Connection.Footprint;
      ghost var q, w, f, j := Queued(), Wire(), Footprint(), 0;
      ghost var k, end := FirstReply(w, channel, expected), End();
      AsideNone(q, w);
      while true
        invariant Valid() && forall o | o in Footprint() :: o in f || fresh(o)
        invariant j <= k && Wire() == w[j..] && Queued() == q + w[..j] && End() == old(End())
        decreases |w| - j
      {
        var status, frame := ReadFrame();
        if !status.Ok? {
          RepliedHere(q, w, channel, expected, j, end);
          return LibraryException(status);
        }
        if IsReply(frame.value, channel, expected) {
          RepliedHere(q, w, channel, expected, j, end);
          AsideAll(q, w, j);
          return ReplyOf(frame.value, expected);
        }
        PutAside(frame.value);
        AsideOne(q, w, j);
        j := j + 1;
      }
    }
  }
}
