/** Messages: what `amqp_read_message` makes of a stream of frames that is shared by many channels, and
    that it is the message `amqp_basic_publish` was given. */
module Content {
  import opened Wire
  import opened FieldTable
  import opened Codegen
  import opened Properties
  import opened Capabilities
  import opened Frames
  import opened FrameCodec
  import opened Octets
  import opened Framing
  import opened FrameQueue
  import opened Outbound
  import opened Receiving
  import opened Demux

  datatype Message = Message(properties: PropertyList, body: Bytes)

  /** The result of reading: complete, closed by the peer, rejected because of what was read, or ended
      because there is nothing more to read. */
  datatype Read<+T> = Complete(value: T) | Closed(frame: Frame) | Rejected(status: Status) | Ended(status: Status)

  /** A result, and the frames that are left in the queue and on the wire. */
  datatype Outcome<+T> = Outcome(result: Read<T>, queue: seq<Frame>, wire: seq<Frame>)

  //////////////////////////////////////////////////////////////////////////////
  // Properties
  //////////////////////////////////////////////////////////////////////////////

  /** The member `headers` of the basic properties. */
  const HEADERS: nat := 2

  /** `amqp_basic_properties_clone` accepts the properties. */
  predicate CloneableProperties(p: PropertyList)
    requires |p.members| == |BASIC_PROPERTIES|
  {
    Flagged(p.flags, HEADERS) && p.members[HEADERS].Tab? ==> CloneableEntries(p.members[HEADERS].entries)
  }

  /** A clone: flagged members are copied, the others are zero. */
  function Cloned(p: PropertyList): PropertyList
    requires |p.members| == |BASIC_PROPERTIES|
  {
    PropertyList(p.flags, seq(|BASIC_PROPERTIES|, k requires 0 <= k < |BASIC_PROPERTIES| =>
      if Flagged(p.flags, k) then p.members[k] else Uint(0)))
  }

  /** Whatever the memory of a decoded property list held, its clone depends only on what was sent. */
  lemma ClonedReceived(p: PropertyList, raw: seq<Field>)
    requires |p.members| == |BASIC_PROPERTIES| == |raw|
    ensures Cloned(Received(p, raw)) == Received(p, Blank(BASIC_PROPERTIES))
    ensures CloneableProperties(Received(p, raw)) <==> CloneableProperties(p)
  {
    hide Flagged, Restored, CloneableEntries;
    forall k | 0 <= k < |BASIC_PROPERTIES|
      ensures Flagged(Restored(p.flags), k) == Flagged(p.flags, k)
    {
      FlaggedRestored(p.flags, k);
    }
  }

  //////////////////////////////////////////////////////////////////////////////
  // Reading from a queue and a wire
  //////////////////////////////////////////////////////////////////////////////

  /** The peer has closed the channel or the connection. */
  predicate Closes(f: Frame) {
    f.Method? && (f.id == CHANNEL_CLOSE_METHOD || f.id == CONNECTION_CLOSE_METHOD)
  }

  /** The loop of `amqp_read_message`: `got` of a body of `size` octets has been read. */
  function BodyFrom(queue: seq<Frame>, wire: seq<Frame>, end: Status, channel: nat, size: nat, got: Bytes)
    : Outcome<Bytes>
    requires |got| <= size
    decreases |queue| + |wire|
  {
    if |got| == size then Outcome(Complete(got), queue, wire)
    else
      var t := TakeNext(queue, wire, channel);
      if t.frame.None? then Outcome(Ended(end), t.queue, t.wire)
      else
        var f := t.frame.value;
        if !f.Body? then Outcome(if Closes(f) then Closed(f) else Rejected(BadAmqpData), t.queue, t.wire)
        else if |got| + |f.fragment| > size then Outcome(Rejected(BadAmqpData), t.queue, t.wire)
        else BodyFrom(t.queue, t.wire, end, channel, size, got + f.fragment)
  }

  function WithProperties(p: PropertyList, body: Read<Bytes>): Read<Message> {
    match body
    case Complete(value) => Complete(Message(p, value))
    case Closed(frame) => Closed(frame)
    case Rejected(status) => Rejected(status)
    case Ended(status) => Ended(status)
  }

  /** A header frame carries basic properties, as the library takes for granted. */
  predicate BasicContent(f: Frame) {
    f.Header? ==> f.classId == BASIC_CLASS && |f.properties.members| == |BASIC_PROPERTIES|
  }

  predicate BasicOnChannel(frames: seq<Frame>, channel: nat) {
    forall f | f in frames && f.channel == channel :: BasicContent(f)
  }

  /** `amqp_read_message`. */
  function MessageFrom(queue: seq<Frame>, wire: seq<Frame>, end: Status, channel: nat): Outcome<Message>
    requires BasicOnChannel(queue, channel) && BasicOnChannel(wire, channel)
  {
    var t := TakeNext(queue, wire, channel);
    if t.frame.None? then Outcome(Ended(end), t.queue, t.wire)
    else
      var f := t.frame.value;
      if Closes(f) then Outcome(Closed(f), t.queue, t.wire)
      else if !f.Header? then Outcome(Rejected(UnexpectedState), [f] + t.queue, t.wire)
      else if !CloneableProperties(f.properties) then Outcome(Rejected(InvalidParameter), t.queue, t.wire)
      else
        var body := BodyFrom(t.queue, t.wire, end, channel, f.bodySize, []);
        Outcome(WithProperties(Cloned(f.properties), body.result), body.queue, body.wire)
  }

  /** `amqp_envelope_t`: the channel, the arguments of the delivery and its message. */
  datatype Envelope = Envelope(channel: nat, delivery: seq<Field>, message: Message)

  predicate Delivers(f: Frame) {
    f.Method? && f.id == BASIC_DELIVER_METHOD
  }

  function InEnvelope(f: Frame, message: Read<Message>): Read<Envelope>
    requires f.Method?
  {
    match message
    case Complete(value) => Complete(Envelope(f.channel, f.args, value))
    case Closed(frame) => Closed(frame)
    case Rejected(status) => Rejected(status)
    case Ended(status) => Ended(status)
  }

  /** `amqp_consume_message`: what is not a delivery is put back. */
  function EnvelopeFrom(queue: seq<Frame>, wire: seq<Frame>, end: Status): Outcome<Envelope>
    requires forall f | f in queue + wire :: BasicContent(f)
  {
    var t := TakeAny(queue, wire);
    if t.frame.None? then Outcome(Ended(end), t.queue, t.wire)
    else
      var f := t.frame.value;
      if !Delivers(f) then Outcome(Rejected(UnexpectedState), [f] + t.queue, t.wire)
      else
        assert forall g | g in t.queue + t.wire :: g in queue + wire;
        var message := MessageFrom(t.queue, t.wire, end, f.channel);
        Outcome(InEnvelope(f, message.result), message.queue, message.wire)
  }

  /** A frame that is not a delivery stays where it was: what is queued and then on the wire is the same
      as before. A delivery is followed by its message, which is that of its channel by itself. */
  lemma EnvelopeIsDemultiplexed(queue: seq<Frame>, wire: seq<Frame>, end: Status)
    requires queue + wire != [] && forall f | f in queue + wire :: BasicContent(f)
    ensures var f, rest, r := (queue + wire)[0], (queue + wire)[1..], EnvelopeFrom(queue, wire, end);
            if Delivers(f) then
              && (forall g | g in OnChannel(rest, f.channel) :: BasicContent(g))
              && (var (message, more) := AssembleMessage(OnChannel(rest, f.channel), end);
                  && OnChannel(r.queue + r.wire, f.channel) == more
                  && (r.result.Complete? <==> message.Complete?)
                  && (message.Complete? ==>
                        && r.result.value.channel == f.channel && r.result.value.delivery == f.args
                        && r.result.value.message == message.value)
                  && (message.Closed? ==> r.result == Closed(message.frame))
                  && (message.Rejected? ==> r.result == Rejected(message.status))
                  && (message.Ended? ==> r.result == Ended(message.status)))
            else r.result == Rejected(UnexpectedState) && r.queue + r.wire == queue + wire
  {
    hide OnChannel, MessageFrom, AssembleMessage, Delivers;
    var t, f := TakeAny(queue, wire), (queue + wire)[0];
    assert t.queue + t.wire == (queue + wire)[1..];
    assert [f] + t.queue + t.wire == [f] + (t.queue + t.wire);
    if Delivers(f) {
      assert forall g | g in t.queue + t.wire :: g in queue + wire;
      MessageIsDemultiplexed(t.queue, t.wire, end, f.channel);
    }
  }

  /** channel.close and connection.close are what ends reading, basic.deliver is a delivery. */
  lemma MethodsOfConsumers(f: Frame)
    ensures Closes(f) <==> f.Method? && f.id in {0x0014_0028, 0x000A_0032}
    ensures Delivers(f) <==> f.Method? && f.id == 0x003C_003C
  {
  }

  //////////////////////////////////////////////////////////////////////////////
  // One channel by itself
  //////////////////////////////////////////////////////////////////////////////

  /** The frames of one channel. */
  function OnChannel(frames: seq<Frame>, channel: nat): seq<Frame> {
    if frames == [] then []
    else if frames[0].channel == channel then [frames[0]] + OnChannel(frames[1..], channel)
    else OnChannel(frames[1..], channel)
  }

  /** The frames of all other channels. */
  function OffChannel(frames: seq<Frame>, channel: nat): seq<Frame> {
    if frames == [] then []
    else if frames[0].channel == channel then OffChannel(frames[1..], channel)
    else [frames[0]] + OffChannel(frames[1..], channel)
  }

  lemma {:induction false} ChannelAppend(a: seq<Frame>, b: seq<Frame>, channel: nat)
    ensures OnChannel(a + b, channel) == OnChannel(a, channel) + OnChannel(b, channel)
    ensures OffChannel(a + b, channel) == OffChannel(a, channel) + OffChannel(b, channel)
  {
    if a == [] {
      assert a + b == b;
    } else {
      assert (a + b)[1..] == a[1..] + b && (a + b)[0] == a[0];
      ChannelAppend(a[1..], b, channel);
    }
  }

  /** Up to the first frame of the channel there is none. */
  lemma {:induction false} ChannelSplit(frames: seq<Frame>, channel: nat)
    ensures var k := FirstOn(frames, channel);
            && OnChannel(frames, channel)
               == (if k < |frames| then [frames[k]] + OnChannel(frames[k + 1..], channel) else [])
            && OffChannel(frames, channel)
               == frames[..k] + (if k < |frames| then OffChannel(frames[k + 1..], channel) else [])
  {
    hide FirstOn;
    if frames != [] {
      var f, rest := frames[0], frames[1..];
      FirstOnRest(frames, channel);
      if f.channel == channel {
        assert frames[..0] == [];
      } else {
        ChannelSplit(rest, channel);
        var k := FirstOn(rest, channel);
        PrefixOfCons(frames, k);
        assert [f] + (rest[..k] + []) == [f] + rest[..k];
      }
    }
  }

  lemma FirstOnRest(frames: seq<Frame>, channel: nat)
    requires frames != []
    ensures FirstOn(frames, channel) == if frames[0].channel == channel then 0 else 1 + FirstOn(frames[1..], channel)
  {
    hide FirstOn;
    if frames[0].channel != channel {
      var k := FirstOn(frames[1..], channel);
      assert forall i | 1 <= i <= k :: frames[i] == frames[1..][i - 1];
      FirstOnIsUnique(frames, channel, k + 1);
    }
  }

  lemma PrefixOfCons(frames: seq<Frame>, k: nat)
    requires k < |frames|
    ensures frames[..k + 1] == [frames[0]] + frames[1..][..k]
    ensures k + 1 < |frames| ==> frames[1..][k] == frames[k + 1] && frames[1..][k + 1..] == frames[k + 2..]
  {
  }

  /** The next frame of the channel is queued. */
  lemma FromQueue(queue: seq<Frame>, wire: seq<Frame>, channel: nat)
    requires FirstOn(queue, channel) < |queue|
    ensures var k := FirstOn(queue, channel);
            && OnChannel(queue + wire, channel) == [queue[k]] + OnChannel(queue[k + 1..] + wire, channel)
            && OffChannel(queue + wire, channel) == queue[..k] + OffChannel(queue[k + 1..] + wire, channel)
  {
    hide OnChannel, OffChannel, FirstOn;
    var k, all := FirstOn(queue, channel), queue + wire;
    FirstOnIsUnique(all, channel, k);
    ChannelSplit(all, channel);
    assert all[..k] == queue[..k] && all[k + 1..] == queue[k + 1..] + wire;
  }

  /** No frame of the channel is queued; those in front of the next one on the wire are put aside. */
  lemma FromWire(queue: seq<Frame>, wire: seq<Frame>, channel: nat)
    requires FirstOn(queue, channel) == |queue|
    ensures var j := FirstOn(wire, channel);
            var aside, rest := queue + wire[..j], if j < |wire| then wire[j + 1..] else [];
            && OnChannel(queue + wire, channel)
               == (if j < |wire| then [wire[j]] else []) + OnChannel(aside + rest, channel)
            && OffChannel(queue + wire, channel) == OffChannel(aside + rest, channel)
  {
    hide OnChannel, OffChannel, FirstOn;
    var j := FirstOn(wire, channel);
    var aside := queue + wire[..j];
    FirstOnIsUnique(aside, channel, |aside|);
    if j < |wire| {
      assert queue + wire == aside + ([wire[j]] + wire[j + 1..]);
      Skipped(aside, [wire[j]] + wire[j + 1..], channel);
      Skipped(aside, wire[j + 1..], channel);
      OneTaken(wire[j], wire[j + 1..], channel);
    } else {
      assert wire[..j] == wire && aside + [] == queue + wire;
      Skipped(aside, [], channel);
      NoneOnChannel([], channel);
    }
  }

  lemma Skipped(aside: seq<Frame>, rest: seq<Frame>, channel: nat)
    requires FirstOn(aside, channel) == |aside|
    ensures OnChannel(aside + rest, channel) == OnChannel(rest, channel)
    ensures OffChannel(aside + rest, channel) == aside + OffChannel(rest, channel)
  {
    hide OnChannel, OffChannel, FirstOn;
    ChannelSplit(aside, channel);
    ChannelAppend(aside, rest, channel);
    assert aside[..|aside|] + [] == aside;
    assert [] + OnChannel(rest, channel) == OnChannel(rest, channel);
  }

  lemma OneTaken(f: Frame, rest: seq<Frame>, channel: nat)
    requires f.channel == channel
    ensures OnChannel([f] + rest, channel) == [f] + OnChannel(rest, channel)
    ensures OffChannel([f] + rest, channel) == OffChannel(rest, channel)
  {
    assert ([f] + rest)[1..] == rest;
  }

  lemma NoneOnChannel(frames: seq<Frame>, channel: nat)
    requires frames == []
    ensures OnChannel(frames, channel) == [] == OffChannel(frames, channel)
  {
  }

  /** Waiting for a channel takes the next of its frames, wherever it is, and leaves the rest of them. */
  lemma TakeNextOnChannel(queue: seq<Frame>, wire: seq<Frame>, channel: nat)
    ensures var t, s := TakeNext(queue, wire, channel), OnChannel(queue + wire, channel);
            && t.frame == (if s == [] then None else Some(s[0]))
            && OnChannel(t.queue + t.wire, channel) == if s == [] then [] else s[1..]
  {
    hide OnChannel, OffChannel, FirstOn;
    if FirstOn(queue, channel) < |queue| {
      FromQueue(queue, wire, channel);
    } else {
      FromWire(queue, wire, channel);
      if FirstOn(wire, channel) == |wire| {
        assert wire[..|wire|] == wire && queue + wire + [] == queue + wire;
        FirstOnIsUnique(queue + wire, channel, |queue + wire|);
        Skipped(queue + wire, [], channel);
        NoneOnChannel([], channel);
      }
    }
  }

  /** The frames of other channels survive exactly when none of them is queued ahead of the match. */
  lemma OthersSurviveIff(queue: seq<Frame>, wire: seq<Frame>, channel: nat)
    ensures var t, k := TakeNext(queue, wire, channel), FirstOn(queue, channel);
            OffChannel(t.queue + t.wire, channel) == OffChannel(queue + wire, channel) <==> k == 0 || k == |queue|
  {
    hide OnChannel, OffChannel, FirstOn;
    var k := FirstOn(queue, channel);
    if k < |queue| {
      FromQueue(queue, wire, channel);
      PrefixIsNothingIff(queue[..k], OffChannel(queue[k + 1..] + wire, channel));
    } else {
      FromWire(queue, wire, channel);
      assert wire[..|wire|] == wire;
    }
  }

  /** A wait for channel 1 loses the frame of channel 2 that is queued ahead of the match. */
  lemma QueuedFrameIsLost(lost: Frame, match_: Frame)
    requires lost.channel == 2 && match_.channel == 1
    ensures TakeNext([lost, match_], [], 1) == Taken(Some(match_), [], [])
  {
    hide FirstOn;
    FirstOnIsUnique([lost, match_], 1, 1);
  }

  lemma PrefixIsNothingIff(a: seq<Frame>, b: seq<Frame>)
    ensures a + b == b <==> a == []
  {
  }

  //////////////////////////////////////////////////////////////////////////////
  // Reading from one channel by itself
  //////////////////////////////////////////////////////////////////////////////

  /** The rest of a body, and what follows it, in a stream of frames of one channel. */
  function Assemble(frames: seq<Frame>, end: Status, size: nat, got: Bytes): (r: (Read<Bytes>, seq<Frame>))
    requires |got| <= size
  {
    if |got| == size then (Complete(got), frames)
    else if frames == [] then (Ended(end), [])
    else
      var f := frames[0];
      if !f.Body? then (if Closes(f) then Closed(f) else Rejected(BadAmqpData), frames[1..])
      else if |got| + |f.fragment| > size then (Rejected(BadAmqpData), frames[1..])
      else Assemble(frames[1..], end, size, got + f.fragment)
  }

  /** A message, and what follows it, in a stream of frames of one channel. */
  function AssembleMessage(frames: seq<Frame>, end: Status): (Read<Message>, seq<Frame>)
    requires forall f | f in frames :: BasicContent(f)
  {
    if frames == [] then (Ended(end), [])
    else
      var f := frames[0];
      assert BasicContent(f);
      if Closes(f) then (Closed(f), frames[1..])
      else if !f.Header? then (Rejected(UnexpectedState), frames)
      else if !CloneableProperties(f.properties) then (Rejected(InvalidParameter), frames[1..])
      else
        var (body, rest) := Assemble(frames[1..], end, f.bodySize, []);
        (WithProperties(Cloned(f.properties), body), rest)
  }

  /** What reading a message from its channel comes to: the peer has closed, or something else than a header
      is there and stays there, or the properties are refused, or the body decides. */
  lemma MessageOutcomes(frames: seq<Frame>, end: Status)
    requires forall f | f in frames :: BasicContent(f)
    ensures frames == [] ==> AssembleMessage(frames, end) == (Ended(end), [])
    ensures frames != [] ==>
              var f, rest, r := frames[0], frames[1..], AssembleMessage(frames, end);
              && (f.Method? && f.id in {0x0014_0028, 0x000A_0032} ==> r == (Closed(f), rest))
              && (f.Method? && f.id !in {0x0014_0028, 0x000A_0032} ==> r == (Rejected(UnexpectedState), frames))
              && (f.Body? || f.Heartbeat? || f.ProtocolHeader? ==> r == (Rejected(UnexpectedState), frames))
              && BasicContent(f)
              && (f.Header? ==>
                    var (body, more) := Assemble(rest, end, f.bodySize, []);
                    if !CloneableProperties(f.properties) then r == (Rejected(InvalidParameter), rest)
                    else
                      && r.1 == more
                      && (body.Complete? ==> r.0 == Complete(Message(Cloned(f.properties), body.value)))
                      && (body.Closed? ==> r.0 == Closed(body.frame))
                      && (body.Rejected? ==> r.0 == Rejected(body.status))
                      && (body.Ended? ==> r.0 == Ended(body.status)))
  {
    hide Assemble, Cloned, CloneableProperties;
    if frames != [] {
      assert frames[0] in frames;
    }
  }

  /** What reading a body comes to, after `n` fragments that leave it unfinished. */
  lemma {:induction false} BodyOutcomes(frames: seq<Frame>, n: nat, end: Status, size: nat, got: Bytes)
    requires n <= |frames| && forall i | 0 <= i < n :: frames[i].Body?
    requires |got + Concat(frames[..n])| < size
    ensures var total := got + Concat(frames[..n]);
            Assemble(frames, end, size, got)
            == if n == |frames| then (Ended(end), [])
               else
                 var f, rest := frames[n], frames[n + 1..];
                 if f.Method? && f.id in {0x0014_0028, 0x000A_0032} then (Closed(f), rest)
                 else if !f.Body? || |total| + |f.fragment| > size then (Rejected(BadAmqpData), rest)
                 else if |total| + |f.fragment| == size then (Complete(total + f.fragment), rest)
                 else Assemble(rest, end, size, total + f.fragment)
    decreases n
  {
    if n == 0 {
      assert frames[..0] == [] && got + [] == got;
    } else {
      var first := frames[0].fragment;
      assert frames[..n][1..] == frames[1..][..n - 1] && frames[..n][0] == frames[0];
      assert got + (first + Concat(frames[1..][..n - 1])) == got + first + Concat(frames[1..][..n - 1]);
      BodyOutcomes(frames[1..], n - 1, end, size, got + first);
    }
  }

  lemma {:induction false} BodyIsDemultiplexed(queue: seq<Frame>, wire: seq<Frame>, end: Status, channel: nat,
                                               size: nat, got: Bytes)
    requires |got| <= size
    ensures var r := BodyFrom(queue, wire, end, channel, size, got);
            (r.result, OnChannel(r.queue + r.wire, channel))
            == Assemble(OnChannel(queue + wire, channel), end, size, got)
    decreases |queue| + |wire|
  {
    hide OnChannel, TakeNext, Closes;
    if |got| < size {
      TakeNextOnChannel(queue, wire, channel);
      var t := TakeNext(queue, wire, channel);
      if t.frame.Some? && t.frame.value.Body? && |got| + |t.frame.value.fragment| <= size {
        TakeNextDecreases(queue, wire, channel);
        BodyIsDemultiplexed(t.queue, t.wire, end, channel, size, got + t.frame.value.fragment);
      }
    }
  }

  lemma TakeNextDecreases(queue: seq<Frame>, wire: seq<Frame>, channel: nat)
    ensures var t := TakeNext(queue, wire, channel);
            t.frame.Some? ==> |t.queue| + |t.wire| < |queue| + |wire|
                              && t.frame.value.channel == channel && t.frame.value in queue + wire
  {
  }

  /** However the frames of a channel are spread over the queue and the wire, and whatever other
      channels have in between: the message, and the frames that are left to the channel, are those of
      the channel by itself. */
  lemma MessageIsDemultiplexed(queue: seq<Frame>, wire: seq<Frame>, end: Status, channel: nat)
    requires BasicOnChannel(queue, channel) && BasicOnChannel(wire, channel)
    ensures forall f | f in OnChannel(queue + wire, channel) :: BasicContent(f)
    ensures var r := MessageFrom(queue, wire, end, channel);
            (r.result, OnChannel(r.queue + r.wire, channel)) == AssembleMessage(OnChannel(queue + wire, channel), end)
  {
    hide OnChannel, TakeNext, CloneableProperties, Cloned, BodyFrom, Assemble;
    BasicDemultiplexed(queue + wire, channel);
    TakeNextOnChannel(queue, wire, channel);
    TakeNextDecreases(queue, wire, channel);
    var t := TakeNext(queue, wire, channel);
    if t.frame.Some? {
      var f := t.frame.value;
      if f.Header? {
        BodyIsDemultiplexed(t.queue, t.wire, end, channel, f.bodySize, []);
      } else if !Closes(f) {
        var s := OnChannel(queue + wire, channel);
        assert [f] + t.queue + t.wire == [f] + (t.queue + t.wire);
        ChannelAppend([f], t.queue + t.wire, channel);
        OneOnChannel(f, channel);
        assert s == [s[0]] + s[1..];
      }
    }
  }

  lemma OneOnChannel(f: Frame, channel: nat)
    requires f.channel == channel
    ensures OnChannel([f], channel) == [f]
  {
  }

  //////////////////////////////////////////////////////////////////////////////
  // Fragments
  //////////////////////////////////////////////////////////////////////////////

  function Concat(frames: seq<Frame>): Bytes
    requires forall f | f in frames :: f.Body?
  {
    if frames == [] then [] else frames[0].fragment + Concat(frames[1..])
  }

  function CeilingOf(n: nat, d: nat): nat
    requires d > 0
  {
    if n == 0 then 0 else if n < d then 1 else 1 + CeilingOf(n - d, d)
  }

  /** `CeilingOf` is the quotient rounded up. */
  lemma {:induction false} CeilingBounds(n: nat, d: nat)
    requires d > 0
    ensures n <= CeilingOf(n, d) * d < n + d
  {
    if n >= d {
      CeilingBounds(n - d, d);
      assert CeilingOf(n, d) * d == CeilingOf(n - d, d) * d + d;
    }
  }

  /** The fragments of a body are the body, and there are as few of them as there can be. */
  lemma {:induction false} FragmentsOfBody(channel: nat, body: Bytes, usable: nat)
    requires usable > 0
    ensures Concat(BodyFrames(channel, body, usable)) == body
    ensures |BodyFrames(channel, body, usable)| == CeilingOf(|body|, usable)
    ensures var r := BodyFrames(channel, body, usable);
            forall k | 0 <= k < |r| - 1 :: |r[k].fragment| == usable
  {
    if |body| >= usable {
      FragmentsOfBody(channel, body[usable..], usable);
      var tail := BodyFrames(channel, body[usable..], usable);
      assert BodyFrames(channel, body, usable) == [Body(channel, body[..usable])] + tail;
      assert forall k | 0 < k < |tail| :: ([Body(channel, body[..usable])] + tail)[k] == tail[k - 1];
    } else if body != [] {
      assert body + [] == body;
    }
  }

  lemma {:induction false} FragmentsAssemble(channel: nat, body: Bytes, usable: nat, rest: seq<Frame>, end: Status,
                                             size: nat, got: Bytes)
    requires usable > 0 && |got| + |body| == size
    ensures Assemble(BodyFrames(channel, body, usable) + rest, end, size, got) == (Complete(got + body), rest)
    decreases |body|
  {
    var frames := BodyFrames(channel, body, usable) + rest;
    if body == [] {
      assert frames == rest && got + body == got;
    } else {
      var n := if |body| >= usable then usable else |body|;
      var first, tail := body[..n], body[n..];
      assert first + tail == body && got + first + tail == got + body;
      if |body| < usable {
        assert first == body && tail == [];
      }
      assert frames[1..] == BodyFrames(channel, tail, usable) + rest;
      FragmentsAssemble(channel, tail, usable, rest, end, size, got + first);
    }
  }

  //////////////////////////////////////////////////////////////////////////////
  // From publisher to consumer
  //////////////////////////////////////////////////////////////////////////////

  /** The message a consumer should get. */
  function Sent(p: PropertyList, body: Bytes): Message
    requires |p.members| == |BASIC_PROPERTIES|
  {
    Message(Received(p, Blank(BASIC_PROPERTIES)), body)
  }

  /** The message is the body, and of each of the fourteen properties the value that was given for it, if its
      flag is set; the values of the flags are those of the table `BASIC`. */
  lemma MessageAsSent(p: PropertyList, body: Bytes, k: nat)
    requires |p.members| == |BASIC_PROPERTIES| && k < 14
    ensures Sent(p, body).body == body
    ensures var q := Sent(p, body).properties;
            && (q.flags / BASIC[k].0 % 2 == 1 <==> p.flags / BASIC[k].0 % 2 == 1)
            && q.members[k] == if p.flags / BASIC[k].0 % 2 == 1 then p.members[k] else Uint(0)
    ensures CloneableProperties(p)
            <==> (p.flags / 0x2000 % 2 == 1 && p.members[2].Tab? ==> CloneableEntries(p.members[2].entries))
  {
    hide Flagged, Restored, CloneableEntries;
    BasicFormat(k, p.flags);
    BasicFormat(k, Restored(p.flags));
    FlaggedRestored(p.flags, k);
    BasicFormat(2, p.flags);
  }

  /** Publishing: basic.publish, then a header of class 60 with the size of the body, then fragments of it;
      all but the last fill a frame. */
  lemma PublishedFramesAre(cfg: Config, channel: nat, args: seq<Field>, p: PropertyList, body: Bytes)
    requires cfg.frameMax > 8
    ensures var frames := PublishFrames(cfg, channel, args, p, body);
            && |frames| >= 2
            && frames[0] == Method(channel, 0x003C_0028, args) && frames[1] == Header(channel, 60, |body|, p)
            && (forall k | 2 <= k < |frames| ::
                  frames[k].Body? && frames[k].channel == channel
                  && if k < |frames| - 1 then |frames[k].fragment| == cfg.frameMax - 8
                     else 0 < |frames[k].fragment| <= cfg.frameMax - 8)
            && Concat(frames[2..]) == body
  {
    var fragments := BodyFrames(channel, body, cfg.frameMax - 8);
    var frames := PublishFrames(cfg, channel, args, p, body);
    FragmentsOfBody(channel, body, cfg.frameMax - 8);
    assert frames[2..] == fragments;
    forall k | 2 <= k < |frames|
      ensures frames[k] == fragments[k - 2] && frames[k] in fragments
    {
    }
  }

  lemma {:induction false} DecodedFragments(channel: nat, body: Bytes, usable: nat)
    requires usable > 0
    ensures Decodings(BodyFrames(channel, body, usable)) == BodyFrames(channel, body, usable)
  {
    if |body| >= usable {
      DecodedFragments(channel, body[usable..], usable);
    } else if body != [] {
      assert [Body(channel, body)][1..] == [];
    }
  }

  lemma {:induction false} DecodingsAppend(a: seq<Frame>, b: seq<Frame>)
    ensures Decodings(a + b) == Decodings(a) + Decodings(b)
  {
    hide Decoding;
    if a == [] {
      assert a + b == b;
    } else {
      assert (a + b)[1..] == a[1..] + b;
      DecodingsAppend(a[1..], b);
    }
  }

  /** Decoding a frame does not move it to another channel or make a heartbeat of it. */
  lemma {:induction false} DecodingsOnChannel(frames: seq<Frame>, channel: nat)
    ensures OnChannel(WithoutHeartbeats(Decodings(frames)), channel)
            == Decodings(OnChannel(WithoutHeartbeats(frames), channel))
  {
    if frames != [] {
      var f, others := frames[0], frames[1..];
      DecodingsOnChannel(others, channel);
      var first := if f.Heartbeat? then [] else [f];
      WithoutHeartbeatsDecoded(f, others);
      ChannelAppend(first, WithoutHeartbeats(others), channel);
      ChannelAppend(Decodings(first), WithoutHeartbeats(Decodings(others)), channel);
      DecodingsAppend(OnChannel(first, channel), OnChannel(WithoutHeartbeats(others), channel));
      OneDecoding(f, channel);
    }
  }

  lemma WithoutHeartbeatsDecoded(f: Frame, others: seq<Frame>)
    ensures WithoutHeartbeats(Decodings([f] + others))
            == Decodings(if f.Heartbeat? then [] else [f]) + WithoutHeartbeats(Decodings(others))
  {
    hide Received;
    assert ([f] + others)[1..] == others && [f][1..] == [];
    var s := [Decoding(f)] + Decodings(others);
    assert s[1..] == Decodings(others);
  }

  lemma OneDecoding(f: Frame, channel: nat)
    ensures var first := if f.Heartbeat? then [] else [f];
            OnChannel(Decodings(first), channel) == Decodings(OnChannel(first, channel))
  {
    hide Received;
    assert [f][1..] == [] && [Decoding(f)][1..] == [];
  }

  lemma {:induction false} BasicDecodings(frames: seq<Frame>, channel: nat)
    requires BasicOnChannel(frames, channel)
    ensures BasicOnChannel(WithoutHeartbeats(Decodings(frames)), channel)
  {
    hide Received;
    if frames != [] {
      assert frames[0] in frames && forall f | f in frames[1..] :: f in frames;
      BasicDecodings(frames[1..], channel);
    }
  }

  lemma NothingOnChannel(channel: nat)
    ensures BasicOnChannel([], channel) && OnChannel([], channel) == []
  {
  }

  lemma {:induction false} BasicDemultiplexed(frames: seq<Frame>, channel: nat)
    requires BasicOnChannel(frames, channel)
    ensures forall f | f in OnChannel(frames, channel) :: BasicContent(f)
  {
    if frames != [] {
      assert frames[0] in frames && forall f | f in frames[1..] :: f in frames;
      BasicDemultiplexed(frames[1..], channel);
    }
  }

  /** What a channel by itself makes of the content of a message. */
  lemma ContentAssembles(cfg: Config, channel: nat, p: PropertyList, body: Bytes, more: seq<Frame>, end: Status)
    requires cfg.frameMax > 8 && |p.members| == |BASIC_PROPERTIES|
    requires forall f | f in Decodings(ContentFrames(cfg, channel, p, body)) + more :: BasicContent(f)
    ensures var r := AssembleMessage(Decodings(ContentFrames(cfg, channel, p, body)) + more, end);
            if CloneableProperties(p) then r == (Complete(Sent(p, body)), more)
            else r.0 == Rejected(InvalidParameter)
  {
    hide Received, Cloned, CloneableProperties, Assemble, BodyFrames, Decodings, ContentFrames;
    var fragments := BodyFrames(channel, body, cfg.frameMax - 8);
    DecodedContent(cfg, channel, p, body);
    ClonedReceived(p, Blank(BASIC_PROPERTIES));
    FragmentsAssemble(channel, body, cfg.frameMax - 8, more, end, |body|, []);
    assert [] + body == body;
    var frames := Decodings(ContentFrames(cfg, channel, p, body)) + more;
    assert frames[1..] == fragments + more;
  }

  lemma DecodedContent(cfg: Config, channel: nat, p: PropertyList, body: Bytes)
    requires cfg.frameMax > 8 && |p.members| == |BASIC_PROPERTIES|
    ensures Decodings(ContentFrames(cfg, channel, p, body))
            == [Header(channel, BASIC_CLASS, |body|, Received(p, Blank(BASIC_PROPERTIES)))]
               + BodyFrames(channel, body, cfg.frameMax - 8)
  {
    hide Received, BodyFrames;
    var header, fragments := Header(channel, BASIC_CLASS, |body|, p), BodyFrames(channel, body, cfg.frameMax - 8);
    DecodedFragments(channel, body, cfg.frameMax - 8);
    assert ([header] + fragments)[1..] == fragments;
  }

  /** The whole way. A peer sends any frames on any channels; those of one channel, the ones that have
      been queued already and the ones that are sent, are the content of a message and then `more`. Once
      they have been serialised and parsed, reading from that channel gives back the body and the flagged
      properties, and leaves `more`; properties are refused exactly when there is an empty key or an
      unknown kind among the headers. */
  lemma PublishedMessageIsRead(cfg: Config, queue: seq<Frame>, frames: seq<Frame>, channel: nat, p: PropertyList,
                               body: Bytes, more: seq<Frame>, partial: Bytes, end: Status)
    requires 20 <= cfg.frameMax <= INT32_MAX && |p.members| == |BASIC_PROPERTIES|
    requires forall k | 0 <= k < |frames| :: Fits(cfg, frames[k])
    requires OnChannel(queue, channel) + Decodings(OnChannel(WithoutHeartbeats(frames), channel))
             == Decodings(ContentFrames(cfg, channel, p, body) + more)
    requires ParseStream(cfg, partial).frames == []
    requires BasicOnChannel(queue, channel) && BasicOnChannel(frames, channel)
    ensures BasicOnChannel(WithoutHeartbeats(ParseStream(cfg, StreamBytes(cfg, frames) + partial).frames), channel)
    ensures var wire := WithoutHeartbeats(ParseStream(cfg, StreamBytes(cfg, frames) + partial).frames);
            var r := MessageFrom(queue, wire, end, channel);
            if CloneableProperties(p)
            then r.result == Complete(Sent(p, body)) && OnChannel(r.queue + r.wire, channel) == Decodings(more)
            else r.result == Rejected(InvalidParameter)
  {
    hide ParseStream, StreamBytes, Fits, CloneableProperties, MessageFrom, AssembleMessage, Decodings, OnChannel,
      ContentFrames, WithoutHeartbeats, BasicOnChannel;
    StreamRoundTrip(cfg, frames, partial);
    BasicDecodings(frames, channel);
    var wire := WithoutHeartbeats(ParseStream(cfg, StreamBytes(cfg, frames) + partial).frames);
    assert Decodings(frames) + [] == Decodings(frames);
    DecodingsOnChannel(frames, channel);
    ChannelAppend(queue, wire, channel);
    DecodingsAppend(ContentFrames(cfg, channel, p, body), more);
    MessageIsDemultiplexed(queue, wire, end, channel);
    ContentAssembles(cfg, channel, p, body, Decodings(more), end);
  }

  /** Every frame of a published message fits the frame size when its method and its header do. */
  lemma PublishedFramesFit(cfg: Config, channel: nat, args: seq<Field>, p: PropertyList, body: Bytes)
    requires cfg.frameMax > 8
    ensures AllEncoded(cfg, PublishFrames(cfg, channel, args, p, body))
            <==> Encoded(cfg, Method(channel, BASIC_PUBLISH_METHOD, args))
                 && Encoded(cfg, Header(channel, BASIC_CLASS, |body|, p))
  {
    hide PayloadBytes;
    var frames := PublishFrames(cfg, channel, args, p, body);
    var publish, header := Method(channel, BASIC_PUBLISH_METHOD, args), Header(channel, BASIC_CLASS, |body|, p);
    var fragments := BodyFrames(channel, body, cfg.frameMax - 8);
    assert frames == [publish] + ([header] + fragments);
    assert frames[0] == publish && frames[1] == header;
    forall f | f in fragments
      ensures Encoded(cfg, f)
    {
      BodyEncoded(cfg, f);
    }
  }

  lemma BodyEncoded(cfg: Config, f: Frame)
    requires f.Body? && |f.fragment| + 8 <= cfg.frameMax
    ensures Encoded(cfg, f)
  {
  }

  /** The content frames of a message fit the frame size when the header does. */
  lemma ContentFits(cfg: Config, channel: nat, p: PropertyList, body: Bytes)
    requires 20 <= cfg.frameMax <= INT32_MAX && channel < 0x1_0000 && |body| < 0x1_0000_0000_0000_0000
    requires Sendable(BASIC_PROPERTIES, p)
    ensures var frames := ContentFrames(cfg, channel, p, body);
            && (Encoded(cfg, frames[0]) ==> forall k | 0 <= k < |frames| :: Fits(cfg, frames[k]))
            && OnChannel(WithoutHeartbeats(frames), channel) == frames && BasicOnChannel(frames, channel)
  {
    hide PayloadBytes, Sendable;
    var header, fragments := Header(channel, BASIC_CLASS, |body|, p), BodyFrames(channel, body, cfg.frameMax - 8);
    SendableLength(BASIC_PROPERTIES, p);
    assert Encoded(cfg, header) ==> Fits(cfg, header);
    forall f | f in fragments
      ensures Fits(cfg, f)
    {
      BodyEncoded(cfg, f);
    }
    AllOnChannel([header] + fragments, channel);
  }

  lemma {:induction false} AllOnChannel(frames: seq<Frame>, channel: nat)
    requires forall f | f in frames :: f.channel == channel && !f.Heartbeat?
    ensures OnChannel(WithoutHeartbeats(frames), channel) == frames
  {
    if frames != [] {
      assert frames[0] in frames && forall f | f in frames[1..] :: f in frames;
      AllOnChannel(frames[1..], channel);
      assert frames == [frames[0]] + frames[1..];
    }
  }

  /** What one publisher sends, one consumer reads, provided the header fits one frame. */
  lemma PublishThenRead(cfg: Config, channel: nat, p: PropertyList, body: Bytes, end: Status)
    requires 20 <= cfg.frameMax <= INT32_MAX && channel < 0x1_0000 && |body| < 0x1_0000_0000_0000_0000
    requires |p.members| == |BASIC_PROPERTIES| && Sendable(BASIC_PROPERTIES, p)
    ensures var frames := ContentFrames(cfg, channel, p, body);
            var s := ParseStream(cfg, StreamBytes(cfg, frames));
            Encoded(cfg, frames[0]) ==>
            && s.end == Partial([]) && BasicOnChannel(WithoutHeartbeats(s.frames), channel)
            && MessageFrom([], WithoutHeartbeats(s.frames), end, channel).result
               == if CloneableProperties(p) then Complete(Sent(p, body)) else Rejected(InvalidParameter)
  {
    hide ParseFrame, StreamBytes, Fits, Sendable, Encoded, CloneableProperties, MessageFrom, Decodings, OnChannel,
      ContentFrames, WithoutHeartbeats, BasicOnChannel;
    ContentFits(cfg, channel, p, body);
    var frames := ContentFrames(cfg, channel, p, body);
    assert ParseStream(cfg, []) == Stream([], Partial([])) by {
      NothingParsed(cfg);
    }
    assert frames + [] == frames && StreamBytes(cfg, frames) + [] == StreamBytes(cfg, frames);
    if Encoded(cfg, frames[0]) {
      StreamRoundTrip(cfg, frames, []);
      NothingOnChannel(channel);
      assert [] + Decodings(frames) == Decodings(frames);
      PublishedMessageIsRead(cfg, [], frames, channel, p, body, [], [], end);
    }
  }

  /** A message whose headers have an empty key can be published, but its consumer rejects it. */
  lemma NamelessHeader()
    ensures var p := PropertyList(8192, Blank(BASIC_PROPERTIES)[HEADERS := Tab([Entry([], Void)])]);
            Sendable(BASIC_PROPERTIES, p) && !CloneableProperties(p)
  {
    hide IsSet;
    assert Pow2(13) == 8192 && BitIndex(HEADERS) == 13;
    forall k | 0 <= k < |BASIC_PROPERTIES|
      ensures Flagged(8192, k) <==> k == HEADERS
    {
      FlagsAreDistinct(HEADERS, k);
      OneBit(13, BitIndex(k));
    }
  }

  lemma NothingParsed(cfg: Config)
    ensures ParseFrame(cfg, []).Incomplete?
  {
  }
}
