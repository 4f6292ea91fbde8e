/** Reading messages: `amqp_consumer.c`. */
module Consumer {
  import opened Wire
  import opened Codegen
  import opened Properties
  import opened Capabilities
  import opened Frames
  import opened FrameParser
  import opened FrameQueue
  import opened FrameCodec
  import opened Framing
  import opened Outbound
  import opened Receiving
  import opened Demux
  import opened Content

  /** `amqp_basic_properties_clone`: one block of code per property, in the order of their flags. */
  method CloneProperties(original: PropertyList) returns (status: Status, clone: PropertyList)
    requires |original.members| == |BASIC_PROPERTIES|
    ensures status == if CloneableProperties(original) then Ok else InvalidParameter
    ensures status.Ok? ==> clone == Cloned(original)
  {
    hide Flagged, CloneableEntries;
    clone := PropertyList(original.flags, Blank(BASIC_PROPERTIES));
    for k := 0 to |BASIC_PROPERTIES|
      invariant clone.flags == original.flags && |clone.members| == |BASIC_PROPERTIES|
      invariant forall i | 0 <= i < |BASIC_PROPERTIES| ::
          clone.members[i] == if i < k then Cloned(original).members[i] else Uint(0)
      invariant k > HEADERS ==> CloneableProperties(original)
    {
      if Flagged(clone.flags, k) {
        var member := original.members[k];
        if k == HEADERS && member.Tab? {
          var entries;
          status, entries := CloneTable(member.entries);
          if !status.Ok? {
            return;
          }
          member := Tab(entries);
        }
        clone := clone.(members := clone.members[k := member]);
      }
    }
    status := Ok;
  }

  /** `amqp_read_message`. */
  method ReadMessage(conn: Connection, channel: nat) returns (r: Read<Message>)
    requires conn.Valid() && BasicOnChannel(conn.Queued(), channel) && BasicOnChannel(conn.Wire(), channel)
    modifies conn.Footprint()
    ensures forall o | o in conn.Footprint() :: o in old(conn.Footprint()) || fresh(o)
    ensures var m := MessageFrom(old(conn.Queued()), old(conn.Wire()), old(conn.End()), channel);
            && r == m.result && conn.Queued() == m.queue
            && (!r.Ended? ==> conn.Valid() && conn.Wire() == m.wire && conn.End() == old(conn.End()))
  {
    hide TakeNext, CloneableProperties, Cloned, BodyFrom;
    hide Connection.Valid, Connection.Queued, Connection.Wire, Connection.End, Connection.Footprint;
    TakeNextDecreases(conn.Queued(), conn.Wire(), channel);
    var status, taken := conn.WaitFrameOnChannel(channel);
    if !status.Ok? {
      return Ended(status);
    }
    var frame := taken.value;
    if !frame.Header? {
      if Closes(frame) {
        return Closed(frame);
      }
      conn.PutBack(frame);
      return Rejected(UnexpectedState);
    }
    var properties;
    status, properties := CloneProperties(frame.properties);
    if !status.Ok? {
      return Rejected(status);
    }
    var body := ReadBody(conn, channel, frame.bodySize);
    return WithProperties(properties, body);
  }

  /** The loop of `amqp_read_message`, which fills a buffer of the announced size. */
  method ReadBody(conn: Connection, channel: nat, size: nat) returns (r: Read<Bytes>)
    requires conn.Valid()
    modifies conn.Footprint()
    ensures forall o | o in conn.Footprint() :: o in old(conn.Footprint()) || fresh(o)
    ensures var m := BodyFrom(old(conn.Queued()), old(conn.Wire()), old(conn.End()), channel, size, []);
            && r == m.result && conn.Queued() == m.queue
            && (!r.Ended? ==> conn.Valid() && conn.Wire() == m.wire && conn.End() == old(conn.End()))
  {
    hide TakeNext, Closes;
    hide Connection.Valid, Connection.Queued, Connection.Wire, Connection.End;
    ghost var q, w, f := conn.Queued(), conn.Wire(), conn.Footprint();
    var body := new byte[size];
    var bodyRead: nat := 0;
    while bodyRead < size
      invariant conn.Valid() && bodyRead <= size && conn.End() == old(conn.End())
      invariant body !in conn.Footprint() && forall o | o in conn.Footprint() :: o in f || fresh(o)
      invariant BodyFrom(q, w, conn.End(), channel, size, [])
             == BodyFrom(conn.Queued(), conn.Wire(), conn.End(), channel, size, body[..bodyRead])
      decreases |conn.Queued()| + |conn.Wire()|
    {
      TakeNextDecreases(conn.Queued(), conn.Wire(), channel);
      var status, taken := conn.WaitFrameOnChannel(channel);
      if !status.Ok? {
        return Ended(status);
      }
      var frame := taken.value;
      if !frame.Body? {
        return if Closes(frame) then Closed(frame) else Rejected(BadAmqpData);
      }
      if bodyRead + |frame.fragment| > size {
        return Rejected(BadAmqpData);
      }
      CopyIn(body, bodyRead, frame.fragment);
      bodyRead := bodyRead + |frame.fragment|;
    }
    assert body[..size] == body[..];
    return Complete(body[..]);
  }

  /** `amqp_consume_message`. */
  method ConsumeMessage(conn: Connection) returns (r: Read<Envelope>)
    requires conn.Valid() && forall f | f in conn.Queued() + conn.Wire() :: BasicContent(f)
    modifies conn.Footprint()
    ensures forall o | o in conn.Footprint() :: o in old(conn.Footprint()) || fresh(o)
    ensures var m := EnvelopeFrom(old(conn.Queued()), old(conn.Wire()), old(conn.End()));
            && r == m.result && conn.Queued() == m.queue
            && (!r.Ended? ==> conn.Valid() && conn.Wire() == m.wire && conn.End() == old(conn.End()))
    ensures r.Complete? ==>
              var all := old(conn.Queued() + conn.Wire());
              && all != [] && all[0].Method? && all[0].id == 0x003C_003C
              && r.value.channel == all[0].channel && r.value.delivery == all[0].args
  {
    hide MessageFrom, BasicContent;
    hide Connection.Valid, Connection.Queued, Connection.Wire, Connection.End, Connection.Footprint;
    var status, taken := conn.WaitFrame();
    if !status.Ok? {
      return Ended(status);
    }
    var frame := taken.value;
    if !Delivers(frame) {
      conn.PutBack(frame);
      return Rejected(UnexpectedState);
    }
    var message := ReadMessage(conn, frame.channel);
    return InEnvelope(frame, message);
  }

  //////////////////////////////////////////////////////////////////////////////
  // From one connection to another
  //////////////////////////////////////////////////////////////////////////////

  /** `amqp_basic_publish` has returned `Ok`, however the socket behaved, and the octets of the content
      reach the connection of a consumer, in whatever chunks, of which some may have been read already.
      `amqp_read_message` then gives the message, whatever is queued for other channels. */
  lemma PublishedContentIsRead(conn: Connection, channel: nat, args: seq<Field>, p: PropertyList, body: Bytes,
                               before: Bytes, after: Bytes, attempts: seq<Attempt>, left: seq<Attempt>, taken: nat)
    requires conn.Valid() && conn.receiver.parser.state != Initial
    requires var cfg := conn.sender.cfg;
             && Transmitted(cfg, PublishFrames(cfg, channel, args, p, body), before, after, attempts, left, Ok, taken)
             && after == before + OrElse(FrameBytes(cfg, Method(channel, BASIC_PUBLISH_METHOD, args)))
                         + conn.receiver.Undecoded()
    requires FirstOn(conn.Queued(), channel) == |conn.Queued()|
    requires |p.members| == |BASIC_PROPERTIES| && Sendable(BASIC_PROPERTIES, p)
    requires channel < 0x1_0000 && |body| < 0x1_0000_0000_0000_0000
    ensures BasicOnChannel(conn.Queued(), channel) && BasicOnChannel(conn.Wire(), channel)
    ensures MessageFrom(conn.Queued(), conn.Wire(), conn.End(), channel).result
            == if CloneableProperties(p) then Complete(Content.Sent(p, body)) else Rejected(InvalidParameter)
  {
    hide FrameBytes, StreamBytes, Sendable, CloneableProperties, MessageFrom, KeepsWorking, Works, Takings, FirstOn,
      WithoutHeartbeats, AssembleMessage, OnChannel, ParseStream;
    var cfg, queue, wire := conn.sender.cfg, conn.Queued(), conn.Wire();
    ContentWasSent(cfg, channel, args, p, body, before, after, attempts, left, taken, conn.receiver.Undecoded());
    PublishThenRead(cfg, channel, p, body, conn.End());
    MessageIsDemultiplexed([], wire, conn.End(), channel);
    MessageIsDemultiplexed(queue, wire, conn.End(), channel);
    Skipped(queue, wire, channel);
    assert [] + wire == wire;
  }

  /** The content reaches the connection among other frames: frames of other channels come between its
      fragments and behind them, some of it may have been queued already, and the last frame may not be
      complete. The message is read all the same, and what follows on its channel is left. */
  lemma MultiplexedContentIsRead(conn: Connection, frames: seq<Frame>, partial: Bytes, channel: nat, p: PropertyList,
                                 body: Bytes, more: seq<Frame>)
    requires conn.Valid() && conn.receiver.parser.state != Initial
    requires var cfg := conn.sender.cfg;
             && 20 <= cfg.frameMax && (forall k | 0 <= k < |frames| :: Fits(cfg, frames[k]))
             && ParseStream(cfg, partial).frames == []
             && conn.receiver.Undecoded() == StreamBytes(cfg, frames) + partial
             && OnChannel(conn.Queued(), channel) + Decodings(OnChannel(WithoutHeartbeats(frames), channel))
                == Decodings(ContentFrames(cfg, channel, p, body) + more)
    requires BasicOnChannel(conn.Queued(), channel) && BasicOnChannel(frames, channel)
    requires |p.members| == |BASIC_PROPERTIES|
    ensures BasicOnChannel(conn.Wire(), channel)
    ensures var r := MessageFrom(conn.Queued(), conn.Wire(), conn.End(), channel);
            if CloneableProperties(p)
            then r.result == Complete(Content.Sent(p, body)) && OnChannel(r.queue + r.wire, channel) == Decodings(more)
            else r.result == Rejected(InvalidParameter)
  {
    hide StreamBytes, CloneableProperties, MessageFrom, WithoutHeartbeats, OnChannel, ParseStream, ContentFrames,
      BasicOnChannel, Fits, Decodings;
    PublishedMessageIsRead(conn.sender.cfg, conn.Queued(), frames, channel, p, body, more, partial, conn.End());
  }

  /** What follows the method frame of a publish that has succeeded are the content frames. */
  lemma ContentWasSent(cfg: Config, channel: nat, args: seq<Field>, p: PropertyList, body: Bytes, before: Bytes,
                       after: Bytes, attempts: seq<Attempt>, left: seq<Attempt>, taken: nat, content: Bytes)
    requires cfg.frameMax > 8
    requires Transmitted(cfg, PublishFrames(cfg, channel, args, p, body), before, after, attempts, left, Ok, taken)
    requires after == before + OrElse(FrameBytes(cfg, Method(channel, BASIC_PUBLISH_METHOD, args))) + content
    ensures content == StreamBytes(cfg, ContentFrames(cfg, channel, p, body))
    ensures Encoded(cfg, ContentFrames(cfg, channel, p, body)[0])
  {
    hide FrameBytes, Encoded, ContentFrames, KeepsWorking, Works, Takings, FittingPrefix;
    var publish, frames := Method(channel, BASIC_PUBLISH_METHOD, args), ContentFrames(cfg, channel, p, body);
    var all := [publish] + frames;
    assert all[1..] == frames && frames[0] == all[1] && all[1] in all;
    var stream := StreamBytes(cfg, all);
    assert stream[..|stream|] == stream;
    assert after[|before|..] == stream;
    assert content == stream[|OrElse(FrameBytes(cfg, publish))|..];
  }
}
