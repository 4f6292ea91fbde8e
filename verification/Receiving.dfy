/** Receiving: `consume_one_frame`, `recv_with_timeout` and `wait_frame_inner` of `amqp_socket.c`, on top
    of the frame parser. */
module Receiving {
  import opened Wire
  import opened Frames
  import opened FrameParser

  //////////////////////////////////////////////////////////////////////////////
  // What is still to come
  //////////////////////////////////////////////////////////////////////////////

  /** The frames a caller gets to see: heartbeats are dropped as they are read. */
  function WithoutHeartbeats(frames: seq<Frame>): (r: seq<Frame>)
    ensures forall f | f in r :: !f.Heartbeat?
  {
    if frames == [] then []
    else (if frames[0].Heartbeat? then [] else [frames[0]]) + WithoutHeartbeats(frames[1..])
  }

  lemma {:induction false} WithoutHeartbeatsAppend(a: seq<Frame>, b: seq<Frame>)
    ensures WithoutHeartbeats(a + b) == WithoutHeartbeats(a) + WithoutHeartbeats(b)
  {
    if a == [] {
      assert a + b == b;
    } else {
      assert (a + b)[1..] == a[1..] + b;
      WithoutHeartbeatsAppend(a[1..], b);
    }
  }

  /** The one-shot parse of `s` and then `t`, after the parser has looked at `s` once. */
  lemma ConnectionAdvances(cfg: Config, initial: bool, s: Bytes, t: Bytes)
    ensures var r := ParseInput(cfg, initial, s);
            ParseConnection(cfg, initial, s + t)
            == (if r.Incomplete? then ParseConnection(cfg, initial && |s| < 8, KeptInput(initial, s) + t)
                else if r.Failed? then Stream([], Broken(r.status))
                else if r.Underrun? then Stream([], TooShort)
                else Before(Shown(r.frame), ParseConnection(cfg, false, s[r.size..] + t)))
  {
    hide ParseFrame, ParseFirst, ParseInput, KeptInput, ParseConnection, ParseStream;
    ParseConnectionAppend(cfg, initial, s, t);
    ConnectionStep(cfg, initial, s);
    var r := ParseInput(cfg, initial, s);
    if r.Incomplete? {
      BeforeBefore([], [], ParseConnection(cfg, initial && |s| < 8, KeptInput(initial, s) + t));
    } else if r.Parsed? {
      var rest := s[r.size..];
      ParseConnectionAppend(cfg, false, rest, t);
      var tail := ParseConnection(cfg, false, rest);
      if tail.end.Partial? {
        BeforeBefore(Shown(r.frame), tail.frames, ParseConnection(cfg, false, tail.end.rest + t));
      }
    }
  }

  /** The receiving half of the connection state. */
  class Receiver {
    const parser: Parser

    /** The receive buffer with the part of it that is consumed, what `recv` will still return, and the
        status it returns after that. */
    var sockInbound: Bytes
    var sockOffset: nat
    var incoming: seq<Bytes>
    const endStatus: Status

    constructor (cfg: Config, incoming: seq<Bytes>, endStatus: Status)
      requires !endStatus.Ok? && !ParseConnection(cfg, true, Flatten(incoming)).end.TooShort?
      ensures Valid() && fresh(Footprint())
      ensures parser.cfg == cfg && Coming() == ParseConnection(cfg, true, Flatten(incoming))
    {
      parser := new Parser(cfg);
      this.sockInbound, this.sockOffset, this.incoming, this.endStatus := [], 0, incoming, endStatus;
      new;
      assert Undecoded() == Flatten(incoming);
    }

    /** The objects that receiving changes. */
    ghost function Footprint(): set<object>
      reads this, parser
    {
      {this, parser, parser.headerBuffer, parser.inbound}
    }

    ghost predicate InBounds()
      reads this, parser, parser.headerBuffer, parser.inbound
    {
      parser.inboundOffset <= parser.inbound.Length && sockOffset <= |sockInbound|
    }

    ghost predicate Valid()
      reads this, parser, parser.headerBuffer, parser.inbound
      ensures Valid() ==> InBounds()
    {
      parser.Valid() && InBounds() && !endStatus.Ok? && !Coming().end.TooShort?
    }

    /** Everything that has not been turned into frames yet. */
    ghost function Undecoded(): Bytes
      requires InBounds()
      reads this, parser, parser.headerBuffer, parser.inbound
    {
      (parser.Received() + sockInbound[sockOffset..]) + Flatten(incoming)
    }

    /** The frames that will be read, and how the stream will end. */
    ghost function Coming(): Stream
      requires InBounds()
      reads this, parser, parser.headerBuffer, parser.inbound
    {
      ParseConnection(parser.cfg, parser.state == Initial, Undecoded())
    }

    /** The frames that are still to be received. */
    ghost function Wire(): seq<Frame>
      requires InBounds()
      reads this, parser, parser.headerBuffer, parser.inbound
    {
      WithoutHeartbeats(Coming().frames)
    }

    /** The status that ends all waiting. */
    ghost function End(): Status
      requires InBounds()
      reads this, parser, parser.headerBuffer, parser.inbound
    {
      if Coming().end.Broken? then Coming().end.status else endStatus
    }

    /** `consume_one_frame`. */
    method ConsumeOneFrame() returns (status: Status, frame: Option<Frame>)
      requires Valid() && sockOffset < |sockInbound|
      modifies Footprint()
      ensures fresh(Footprint() - old(Footprint()))
      ensures status.Ok? ==>
        && Valid() && sockInbound == old(sockInbound) && sockOffset > old(sockOffset) && incoming == old(incoming)
        && old(Coming()) == Before(Shown(frame), Coming())
      ensures !status.Ok? ==> frame.None? && old(Coming()) == Stream([], Broken(status))
    {
      hide ParseInput, ParseConnection, KeptInput;
      ghost var initial, s, t := parser.state == Initial, parser.Received() + sockInbound[sockOffset..], Flatten(incoming);
      ConnectionAdvances(parser.cfg, initial, s, t);
      var r := parser.HandleInput(sockInbound[sockOffset..]);
      if r.Error? {
        return r.status, None;
      }
      sockOffset := sockOffset + r.n;
      status, frame := Ok, r.frame;
      if ParseInput(parser.cfg, initial, s).Incomplete? {
        assert parser.Received() + sockInbound[sockOffset..] == KeptInput(initial, s);
        BeforeBefore([], [], Coming());
      } else {
        assert parser.Received() + sockInbound[sockOffset..] == s[ParseInput(parser.cfg, initial, s).size..];
      }
    }

    /** `recv_with_timeout`, and that nothing changes but where the octets are. */
    method Receive() returns (status: Status)
      requires Valid() && sockOffset == |sockInbound|
      modifies this
      ensures Valid() && Coming() == old(Coming())
      ensures status.Ok? ==> |incoming| < |old(incoming)|
      ensures !status.Ok? ==> status == endStatus && Coming() == Stream([], Partial(parser.Received()))
    {
      hide ParseInput, ParseConnection, KeptInput, WithoutHeartbeats;
      ghost var before := Undecoded();
      if incoming == [] {
        assert Undecoded() == parser.Received();
        parser.NothingComplete();
        ConnectionStep(parser.cfg, parser.state == Initial, parser.Received());
        return endStatus;
      }
      sockInbound, sockOffset, incoming := incoming[0], 0, incoming[1..];
      assert Undecoded() == before;
      return Ok;
    }

    /** `wait_frame_inner`, heartbeats being disabled. */
    method WaitFrame() returns (status: Status, frame: Option<Frame>)
      requires Valid()
      modifies Footprint()
      ensures fresh(Footprint() - old(Footprint()))
      ensures status.Ok? <==> old(Wire()) != []
      ensures status.Ok? ==> Valid() && frame == Some(old(Wire())[0]) && Wire() == old(Wire())[1..] && End() == old(End())
      ensures !status.Ok? ==> status == old(End()) && frame.None?
    {
      hide ParseConnection;
      while true
        invariant Valid() && fresh(Footprint() - old(Footprint()))
        invariant Wire() == old(Wire()) && End() == old(End())
        decreases |incoming|, |sockInbound| - sockOffset
      {
        if sockOffset < |sockInbound| {
          ghost var coming := Coming();
          status, frame := ConsumeOneFrame();
          if !status.Ok? {
            return;
          }
          WithoutHeartbeatsAppend(Shown(frame), Coming().frames);
          if frame.Some? && !frame.value.Heartbeat? {
            return;
          }
        } else {
          status := Receive();
          if !status.Ok? {
            return status, None;
          }
        }
      }
    }
  }
}
