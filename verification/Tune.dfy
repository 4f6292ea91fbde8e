/** The negotiation of limits in `amqp_login_inner`, and `amqp_tune_connection`. */
module Tune {
  import opened Wire
  import opened Frames
  import opened FrameCodec
  import opened Outbound

  const UINT16_MAX: nat := 65535

  /** channel-max, frame-max and heartbeat, as one side asks for them or as they are agreed on; 0 stands
      for no limit. */
  datatype Limits = Limits(channelMax: nat, frameMax: nat, heartbeat: nat)

  /** `agreed` is a limit that neither side exceeds. */
  predicate Within(agreed: nat, client: nat, server: nat) {
    (client != 0 ==> 0 < agreed <= client) && (server != 0 ==> 0 < agreed <= server)
  }

  /** What the client settles on after connection.tune. */
  function Agreed(client: Limits, server: Limits): Limits {
    Limits(
      if server.channelMax != 0 && (server.channelMax < client.channelMax || client.channelMax == 0) then server.channelMax
      else if server.channelMax == 0 && client.channelMax == 0 then UINT16_MAX
      else client.channelMax,
      if server.frameMax != 0 && server.frameMax < client.frameMax then server.frameMax else client.frameMax,
      if server.heartbeat != 0 && server.heartbeat < client.heartbeat then server.heartbeat else client.heartbeat)
  }

  /** The agreed number of channels is always a limit within those of both sides. The agreed frame size
      is one exactly when the client asks for a limit or the server does not: a client that asks for
      none ignores that of the server. A client without heartbeats stays without. */
  lemma AgreedIsWithin(client: Limits, server: Limits)
    ensures var a := Agreed(client, server);
            && a.channelMax > 0 && Within(a.channelMax, client.channelMax, server.channelMax)
            && (Within(a.frameMax, client.frameMax, server.frameMax) <==> client.frameMax != 0 || server.frameMax == 0)
            && (client.heartbeat == 0 ==> a.heartbeat == 0)
            && (client.heartbeat != 0 ==> Within(a.heartbeat, client.heartbeat, server.heartbeat))
  {
  }

  /** Some logins: without limits for channels and heartbeats, to a server that has both; with limits above
      and below those of the server; and to a server without any. */
  lemma AgreedSamples()
    ensures Agreed(Limits(0, 131072, 0), Limits(2047, 131072, 60)) == Limits(2047, 131072, 0)
    ensures Agreed(Limits(100, 8192, 30), Limits(50, 4096, 10)) == Limits(50, 4096, 10)
    ensures Agreed(Limits(50, 4096, 10), Limits(100, 8192, 30)) == Limits(50, 4096, 10)
    ensures Agreed(Limits(50, 4096, 10), Limits(0, 0, 0)) == Limits(50, 4096, 10)
    ensures Agreed(Limits(0, 4096, 10), Limits(0, 0, 0)) == Limits(65535, 4096, 10)
  {
  }

  /** The server's frame size of 4096 is lost on a client that asks for none. */
  lemma ServerLimitIgnored()
    ensures var a := Agreed(Limits(0, 0, 0), Limits(2047, 4096, 60));
            a == Limits(2047, 0, 0) && !Within(a.frameMax, 0, 4096)
  {
  }

  /** The agreed limits are the greatest ones within those of both sides. */
  lemma AgreedIsGreatest(client: Limits, server: Limits, n: nat)
    requires n > 0
    ensures Within(n, client.channelMax, server.channelMax) && n <= UINT16_MAX ==> n <= Agreed(client, server).channelMax
    ensures client.frameMax != 0 && Within(n, client.frameMax, server.frameMax) ==> n <= Agreed(client, server).frameMax
    ensures client.heartbeat != 0 && Within(n, client.heartbeat, server.heartbeat) ==> n <= Agreed(client, server).heartbeat
  {
  }

  /** The smallest frame size that either side may ask for. */
  const FRAME_MIN_SIZE: nat := 4096

  const INITIAL_FRAME_SIZE: nat := 65536

  /** The fields of `amqp_connection_state_t` that are tuned. */
  class Tuning {
    var channelMax: int
    var frameMax: int
    var heartbeat: int
    var outboundLength: int
    var outboundBytes: array<byte>

    /** `amqp_new_connection` tunes a connection to its initial frame size and no other limit. */
    constructor ()
      ensures channelMax == heartbeat == 0 && fresh(outboundBytes)
      ensures frameMax == outboundLength == outboundBytes.Length == INITIAL_FRAME_SIZE
    {
      channelMax, frameMax, heartbeat, outboundLength := 0, INITIAL_FRAME_SIZE, 0, INITIAL_FRAME_SIZE;
      outboundBytes := new byte[INITIAL_FRAME_SIZE](_ => 0);
    }

    /** `realloc`: what fits is kept. More octets than `size_t` can hold are refused; so may no octets
        be, which is left to the C library. */
    method Reallocate(length: int, noneIsRefused: bool) returns (bytes: Option<array<byte>>)
      ensures bytes.None? <==> length < 0 || (length == 0 && noneIsRefused)
      ensures bytes.Some? ==> fresh(bytes.value) && bytes.value.Length == length
      ensures bytes.Some? ==>
                forall k | 0 <= k < length && k < outboundBytes.Length :: bytes.value[k] == outboundBytes[k]
    {
      if length < 0 || (length == 0 && noneIsRefused) {
        return None;
      }
      var old_ := outboundBytes;
      var newbuf := new byte[length](k reads old_ => if 0 <= k < old_.Length then old_[k] else 0);
      return Some(newbuf);
    }

    /** `amqp_tune_connection`: the limits are set even if there is no memory for the send buffer. */
    method TuneConnection(channelMax: int, frameMax: int, heartbeat: int, noneIsRefused: bool) returns (status: Status)
      modifies this
      ensures status == if frameMax < 0 || (frameMax == 0 && noneIsRefused) then NoMemory else Ok
      ensures this.channelMax == channelMax && this.frameMax == outboundLength == frameMax
      ensures this.heartbeat == if heartbeat < 0 then 0 else heartbeat
      ensures if status.Ok? then fresh(outboundBytes) && outboundBytes.Length == outboundLength
              else outboundBytes == old(outboundBytes)
      ensures forall k | 0 <= k < outboundBytes.Length && k < old(outboundBytes).Length ::
                outboundBytes[k] == old(outboundBytes[k])
    {
      this.channelMax := channelMax;
      this.frameMax := frameMax;
      this.heartbeat := heartbeat;
      if 0 > this.heartbeat {
        this.heartbeat := 0;
      }
      outboundLength := frameMax;
      var newbuf := Reallocate(frameMax, noneIsRefused);
      if newbuf.None? {
        return NoMemory;
      }
      outboundBytes := newbuf.value;
      return Ok;
    }

    /** The part of `amqp_login_inner` from the checks and connection.tune to connection.tune-ok: nothing
        is tuned when a parameter is out of range, and otherwise everything is as agreed, except that
        there may be no send buffer for a client that asks for a frame size of 0. */
    method Login(channelMax: int, frameMax: int, heartbeat: int, server: Limits, noneIsRefused: bool)
      returns (status: Status)
      modifies this
      ensures status == if channelMax < 0 || channelMax > 65535 || frameMax < 0 || heartbeat < 0 || heartbeat > 65535
                        then InvalidParameter
                        else if frameMax == 0 && noneIsRefused then NoMemory
                        else Ok
      ensures if status.InvalidParameter? then unchanged(this)
              else var a := Agreed(Limits(channelMax, frameMax, heartbeat), server);
                   this.channelMax == a.channelMax && this.frameMax == a.frameMax && this.heartbeat == a.heartbeat
      ensures status.Ok? ==> fresh(outboundBytes) && outboundBytes.Length == outboundLength == this.frameMax
      ensures status.Ok? && frameMax != 0 ==>
                && Within(outboundBytes.Length, frameMax, server.frameMax)
                && (frameMax >= FRAME_MIN_SIZE && (server.frameMax == 0 || server.frameMax >= FRAME_MIN_SIZE) ==>
                      outboundBytes.Length >= FRAME_MIN_SIZE)
    {
      if channelMax < 0 || channelMax > UINT16_MAX || frameMax < 0 || heartbeat < 0 || heartbeat > UINT16_MAX {
        return InvalidParameter;
      }
      var clientChannelMax, clientFrameMax, clientHeartbeat := channelMax, frameMax, heartbeat;
      if server.channelMax != 0 && (server.channelMax < clientChannelMax || clientChannelMax == 0) {
        clientChannelMax := server.channelMax;
      } else if server.channelMax == 0 && clientChannelMax == 0 {
        clientChannelMax := UINT16_MAX;
      }
      if server.frameMax != 0 && server.frameMax < clientFrameMax {
        clientFrameMax := server.frameMax;
      }
      if server.heartbeat != 0 && server.heartbeat < clientHeartbeat {
        clientHeartbeat := server.heartbeat;
      }
      status := TuneConnection(clientChannelMax, clientFrameMax, clientHeartbeat, noneIsRefused);
    }
  }

  /** After a login no frame that is sent exceeds the limit of either side, whatever is published and
      however far the sending gets. */
  lemma SentIsWithinLimits(schema: Schema, client: Limits, server: Limits, frames: seq<Frame>, before: Bytes, after: Bytes,
                           attempts: seq<Attempt>, left: seq<Attempt>, status: Status, taken: nat)
    requires client.frameMax != 0
    requires var cfg := Config(Agreed(client, server).frameMax, schema);
             Transmitted(cfg, frames, before, after, attempts, left, status, taken)
    ensures var cfg := Config(Agreed(client, server).frameMax, schema);
            var sent := FittingPrefix(cfg, frames);
            && after <= before + StreamBytes(cfg, sent)
            && forall f | f in sent :: FrameBytes(cfg, f).Some? && |FrameBytes(cfg, f).value| <= client.frameMax
                 && (server.frameMax != 0 ==> |FrameBytes(cfg, f).value| <= server.frameMax)
  {
    hide StreamBytes, FittingPrefix, FrameBytes, KeepsWorking, Works, Takings;
    var cfg := Config(Agreed(client, server).frameMax, schema);
    AgreedIsWithin(client, server);
    FittingIsPrefix(cfg, frames);
    var stream, sent := StreamBytes(cfg, frames), StreamBytes(cfg, FittingPrefix(cfg, frames));
    assert stream[..taken] == sent[..taken];
  }

  lemma {:induction false} FittingIsPrefix(cfg: Config, frames: seq<Frame>)
    ensures StreamBytes(cfg, FittingPrefix(cfg, frames)) <= StreamBytes(cfg, frames)
  {
    hide FrameBytes, Encoded;
    if frames != [] && Encoded(cfg, frames[0]) {
      FittingIsPrefix(cfg, frames[1..]);
      assert ([frames[0]] + FittingPrefix(cfg, frames[1..]))[1..] == FittingPrefix(cfg, frames[1..]);
    }
  }
}
