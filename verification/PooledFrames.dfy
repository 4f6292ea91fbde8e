/** The parser, the queue and the pools of a connection together: every operation on them is a step of
    the state machine of `PoolSafety`, so that what holds over its runs holds over theirs. */
module PooledFrames {
  import opened Wire
  import opened Frames
  import opened FrameParser
  import opened FrameQueue
  import opened Pools
  import opened ChannelPools
  import S = PoolSafety

  function ChannelField(s: Bytes): nat
    requires |s| >= HEADER_SIZE
  {
    Unbe(s[1..3])
  }

  /** What is allocated: the pages of a new pool, a link, a copy of a frame, and what it is decoded into. */
  datatype Sizes = Sizes(frameMax: nat, link: nat, frame: nat, decoded: nat) {
    predicate Small() {
      link < SIZE_MODULUS && frame < SIZE_MODULUS && decoded < SIZE_MODULUS
    }
  }

  lemma SizeIsSmall(s: Bytes)
    requires |s| >= HEADER_SIZE
    ensures SizeField(s) < UINT32_MODULUS
  {
    Pow256Values();
    BeUnbe(s[3..7]);
  }

  lemma WithPoolKeepsPhase(s: S.Memory, channel: nat)
    ensures S.WithPool(s, channel).phase == s.phase
  {
  }

  /** The phase of the machine and the state of the parser have the same name. */
  predicate SamePhase(state: State, phase: S.Phase) {
    match state
    case Initial => phase.Initial?
    case Idle => phase.Idle?
    case InHeader => phase.InHeader?
    case InBody => phase.InBody?
  }

  /** The phase of the machine is the state of the parser, and in it the channel of the frame that is
      being received. */
  ghost predicate PhaseMatches(state: State, received: Bytes, phase: S.Phase) {
    match state
    case Initial => phase.Initial?
    case Idle => phase.Idle?
    case InHeader => phase.InHeader?
    case InBody => phase.InBody? && |received| >= HEADER_SIZE && phase.channel == ChannelField(received)
  }

  ghost predicate QueueMatches(frames: seq<Frame>, queue: seq<S.Queued>) {
    |frames| == |queue| && forall k | 0 <= k < |frames| :: frames[k].channel == queue[k].channel
  }

  lemma FirstMatches(frames: seq<Frame>, queue: seq<S.Queued>, channel: nat)
    requires QueueMatches(frames, queue)
    ensures FirstOn(frames, channel) == FirstWhere(queue, (q: S.Queued) => q.channel == channel)
  {
    hide FirstOn;
    FirstOnIsUnique(frames, channel, FirstWhere(queue, (q: S.Queued) => q.channel == channel));
  }

  lemma QueuedMatches(frames: seq<Frame>, s: S.Memory, channel: nat)
    requires QueueMatches(frames, s.queue)
    ensures S.IsQueued(s, channel) <==> FirstOn(frames, channel) < |frames|
  {
    hide FirstOn;
    var k := FirstOn(frames, channel);
    if k < |frames| {
      assert s.queue[k].channel == channel;
    }
  }

  lemma ReleaseMatches(frames: seq<Frame>, s: S.Memory, channel: nat)
    requires QueueMatches(frames, s.queue)
    ensures S.Released(s, channel)
            == if s.phase.Idle? && FirstOn(frames, channel) == |frames| && channel in s.epochs
               then s.(epochs := s.epochs[channel := s.epochs[channel] + 1]) else s
  {
    hide FirstOn, S.IsQueued, QueueMatches;
    QueuedMatches(frames, s, channel);
  }

  lemma ReleaseAllMatches(frames: seq<Frame>, s: S.Memory)
    requires QueueMatches(frames, s.queue) && s.phase.Idle?
    ensures S.Next(s, S.ReleaseAll)
            == s.(epochs := RecycledWithout(s.epochs, frames))
  {
    hide FirstOn, S.IsQueued, QueueMatches;
    forall c ensures S.IsQueued(s, c) <==> FirstOn(frames, c) < |frames| {
      QueuedMatches(frames, s, c);
    }
  }

  lemma TakeMatches(frames: seq<Frame>, s: S.Memory, channel: nat, putBack: bool)
    requires QueueMatches(frames, s.queue)
    ensures var k := FirstOn(frames, channel);
            S.Next(s, S.TakeOnChannel(channel, putBack)) == if k == |frames| then s else S.Taken(s, k, putBack)
  {
    hide FirstOn, S.Taken;
    FirstMatches(frames, s.queue, channel);
  }

  lemma QueueGrows(frames: seq<Frame>, queue: seq<S.Queued>, f: Frame, q: S.Queued)
    requires QueueMatches(frames, queue) && f.channel == q.channel
    ensures QueueMatches(frames + [f], queue + [q]) && QueueMatches([f] + frames, [q] + queue)
  {
  }

  lemma PutBackKeepsPhase(s: S.Memory, channel: nat, buffer: nat)
    ensures S.PutBackFrame(s, channel, buffer).phase == s.phase
  {
  }

  /** What the steps of the header come to. */
  lemma AfterHeader(before: State, s: Bytes, frame: Option<Frame>, after: State, m: S.Memory)
    requires SamePhase(before, m.phase)
    ensures var started := if before == Idle then m.(phase := S.InHeader) else m;
            S.Run(m, HeaderSteps(before, s, frame, after))
            == if IsProtocolHeader(frame) then S.Next(started, S.ProtocolHeader)
               else if before != InBody && (after == Idle || after == InBody) && |s| >= HEADER_SIZE
               then var t := S.WithPool(started, ChannelField(s)); t.(phase := S.InBody(ChannelField(s), t.epochs[ChannelField(s)]))
               else started
    ensures var phase := S.Run(m, HeaderSteps(before, s, frame, after)).phase;
            if IsProtocolHeader(frame) then before == Initial ==> phase == S.Idle
            else if before != InBody && (after == Idle || after == InBody) && |s| >= HEADER_SIZE
            then phase.InBody? && phase.channel == ChannelField(s)
            else phase == if before == Idle then S.InHeader else m.phase
  {
    hide S.Run, Unbe;
    var start := if before == Idle then [S.SomeHeader] else [];
    var started := if before == Idle then S.Next(m, S.SomeHeader) else m;
    S.RunOne(m, S.SomeHeader);
    assert start + [] == start;
    var step := if IsProtocolHeader(frame) then S.ProtocolHeader else if |s| >= HEADER_SIZE then S.HeaderDone(ChannelField(s))
                else S.ProtocolHeader;
    S.RunOne(started, step);
    S.RunAppend(m, start, [step]);
  }

  /** The outcome of a call of the parser that is no error. */
  predicate InputDone(cfg: Config, before: State, received: Bytes, data: Bytes, frame: Option<Frame>, after: State,
                      kept: Bytes)
  {
    var s := received + data;
    && StateFits(before, |received|) && StateFits(after, |kept|)
    && match ParseInput(cfg, before == Initial, s)
       case Incomplete =>
         && frame.None? && kept == KeptInput(before == Initial, s)
         && (after == Initial <==> before == Initial && |s| < 8)
       case Parsed(parsed, _) => frame == parsed && after == Idle && kept == []
       case _ => false
  }

  /** After a call of the parser the phase of the machine is the state of the parser again. */
  lemma PhaseAfterInput(cfg: Config, before: State, received: Bytes, data: Bytes, frame: Option<Frame>, after: State,
                        kept: Bytes, m: S.Memory, fate: S.Fate)
    requires PhaseMatches(before, received, m.phase) && data != []
    requires InputDone(cfg, before, received, data, frame, after, kept)
    ensures frame.Some? ==> after == Idle
    ensures var s := received + data;
            && PhaseMatches(after, kept, S.Run(m, InputSteps(before, s, data, frame, after, fate)).phase)
            && (after == Idle && !IsProtocolHeader(frame) ==>
                  && |s| >= HEADER_SIZE && S.Run(m, HeaderSteps(before, s, frame, after)).phase.InBody?
                  && S.Run(m, HeaderSteps(before, s, frame, after)).phase.channel == ChannelField(s)
                  && (frame.Some? ==> frame.value.channel == ChannelField(s)))
  {
    hide S.Run, S.Next, HeaderSteps, Unbe, ParseFrame, S.Completed;
    var s := received + data;
    AfterHeader(before, s, frame, after, m);
    var headed := S.Run(m, HeaderSteps(before, s, frame, after));
    S.RunAppend(m, HeaderSteps(before, s, frame, after), BodySteps(frame, after, fate));
    S.RunOne(headed, S.BodyDone(if frame.Some? then fate else S.ToCaller));
    if |received| >= HEADER_SIZE {
      assert s[1..3] == received[1..3];
    }
    if ParseInput(cfg, before == Initial, s).Parsed? {
      ChannelIsParsed(cfg, before == Initial, s);
      OnlyFirstIsProtocolHeader(cfg, before == Initial, s);
      if headed.phase.InBody? {
        BodyDoneIsIdle(headed, if frame.Some? then fate else S.ToCaller);
      }
    } else if before == Initial && |s| >= 8 {
      assert Kept(s)[1..3] == s[1..3];
    }
  }

  lemma OnlyFirstIsProtocolHeader(cfg: Config, initial: bool, s: Bytes)
    requires ParseInput(cfg, initial, s).Parsed?
    ensures IsProtocolHeader(ParseInput(cfg, initial, s).frame) ==> initial
  {
    hide DecArguments, Unbe;
  }

  lemma BodyDoneIsIdle(s: S.Memory, fate: S.Fate)
    requires s.phase.InBody?
    ensures S.Next(s, S.BodyDone(fate)).phase == S.Idle
  {
  }

  /** The steps of the machine in one call of the parser, and in what is done with the frame. */
  function InputSteps(before: State, s: Bytes, data: Bytes, frame: Option<Frame>, after: State, fate: S.Fate): seq<S.Step> {
    if data == [] then []
    else HeaderSteps(before, s, frame, after) + BodySteps(frame, after, fate)
  }

  function HeaderSteps(before: State, s: Bytes, frame: Option<Frame>, after: State): seq<S.Step> {
    (if before == Idle then [S.SomeHeader] else [])
    + (if IsProtocolHeader(frame) then [S.ProtocolHeader]
       else if before != InBody && (after == Idle || after == InBody) && |s| >= HEADER_SIZE
       then [S.HeaderDone(ChannelField(s))]
       else [])
  }

  /** A header has been completed that is that of a frame. */
  predicate HasHeader(before: State, s: Bytes, frame: Option<Frame>, after: State) {
    !IsProtocolHeader(frame) && before != InBody && (after == Idle || after == InBody) && |s| >= HEADER_SIZE
  }

  /** The queue when a frame has been received. */
  function QueueAfter(queue: seq<Frame>, frame: Option<Frame>, fate: S.Fate): seq<Frame> {
    if frame.None? then queue
    else
      match fate
      case ToQueue => queue + [frame.value]
      case PutBack => [frame.value] + queue
      case _ => queue
  }

  function BodySteps(frame: Option<Frame>, after: State, fate: S.Fate): seq<S.Step> {
    if after == Idle && !IsProtocolHeader(frame) then [S.BodyDone(if frame.Some? then fate else S.ToCaller)] else []
  }

  predicate IsProtocolHeader(frame: Option<Frame>) {
    frame.Some? && frame.value.ProtocolHeader?
  }

  /** Parsing, and what becomes of the frame, is no release. */
  lemma InputReleasesNothing(before: State, s: Bytes, data: Bytes, frame: Option<Frame>, after: State, fate: S.Fate)
    ensures forall step | step in InputSteps(before, s, data, frame, after, fate) :: !step.Release? && !step.ReleaseAll?
  {
  }

  /** The channel of a frame is that of its header. */
  lemma ChannelIsParsed(cfg: Config, initial: bool, s: Bytes)
    requires ParseInput(cfg, initial, s).Parsed?
    ensures |s| >= HEADER_SIZE
    ensures var frame := ParseInput(cfg, initial, s).frame;
            frame.Some? && !frame.value.ProtocolHeader? ==> frame.value.channel == ChannelField(s)
  {
    hide DecArguments, Unbe;
    if initial {
      assert Kept(s)[1..3] == s[1..3];
    }
  }

  class Engine {
    const parser: Parser
    const queue: Queue
    const table: PoolTable
    ghost var memory: S.Memory

    /** Queue and pools are those of the machine. */
    ghost predicate Tied()
      reads this, queue, queue.links, table, table.buckets, table.pools.Values
    {
      && queue.Valid() && table.Valid() && table.AllValid()
      && QueueMatches(queue.Contents(), memory.queue) && memory.epochs == table.Epochs()
    }

    ghost predicate Valid()
      reads this, parser, parser.inbound, queue, queue.links, table, table.buckets, table.pools.Values
    {
      Tied() && parser.Valid() && PhaseMatches(parser.state, parser.Received(), memory.phase) && S.Safe(memory)
    }

    constructor (cfg: Config)
      ensures Valid() && memory == S.START && parser.cfg == cfg
    {
      parser := new Parser(cfg);
      queue := new Queue();
      table := new PoolTable();
      memory := S.START;
    }

    /** In a valid state the buffer, the copy and the link of every queued frame belong to the current
        epoch of the pool of its channel: that pool has not been recycled since they were allocated. */
    lemma QueuedFramesAreSafe(k: nat)
      requires Valid() && k < |queue.Contents()|
      ensures var channel := queue.Contents()[k].channel;
              && k < |memory.queue| && memory.queue[k].channel == channel && channel in table.pools
              && memory.queue[k].buffer == memory.queue[k].link == table.pools[channel].epoch
    {
      assert S.Live(memory, memory.queue[k]);
    }

    /** So does the buffer of a frame that is being received. */
    lemma ReceivedFrameIsSafe()
      requires Valid() && parser.state == InBody
      ensures |parser.Received()| >= HEADER_SIZE && ChannelField(parser.Received()) in table.pools
      ensures memory.phase.InBody? && memory.phase.epoch == table.pools[ChannelField(parser.Received())].epoch
    {
    }

    /** A frame that was taken at some point had its buffer in the epoch that its pool had then. Whatever has
        been parsed, queued and taken since, the pool is still in that epoch, unless the channel, or all of
        them, have been released. */
    lemma HeldFrameIsSafe(taken: S.Memory, steps: seq<S.Step>, channel: nat)
      requires Valid() && memory == S.Run(taken, steps) && channel in taken.epochs
      requires channel != 0 && S.Release(channel) !in steps && S.ReleaseAll !in steps
      ensures channel in table.pools && table.pools[channel].epoch == taken.epochs[channel]
    {
      S.OnlyReleasesRecycle(taken, steps, channel);
      S.EpochAfterRun(taken, steps, channel);
    }

    /** Memory from the pool of a channel, which is created if there is none. */
    method Allocate(channel: nat, frameMax: nat, amount: nat)
      requires Tied() && amount < SIZE_MODULUS
      modifies table, table.buckets, table.pools.Values, this`memory
      ensures Tied() && memory == S.WithPool(old(memory), channel)
      ensures fresh(table.pools.Values - old(table.pools.Values))
      ensures forall c :: table.Asked(c) == if c == channel then old(table.Asked(c)) + [amount] else old(table.Asked(c))
    {
      hide Pool.Valid, Queue.Valid, PoolTable.Valid, PoolTable.AllValid, PoolTable.Epochs, FramesOf;
      var _ := table.Allocate(channel, frameMax, amount);
      memory := S.WithPool(memory, channel);
    }

    /** `amqp_maybe_release_buffers_on_channel`, in a state of the parser. */
    method Free(state: State, channel: nat)
      requires Tied() && (state == Idle <==> memory.phase.Idle?)
      modifies table.pools.Values, this`memory
      ensures Tied() && memory == S.Released(old(memory), channel)
    {
      hide Pool.Valid, Queue.Valid, PoolTable.Valid, PoolTable.AllValid, PoolTable.Epochs, FramesOf, FirstOn, S.Released,
        QueueMatches;
      ReleaseMatches(queue.Contents(), memory, channel);
      table.MaybeReleaseOnChannel(state, queue, channel);
      memory := S.Released(memory, channel);
    }

    /** `amqp_maybe_release_buffers_on_channel`. */
    method Release(channel: nat)
      requires Valid()
      modifies table.pools.Values, this`memory
      ensures Valid() && memory == S.Next(old(memory), S.Release(channel))
    {
      hide Engine.Tied, Parser.Valid, S.Safe, S.IsQueued;
      S.NextSafe(memory, S.Release(channel));
      Free(parser.state, channel);
    }

    /** `amqp_release_buffers`. */
    method ReleaseAll()
      requires Valid() && parser.state == Idle
      modifies table.pools.Values, this`memory
      ensures Valid() && memory == S.Next(old(memory), S.ReleaseAll)
    {
      hide Pool.Valid, Queue.Valid, PoolTable.Valid, PoolTable.AllValid, PoolTable.Epochs, FramesOf, Parser.Valid, FirstOn,
        S.Next, S.Safe, QueueMatches;
      ReleaseAllMatches(queue.Contents(), memory);
      S.NextSafe(memory, S.ReleaseAll);
      table.ReleaseAll(queue);
      memory := S.Next(memory, S.ReleaseAll);
    }

    /** `amqp_create_link_for_frame`: the link and the copy of a frame, whose octets are in a buffer of an
        earlier epoch or of this one. */
    method CreateLink(channel: nat, sizes: Sizes)
      requires Tied() && sizes.Small()
      modifies table, table.buckets, table.pools.Values, this`memory
      ensures Tied() && memory == S.WithPool(old(memory), channel)
      ensures forall c :: table.Asked(c)
                          == if c == channel then old(table.Asked(c)) + [sizes.link, sizes.frame] else old(table.Asked(c))
    {
      hide Engine.Tied;
      Allocate(channel, sizes.frameMax, sizes.link);
      Allocate(channel, sizes.frameMax, sizes.frame);
    }

    lemma LinksAreNoPools()
      ensures table.pools.Values !! queue.Footprint() && table !in queue.Footprint() && table.buckets !in queue.Footprint()
      ensures this !in queue.Footprint() && queue in queue.Footprint()
      ensures forall l: object | l in queue.links :: l in queue.Footprint()
    {
    }

    /** `amqp_queue_frame`. */
    method Enqueue(frame: Frame, ghost buffer: nat, sizes: Sizes)
      requires Tied() && sizes.Small()
      modifies queue.Footprint(), table, table.buckets, table.pools.Values, this`memory
      ensures Tied()
      ensures memory == S.EnqueueFrame(old(memory), frame.channel, buffer)
      ensures queue.Contents() == old(queue.Contents()) + [frame]
      ensures forall c :: table.Asked(c) == if c == frame.channel then old(table.Asked(c)) + [sizes.link, sizes.frame]
                                            else old(table.Asked(c))
    {
      hide Pool.Valid, PoolTable.Valid, PoolTable.AllValid, PoolTable.Epochs, Queue.Valid, FramesOf, QueueMatches,
        Queue.Footprint;
      CreateLink(frame.channel, sizes);
      LinksAreNoPools();
      queue.Enqueue(frame);
      QueueGrows(old(queue.Contents()), memory.queue, frame, S.Linked(memory, frame.channel, buffer));
      memory := memory.(queue := memory.queue + [S.Linked(memory, frame.channel, buffer)]);
    }

    /** `amqp_put_back_frame`. */
    method PutBack(frame: Frame, ghost buffer: nat, sizes: Sizes)
      requires Tied() && sizes.Small()
      modifies queue, table, table.buckets, table.pools.Values, this`memory
      ensures Tied()
      ensures memory == S.PutBackFrame(old(memory), frame.channel, buffer)
      ensures queue.Contents() == [frame] + old(queue.Contents())
      ensures forall c :: table.Asked(c) == if c == frame.channel then old(table.Asked(c)) + [sizes.link, sizes.frame]
                                            else old(table.Asked(c))
    {
      hide Pool.Valid, PoolTable.Valid, PoolTable.AllValid, PoolTable.Epochs, Queue.Valid, FramesOf, QueueMatches;
      CreateLink(frame.channel, sizes);
      queue.PutBack(frame);
      QueueGrows(old(queue.Contents()), memory.queue, frame, S.Linked(memory, frame.channel, buffer));
      memory := memory.(queue := [S.Linked(memory, frame.channel, buffer)] + memory.queue);
    }

    /** A frame has just been taken out of the queue; it may be put back at once. */
    method Took(frame: Frame, ghost k: nat, putBack: bool, sizes: Sizes)
      requires k < |memory.queue| && QueueMatches(queue.Contents(), memory.queue[k + 1..])
      requires frame.channel == memory.queue[k].channel
      requires queue.Valid() && table.Valid() && table.AllValid() && memory.epochs == table.Epochs() && sizes.Small()
      modifies queue, table, table.buckets, table.pools.Values, this`memory
      ensures Tied() && memory == S.Taken(old(memory), k, putBack) && memory.phase == old(memory).phase
      ensures queue.Contents() == if putBack then [frame] + old(queue.Contents()) else old(queue.Contents())
    {
      hide Pool.Valid, PoolTable.Valid, PoolTable.AllValid, PoolTable.Epochs, Queue.Valid, FramesOf, QueueMatches,
        S.PutBackFrame;
      ghost var taken := memory.queue[k];
      memory := memory.(queue := memory.queue[k + 1..]);
      if putBack {
        PutBackKeepsPhase(memory, frame.channel, taken.buffer);
        PutBack(frame, taken.buffer, sizes);
      }
    }

    /** The head of the queue is taken, and put back at once if it is not what was wanted. */
    method TakeFirst(putBack: bool, sizes: Sizes) returns (frame: Option<Frame>)
      requires Valid() && sizes.Small()
      modifies queue, table, table.buckets, table.pools.Values, this`memory
      ensures Valid() && memory == S.Next(old(memory), S.TakeFirst(putBack))
      ensures frame == if old(queue.Contents()) == [] then None else Some(old(queue.Contents())[0])
      ensures queue.Contents()
              == if old(queue.Contents()) == [] || putBack then old(queue.Contents()) else old(queue.Contents())[1..]
    {
      hide Pool.Valid, PoolTable.Valid, PoolTable.AllValid, PoolTable.Epochs, Queue.Valid, FramesOf, Parser.Valid, S.Safe,
        S.Taken;
      S.NextSafe(memory, S.TakeFirst(putBack));
      frame := queue.Dequeue();
      if frame.Some? {
        Took(frame.value, 0, putBack, sizes);
      }
    }

    /** The same for the first frame of a channel, with which goes what was queued ahead of it. */
    method TakeOnChannel(channel: nat, putBack: bool, sizes: Sizes) returns (frame: Option<Frame>)
      requires Valid() && sizes.Small()
      modifies queue, table, table.buckets, table.pools.Values, this`memory
      ensures Valid() && memory == S.Next(old(memory), S.TakeOnChannel(channel, putBack))
      ensures var k := FirstOn(old(queue.Contents()), channel);
              if k == |old(queue.Contents())| then frame == None && queue.Contents() == old(queue.Contents())
              else
                && frame == Some(old(queue.Contents())[k])
                && queue.Contents() == (if putBack then [frame.value] else []) + old(queue.Contents())[k + 1..]
    {
      hide Pool.Valid, PoolTable.Valid, PoolTable.AllValid, PoolTable.Epochs, Queue.Valid, FramesOf, Parser.Valid, S.Safe,
        S.Taken, S.Next, FirstOn;
      S.NextSafe(memory, S.TakeOnChannel(channel, putBack));
      TakeMatches(queue.Contents(), memory, channel, putBack);
      ghost var k := FirstOn(queue.Contents(), channel);
      frame := queue.TakeOnChannel(channel);
      if frame.Some? {
        Took(frame.value, k, putBack, sizes);
      }
    }

    /** The buffer for a frame of which the header has arrived. */
    method TakeBuffer(s: Bytes, sizes: Sizes)
      requires Tied() && sizes.Small() && |s| >= HEADER_SIZE
      modifies table, table.buckets, table.pools.Values, this`memory
      ensures var t := S.WithPool(old(memory), ChannelField(s));
              Tied() && memory == t.(phase := S.InBody(ChannelField(s), t.epochs[ChannelField(s)]))
      ensures fresh(table.pools.Values - old(table.pools.Values))
      ensures forall c :: table.Asked(c)
                          == if c == ChannelField(s) then old(table.Asked(c)) + [SizeField(s) + 8] else old(table.Asked(c))
    {
      hide Pool.Valid, PoolTable.Valid, PoolTable.AllValid, PoolTable.Epochs, Queue.Valid, FramesOf, QueueMatches, Unbe;
      SizeIsSmall(s);
      Allocate(ChannelField(s), sizes.frameMax, SizeField(s) + HEADER_SIZE + FOOTER_SIZE);
      memory := memory.(phase := S.InBody(ChannelField(s), memory.epochs[ChannelField(s)]));
    }

    /** What `amqp_handle_input` does about memory when a header is complete: the buffer of the frame is
        allocated in the pool of its channel. */
    method BeginFrame(before: State, s: Bytes, frame: Option<Frame>, after: State, sizes: Sizes)
      requires Tied() && sizes.Small() && SamePhase(before, memory.phase)
      modifies table, table.buckets, table.pools.Values, this`memory
      ensures Tied() && memory == S.Run(old(memory), HeaderSteps(before, s, frame, after))
      ensures fresh(table.pools.Values - old(table.pools.Values))
      ensures forall c :: table.Asked(c)
                          == if HasHeader(before, s, frame, after) && c == ChannelField(s)
                             then old(table.Asked(c)) + [SizeField(s) + 8] else old(table.Asked(c))
    {
      hide Pool.Valid, PoolTable.Valid, PoolTable.AllValid, PoolTable.Epochs, Queue.Valid, FramesOf, QueueMatches, S.Run, Unbe,
        HeaderSteps;
      AfterHeader(before, s, frame, after, memory);
      if before == Idle {
        memory := memory.(phase := S.InHeader);
      }
      if IsProtocolHeader(frame) {
        memory := S.Next(memory, S.ProtocolHeader);
      } else if HasHeader(before, s, frame, after) {
        TakeBuffer(s, sizes);
      }
    }

    /** What is done about memory when a frame is complete: its payload is decoded into the pool of its
        channel, and then it is returned, queued, put back, or dropped as a heartbeat, upon which the
        pool of channel 0 may be released. */
    method EndFrame(channel: nat, frame: Option<Frame>, fate: S.Fate, sizes: Sizes)
      requires Tied() && sizes.Small() && memory.phase.InBody? && memory.phase.channel == channel
      requires frame.Some? ==> frame.value.channel == channel
      modifies queue.Footprint(), table, table.buckets, table.pools.Values, this`memory
      ensures Tied() && memory == S.Next(old(memory), S.BodyDone(if frame.Some? then fate else S.ToCaller))
      ensures queue.Contents() == QueueAfter(old(queue.Contents()), frame, fate)
      ensures frame.None? || !fate.AsHeartbeat? ==>
                forall c :: table.Asked(c)
                            == if c != channel then old(table.Asked(c))
                               else old(table.Asked(c)) + [sizes.decoded]
                                    + if frame.None? || fate.ToCaller? then [] else [sizes.link, sizes.frame]
    {
      hide Pool.Valid, PoolTable.Valid, PoolTable.AllValid, PoolTable.Epochs, Queue.Valid, FramesOf, QueueMatches,
        S.EnqueueFrame, S.PutBackFrame, S.Released, S.WithPool;
      ghost var buffer := memory.phase.epoch;
      memory := memory.(phase := S.Idle);
      Allocate(channel, sizes.frameMax, sizes.decoded);
      WithPoolKeepsPhase(old(memory).(phase := S.Idle), channel);
      if frame.Some? {
        match fate {
          case ToCaller =>
          case ToQueue => Enqueue(frame.value, buffer, sizes);
          case PutBack => PutBack(frame.value, buffer, sizes);
          case AsHeartbeat => Free(Idle, 0);
        }
      }
    }

    /** The call of the parser. */
    method Parse(data: Bytes) returns (r: Outcome)
      requires parser.Valid() && !ParseInput(parser.cfg, parser.state == Initial, parser.Received() + data).Underrun?
      modifies parser, parser.headerBuffer, parser.inbound
      ensures r.Consumed? ==>
                && parser.Valid()
                && InputDone(parser.cfg, old(parser.state), old(parser.Received()), data, r.frame, parser.state,
                             parser.Received())
    {
      hide ParseInput, KeptInput, StateFits;
      parser.StateOfReceived();
      r := parser.HandleInput(data);
      if r.Consumed? {
        parser.StateOfReceived();
      }
    }

    /** `amqp_handle_input`, and what is done with the frame. */
    method HandleInput(data: Bytes, fate: S.Fate, sizes: Sizes) returns (r: Outcome)
      requires Valid() && sizes.Small()
      requires !ParseInput(parser.cfg, parser.state == Initial, parser.Received() + data).Underrun?
      modifies parser, parser.headerBuffer, parser.inbound
      modifies queue.Footprint(), table, table.buckets, table.pools.Values, this`memory
      ensures r.Consumed? ==>
                && Valid()
                && memory == S.Run(old(memory), InputSteps(old(parser.state), old(parser.Received()) + data, data, r.frame,
                                                           parser.state, fate))
                && InputDone(parser.cfg, old(parser.state), old(parser.Received()), data, r.frame, parser.state,
                             parser.Received())
                && queue.Contents()
                   == if IsProtocolHeader(r.frame) then old(queue.Contents())
                      else QueueAfter(old(queue.Contents()), r.frame, fate)
    {
      hide ParseInput, Engine.Tied, S.Safe, S.Run, S.Next, HeaderSteps, Parser.Valid, InputDone, PhaseMatches, SamePhase,
        HasHeader, Queue.Valid, PoolTable.Asked, StateFits;
      parser.StateOfReceived();
      ghost var m, received := memory, parser.Received();
      var before, s := parser.state, parser.inbound[..parser.inboundOffset] + data;
      parser.NothingComplete();
      NothingArrived(parser.cfg, before, received, m.phase);
      r := Parse(data);
      if r.Error? {
        return;
      }
      ghost var steps := InputSteps(before, s, data, r.frame, parser.state, fate);
      parser.StateOfReceived();
      if data == [] {
        S.RunOne(m, S.SomeHeader);
        return;
      }
      PhaseAfterInput(parser.cfg, before, received, data, r.frame, parser.state, parser.Received(), m, fate);
      S.RunIsSafe(m, steps);
      Follow(before, s, r.frame, parser.state, fate, sizes);
    }

    /** What a call of the parser does to pools and queue. */
    method Follow(before: State, s: Bytes, frame: Option<Frame>, after: State, fate: S.Fate, sizes: Sizes)
      requires Tied() && sizes.Small() && SamePhase(before, memory.phase) && (frame.Some? ==> after == Idle)
      requires after == Idle && !IsProtocolHeader(frame) ==>
                 && |s| >= HEADER_SIZE && S.Run(memory, HeaderSteps(before, s, frame, after)).phase.InBody?
                 && S.Run(memory, HeaderSteps(before, s, frame, after)).phase.channel == ChannelField(s)
                 && (frame.Some? ==> frame.value.channel == ChannelField(s))
      modifies queue.Footprint(), table, table.buckets, table.pools.Values, this`memory
      ensures Tied() && memory == S.Run(old(memory), HeaderSteps(before, s, frame, after) + BodySteps(frame, after, fate))
      ensures queue.Contents()
              == if IsProtocolHeader(frame) then old(queue.Contents()) else QueueAfter(old(queue.Contents()), frame, fate)
    {
      hide Engine.Tied, S.Run, S.Next, HeaderSteps, HasHeader, Queue.Valid, PoolTable.Asked, SamePhase;
      S.RunAppend(memory, HeaderSteps(before, s, frame, after), BodySteps(frame, after, fate));
      BeginFrame(before, s, frame, after, sizes);
      S.RunOne(memory, S.BodyDone(if frame.Some? then fate else S.ToCaller));
      if after == Idle && !IsProtocolHeader(frame) {
        EndFrame(ChannelField(s), frame, fate, sizes);
      }
    }
  }

  /** A call without data changes nothing, and the phase has the name of the state. */
  lemma NothingArrived(cfg: Config, before: State, received: Bytes, phase: S.Phase)
    requires PhaseMatches(before, received, phase)
    requires ParseInput(cfg, before == Initial, received).Incomplete? && KeptInput(before == Initial, received) == received
    ensures SamePhase(before, phase)
    ensures forall frame, after, kept | InputDone(cfg, before, received, [], frame, after, kept) ::
              PhaseMatches(after, kept, phase) && frame.None?
  {
    hide ParseInput, KeptInput;
    assert received + [] == received;
  }
}
