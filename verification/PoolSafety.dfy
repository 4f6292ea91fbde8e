/** Frames refer to memory of the pool of their channel, and pools are recycled wholesale. A state machine
    of everything that parses, queues, puts back, takes and releases, and that no frame in the queue, nor
    one that is being received, ever loses its memory. */
module PoolSafety {
  import opened Wire

  /** `amqp_connection_state_enum`; while the body of a frame is received, its buffer lies in the pool
      of its channel, and was allocated in some epoch of that pool. */
  datatype Phase = Initial | Idle | InHeader | InBody(channel: nat, epoch: nat)

  /** A queued frame: the epochs of its pool in which its buffer, and its copy and its link, were
      allocated. */
  datatype Queued = Queued(channel: nat, buffer: nat, link: nat)

  /** The state; `epochs` counts, for every pool there is, how often it was recycled. */
  datatype Memory = Memory(phase: Phase, queue: seq<Queued>, epochs: map<nat, nat>)

  const START: Memory := Memory(Initial, [], map[])

  /** What becomes of a frame when it is complete. */
  datatype Fate = ToCaller | ToQueue | PutBack | AsHeartbeat

  datatype Step =
    | SomeHeader
    | ProtocolHeader
    | HeaderDone(channel: nat)
    | BodyDone(fate: Fate)
    | TakeFirst(putBack: bool)
    | TakeOnChannel(channel: nat, putBack: bool)
    | Release(channel: nat)
    | ReleaseAll

  /** `amqp_get_or_create_channel_pool`. */
  function WithPool(s: Memory, channel: nat): (r: Memory)
    ensures channel in r.epochs
  {
    if channel in s.epochs then s else s.(epochs := s.epochs[channel := 0])
  }

  predicate IsQueued(s: Memory, channel: nat) {
    exists k | 0 <= k < |s.queue| :: s.queue[k].channel == channel
  }

  /** `amqp_maybe_release_buffers_on_channel`. */
  function Released(s: Memory, channel: nat): Memory {
    if s.phase.Idle? && !IsQueued(s, channel) && channel in s.epochs
    then s.(epochs := s.epochs[channel := s.epochs[channel] + 1])
    else s
  }

  /** `amqp_release_buffers`. */
  function AllReleased(s: Memory): Memory {
    if s.phase.Idle? then
      s.(epochs := map c | c in s.epochs :: if IsQueued(s, c) then s.epochs[c] else s.epochs[c] + 1)
    else s
  }

  /** The copy and the link of a frame are allocated in its pool as it is now. */
  function Linked(s: Memory, channel: nat, buffer: nat): Queued
    requires channel in s.epochs
  {
    Queued(channel, buffer, s.epochs[channel])
  }

  /** `amqp_put_back_frame`. */
  function PutBackFrame(s: Memory, channel: nat, buffer: nat): Memory {
    var t := WithPool(s, channel);
    t.(queue := [Linked(t, channel, buffer)] + t.queue)
  }

  /** `amqp_queue_frame`. */
  function EnqueueFrame(s: Memory, channel: nat, buffer: nat): Memory {
    var t := WithPool(s, channel);
    t.(queue := t.queue + [Linked(t, channel, buffer)])
  }

  /** The queue without its first `k + 1` frames; the last of them may be put back at once. */
  function Taken(s: Memory, k: nat, putBack: bool): Memory
    requires k < |s.queue|
  {
    var t := s.(queue := s.queue[k + 1..]);
    if putBack then PutBackFrame(t, s.queue[k].channel, s.queue[k].buffer) else t
  }

  /** A complete frame: its payload is decoded into the pool of its channel. */
  function Completed(s: Memory, channel: nat, buffer: nat, fate: Fate): Memory {
    var t := WithPool(s.(phase := Idle), channel);
    match fate
    case ToCaller => t
    case ToQueue => EnqueueFrame(t, channel, buffer)
    case PutBack => PutBackFrame(t, channel, buffer)
    case AsHeartbeat => Released(t, 0)
  }

  /** One step; a step that is not possible changes nothing. */
  function Next(s: Memory, step: Step): Memory {
    match step
    case SomeHeader => if s.phase.Idle? then s.(phase := InHeader) else s
    case ProtocolHeader => if s.phase.Initial? then s.(phase := Idle) else s
    case HeaderDone(channel) =>
      if s.phase.InBody? then s
      else
        var t := WithPool(s, channel);
        t.(phase := InBody(channel, t.epochs[channel]))
    case BodyDone(fate) => if s.phase.InBody? then Completed(s, s.phase.channel, s.phase.epoch, fate) else s
    case TakeFirst(putBack) => if s.queue == [] then s else Taken(s, 0, putBack)
    case TakeOnChannel(channel, putBack) =>
      var k := FirstWhere(s.queue, (q: Queued) => q.channel == channel);
      if k == |s.queue| then s else Taken(s, k, putBack)
    case Release(channel) => Released(s, channel)
    case ReleaseAll => AllReleased(s)
  }

  function Run(s: Memory, steps: seq<Step>): Memory
    decreases |steps|
  {
    if steps == [] then s else Run(Next(s, steps[0]), steps[1..])
  }

  lemma {:induction false} RunAppend(s: Memory, a: seq<Step>, b: seq<Step>)
    ensures Run(s, a + b) == Run(Run(s, a), b)
    decreases |a|
  {
    hide Next;
    if a == [] {
      assert a + b == b;
    } else {
      assert (a + b)[1..] == a[1..] + b;
      RunAppend(Next(s, a[0]), a[1..], b);
    }
  }

  lemma RunOne(s: Memory, step: Step)
    ensures Run(s, [step]) == Next(s, step) && Run(s, []) == s
  {
    hide Next;
    assert [step][1..] == [];
  }

  /** All memory of the frame is of the current epoch. */
  predicate Live(s: Memory, q: Queued) {
    q.channel in s.epochs && q.buffer == q.link == s.epochs[q.channel]
  }

  /** No frame has lost its memory. */
  predicate Safe(s: Memory) {
    && (forall k | 0 <= k < |s.queue| :: Live(s, s.queue[k]))
    && (s.phase.InBody? ==> s.phase.channel in s.epochs && s.phase.epoch == s.epochs[s.phase.channel])
  }

  lemma WithPoolSafe(s: Memory, channel: nat)
    requires Safe(s)
    ensures Safe(WithPool(s, channel))
  {
    assert forall k | 0 <= k < |s.queue| :: Live(s, s.queue[k]);
  }

  lemma ReleasedSafe(s: Memory, channel: nat)
    requires Safe(s)
    ensures Safe(Released(s, channel)) && Safe(AllReleased(s))
  {
    forall k | 0 <= k < |s.queue|
      ensures Live(Released(s, channel), s.queue[k]) && Live(AllReleased(s), s.queue[k])
    {
      assert Live(s, s.queue[k]);
    }
  }

  lemma TakenSafe(s: Memory, k: nat, putBack: bool)
    requires Safe(s) && k < |s.queue|
    ensures Safe(Taken(s, k, putBack))
  {
    assert Live(s, s.queue[k]);
    var rest := s.queue[k + 1..];
    assert forall i | 0 <= i < |rest| :: rest[i] == s.queue[k + 1 + i];
  }

  lemma CompletedSafe(s: Memory, fate: Fate)
    requires Safe(s) && s.phase.InBody?
    ensures Safe(Completed(s, s.phase.channel, s.phase.epoch, fate))
  {
    var t := WithPool(s.(phase := Idle), s.phase.channel);
    ReleasedSafe(t, 0);
  }

  /** Every step keeps the memory of every frame. */
  lemma NextSafe(s: Memory, step: Step)
    requires Safe(s)
    ensures Safe(Next(s, step))
  {
    hide Live, Released, AllReleased, Taken, Completed, WithPool;
    match step {
      case HeaderDone(channel) =>
        WithPoolSafe(s, channel);
        BeginSafe(WithPool(s, channel), channel);
      case BodyDone(fate) =>
        if s.phase.InBody? {
          CompletedSafe(s, fate);
        }
      case TakeFirst(putBack) =>
        if s.queue != [] {
          TakenSafe(s, 0, putBack);
        }
      case TakeOnChannel(channel, putBack) =>
        var k := FirstWhere(s.queue, (q: Queued) => q.channel == channel);
        if k < |s.queue| {
          TakenSafe(s, k, putBack);
        }
      case Release(channel) => ReleasedSafe(s, channel);
      case ReleaseAll => ReleasedSafe(s, 0);
      case _ => PhaseSafe(s);
    }
  }

  lemma BeginSafe(s: Memory, channel: nat)
    requires Safe(s) && channel in s.epochs
    ensures Safe(s.(phase := InBody(channel, s.epochs[channel])))
  {
    assert forall k | 0 <= k < |s.queue| :: Live(s, s.queue[k]);
  }

  lemma PhaseSafe(s: Memory)
    requires Safe(s)
    ensures Safe(s.(phase := InHeader)) && Safe(s.(phase := Idle))
  {
    assert forall k | 0 <= k < |s.queue| :: Live(s, s.queue[k]);
  }

  /** Over every run, no queued frame and no frame that is being received loses its memory. */
  lemma {:induction false} RunIsSafe(s: Memory, steps: seq<Step>)
    requires Safe(s)
    ensures Safe(Run(s, steps))
    decreases |steps|
  {
    hide Safe, Next;
    if steps != [] {
      NextSafe(s, steps[0]);
      RunIsSafe(Next(s, steps[0]), steps[1..]);
    }
  }

  lemma EveryRunIsSafe(steps: seq<Step>)
    ensures Safe(Run(START, steps))
  {
    RunIsSafe(START, steps);
  }

  /** The step recycles the pool of the channel: there is one, no frame of the channel is queued, and the
      caller releases the channel, or all of them, while no frame is being received; or a heartbeat has
      been received, and the channel is 0. */
  predicate Recycles(s: Memory, step: Step, channel: nat) {
    channel in s.epochs && !IsQueued(s, channel) &&
    match step
    case Release(c) => c == channel && s.phase.Idle?
    case ReleaseAll => s.phase.Idle?
    case BodyDone(fate) => fate.AsHeartbeat? && s.phase.InBody? && channel == 0
    case _ => false
  }

  /** Those are the steps that begin a new epoch of the pool; no other step changes its epoch. */
  lemma EpochAfterStep(s: Memory, step: Step, channel: nat)
    requires channel in s.epochs
    ensures channel in Next(s, step).epochs
    ensures Next(s, step).epochs[channel] == s.epochs[channel] + if Recycles(s, step, channel) then 1 else 0
  {
    match step {
      case BodyDone(fate) =>
      case _ =>
    }
  }

  /** A pool is recycled only when no frame of its channel is queued and none is being received. */
  lemma RecycledOnlyWhenFree(s: Memory, step: Step, channel: nat)
    requires channel in s.epochs && Next(s, step).epochs[channel] != s.epochs[channel]
    ensures !IsQueued(Next(s, step), channel) && Next(s, step).phase.Idle? && Next(s, step).queue == s.queue
  {
    EpochAfterStep(s, step, channel);
  }

  /** Some step of a run recycles the pool of the channel. */
  predicate RecycledDuring(s: Memory, steps: seq<Step>, channel: nat)
    decreases |steps|
  {
    steps != [] && (Recycles(s, steps[0], channel) || RecycledDuring(Next(s, steps[0]), steps[1..], channel))
  }

  /** The epoch of a pool tells whether it has been recycled. */
  lemma {:induction false} EpochAfterRun(s: Memory, steps: seq<Step>, channel: nat)
    requires channel in s.epochs
    ensures channel in Run(s, steps).epochs && Run(s, steps).epochs[channel] >= s.epochs[channel]
    ensures Run(s, steps).epochs[channel] == s.epochs[channel] <==> !RecycledDuring(s, steps, channel)
    decreases |steps|
  {
    hide Next, Recycles;
    if steps != [] {
      EpochAfterStep(s, steps[0], channel);
      EpochAfterRun(Next(s, steps[0]), steps[1..], channel);
    }
  }

  lemma PutBackSafeIff(s: Memory, channel: nat, buffer: nat)
    requires Safe(s) && channel in s.epochs
    ensures Safe(PutBackFrame(s, channel, buffer)) <==> buffer == s.epochs[channel]
  {
    var t := PutBackFrame(s, channel, buffer);
    assert t.queue[0] == Queued(channel, buffer, s.epochs[channel]);
    if buffer == s.epochs[channel] {
      forall k | 0 <= k < |t.queue|
        ensures Live(t, t.queue[k])
      {
        if k > 0 {
          assert Live(s, s.queue[k - 1]);
        }
      }
    }
    if buffer != s.epochs[channel] {
      assert !Live(t, t.queue[0]);
    }
  }

  /** After any run a caller takes a frame from the queue and keeps it; after any further run it may be
      put back exactly when no step of that run has recycled the pool of its channel. */
  lemma KeptFrameMayBePutBackIff(before: seq<Step>, k: nat, between: seq<Step>)
    requires k < |Run(START, before).queue|
    ensures var s := Run(START, before);
            var frame, t := s.queue[k], Taken(s, k, false);
            Safe(PutBackFrame(Run(t, between), frame.channel, frame.buffer)) <==> !RecycledDuring(t, between, frame.channel)
  {
    hide Next, Run, PutBackFrame, RecycledDuring;
    EveryRunIsSafe(before);
    var s := Run(START, before);
    var frame, t := s.queue[k], Taken(s, k, false);
    assert Live(s, frame);
    TakenSafe(s, k, false);
    RunIsSafe(t, between);
    EpochAfterRun(t, between, frame.channel);
    PutBackSafeIff(Run(t, between), frame.channel, frame.buffer);
  }

  /** The same for a frame that was handed to the caller as it was received. */
  lemma ReceivedFrameMayBePutBackIff(before: seq<Step>, between: seq<Step>)
    requires Run(START, before).phase.InBody?
    ensures var s := Run(START, before);
            var channel, buffer, t := s.phase.channel, s.phase.epoch, Next(s, BodyDone(ToCaller));
            Safe(PutBackFrame(Run(t, between), channel, buffer)) <==> !RecycledDuring(t, between, channel)
  {
    hide Run, PutBackFrame, RecycledDuring;
    EveryRunIsSafe(before);
    var s := Run(START, before);
    var t := Next(s, BodyDone(ToCaller));
    CompletedSafe(s, ToCaller);
    RunIsSafe(t, between);
    EpochAfterRun(t, between, s.phase.channel);
    PutBackSafeIff(Run(t, between), s.phase.channel, s.phase.epoch);
  }

  /** Receiving, queueing and taking frames recycles no pool but that of channel 0: only a release of the
      channel, or of all, does. */
  lemma {:induction false} OnlyReleasesRecycle(s: Memory, steps: seq<Step>, channel: nat)
    requires channel != 0 && Release(channel) !in steps && ReleaseAll !in steps
    ensures !RecycledDuring(s, steps, channel)
    decreases |steps|
  {
    hide Next;
    if steps != [] {
      assert steps[0] in steps;
      OnlyReleasesRecycle(Next(s, steps[0]), steps[1..], channel);
    }
  }

  /** So whatever the library does while a caller keeps a frame of such a channel, the frame has its memory
      and may be put back. */
  lemma KeptFrameIsSafe(before: seq<Step>, k: nat, between: seq<Step>)
    requires k < |Run(START, before).queue|
    requires var channel := Run(START, before).queue[k].channel;
             channel != 0 && Release(channel) !in between && ReleaseAll !in between
    ensures var s := Run(START, before);
            var frame, t := s.queue[k], Run(Taken(s, k, false), between);
            Live(t, frame) && Safe(PutBackFrame(t, frame.channel, frame.buffer))
  {
    hide Next, Run, PutBackFrame, RecycledDuring;
    var s := Run(START, before);
    var frame := s.queue[k];
    EveryRunIsSafe(before);
    assert Live(s, frame);
    KeptFrameMayBePutBackIff(before, k, between);
    OnlyReleasesRecycle(Taken(s, k, false), between, frame.channel);
    EpochAfterRun(Taken(s, k, false), between, frame.channel);
  }

  /** The same for a frame that was handed to the caller as it was received. */
  lemma ReceivedFrameIsSafe(before: seq<Step>, between: seq<Step>)
    requires Run(START, before).phase.InBody?
    requires var channel := Run(START, before).phase.channel;
             channel != 0 && Release(channel) !in between && ReleaseAll !in between
    ensures var s := Run(START, before);
            var channel, buffer, t := s.phase.channel, s.phase.epoch, Run(Next(s, BodyDone(ToCaller)), between);
            channel in t.epochs && t.epochs[channel] == buffer && Safe(PutBackFrame(t, channel, buffer))
  {
    hide Run, PutBackFrame, RecycledDuring;
    var s := Run(START, before);
    var channel, t := s.phase.channel, Next(s, BodyDone(ToCaller));
    EveryRunIsSafe(before);
    ReceivedFrameMayBePutBackIff(before, between);
    OnlyReleasesRecycle(t, between, channel);
    EpochAfterRun(t, between, channel);
  }

  /** A frame is received and queued; the caller takes it, releases its channel, and puts it back: its
      memory is lost. Releasing another channel does no harm. */
  lemma KeptFrameIsLost()
    ensures var s := Run(START, [HeaderDone(1), BodyDone(ToQueue)]);
            && s.queue == [Queued(1, 0, 0)]
            && !Safe(PutBackFrame(Run(Taken(s, 0, false), [Release(1)]), 1, 0))
            && Safe(PutBackFrame(Run(Taken(s, 0, false), [Release(2)]), 1, 0))
  {
    var s := Memory(Idle, [Queued(1, 0, 0)], map[1 := 0]);
    var begun := Memory(InBody(1, 0), [], map[1 := 0]);
    RunTwo(START, HeaderDone(1), BodyDone(ToQueue));
    assert Next(START, HeaderDone(1)) == begun && Next(begun, BodyDone(ToQueue)) == s;
    var t := Memory(Idle, [], map[1 := 0]);
    assert Taken(s, 0, false) == t;
    RunOne(t, Release(1));
    RunOne(t, Release(2));
    var released := t.(epochs := map[1 := 1]);
    assert Next(t, Release(1)) == released && Next(t, Release(2)) == t;
    PutBackSafeIff(released, 1, 0);
    PutBackSafeIff(t, 1, 0);
  }

  lemma RunTwo(s: Memory, first: Step, second: Step)
    ensures Run(s, [first, second]) == Next(Next(s, first), second)
  {
    assert [first, second][1..] == [second];
    RunOne(Next(s, first), second);
  }
}
