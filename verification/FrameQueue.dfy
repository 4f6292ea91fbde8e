/** The queue of frames that arrived while something else was waited for: the linked list of
    `amqp_socket.c` with its head and tail pointers. */
module FrameQueue {
  import opened Wire
  import opened Frames

  /** `amqp_link_t` with the copy of the frame it points to. */
  class Link {
    const frame: Frame
    var next: Link?

    constructor (frame: Frame)
      ensures this.frame == frame && next == null
    {
      this.frame := frame;
      next := null;
    }
  }

  ghost function FramesOf(links: seq<Link>): (r: seq<Frame>)
    ensures |r| == |links| && forall i | 0 <= i < |links| :: r[i] == links[i].frame
  {
    seq(|links|, i requires 0 <= i < |links| => links[i].frame)
  }

  lemma FramesOfCons(link: Link, links: seq<Link>)
    ensures FramesOf([link] + links) == [link.frame] + FramesOf(links)
  {
  }

  /** The index of the first frame on the channel, or the number of frames. */
  function FirstOn(frames: seq<Frame>, channel: nat): (k: nat)
    ensures k <= |frames|
    ensures k < |frames| ==> frames[k].channel == channel
    ensures forall i | 0 <= i < k :: frames[i].channel != channel
  {
    FirstWhere(frames, (f: Frame) => f.channel == channel)
  }

  lemma FirstOnIsUnique(frames: seq<Frame>, channel: nat, k: nat)
    requires k <= |frames| && (k < |frames| ==> frames[k].channel == channel)
    requires forall i | 0 <= i < k :: frames[i].channel != channel
    ensures FirstOn(frames, channel) == k
  {
  }

  /** `first_queued_frame` and `last_queued_frame`. */
  class Queue {
    var first: Link?
    var last: Link?
    ghost var links: seq<Link>

    constructor ()
      ensures Valid() && Contents() == [] && fresh(Footprint())
    {
      first, last, links := null, null, [];
    }

    /** The links are reached from the head in order and end at the tail; both pointers are null
        exactly when there is none. */
    ghost predicate Valid()
      reads this, links
    {
      && (forall i, j | 0 <= i < j < |links| :: links[i] != links[j])
      && (links == [] ==> first == null && last == null)
      && (links != [] ==> first == links[0] && last == links[|links| - 1] && last.next == null)
      && (forall i {:trigger links[i].next} | 0 <= i < |links| - 1 :: links[i].next == links[i + 1])
    }

    /** The objects of the list. */
    ghost function Footprint(): set<object>
      reads this
    {
      {this} + (set l: object | l in links)
    }

    ghost function Contents(): seq<Frame>
      reads this
    {
      FramesOf(links)
    }

    /** `amqp_queue_frame`, and the same steps in `amqp_try_recv` and `simple_rpc_inner`. */
    method Enqueue(frame: Frame)
      requires Valid()
      modifies Footprint()
      ensures Valid() && fresh(Footprint() - old(Footprint()))
      ensures Contents() == old(Contents()) + [frame]
    {
      var link := new Link(frame);
      if first == null {
        first := link;
      } else {
        last.next := link;
      }
      last := link;
      links := links + [link];
    }

    /** `amqp_put_back_frame`. */
    method PutBack(frame: Frame)
      requires Valid()
      modifies this
      ensures Valid() && fresh(Footprint() - old(Footprint()))
      ensures Contents() == [frame] + old(Contents())
    {
      var link := new Link(frame);
      if first == null {
        first, last := link, link;
      } else {
        link.next := first;
        first := link;
      }
      FramesOfCons(link, links);
      links := [link] + links;
      hide FramesOf;
    }

    /** The dequeue of `amqp_simple_wait_frame_noblock`. */
    method Dequeue() returns (frame: Option<Frame>)
      requires Valid()
      modifies this
      ensures Valid() && Footprint() <= old(Footprint())
      ensures if old(Contents()) == [] then frame.None? && Contents() == []
              else frame == Some(old(Contents())[0]) && Contents() == old(Contents())[1..]
    {
      if first == null {
        return None;
      }
      frame := Some(first.frame);
      first := first.next;
      if first == null {
        last := null;
      }
      links := links[1..];
    }

    /** The queue is made to begin behind `cur`. */
    method CutAfter(cur: Link, ghost k: nat)
      requires Valid() && k < |links| && links[k] == cur
      modifies this
      ensures Valid() && Footprint() <= old(Footprint()) && links == old(links)[k + 1..]
      ensures Contents() == old(Contents())[k + 1..]
    {
      first := cur.next;
      if first == null {
        last := null;
      }
      links := links[k + 1..];
    }

    /** The search of `amqp_simple_wait_frame_on_channel`: the earliest frame of the channel is taken,
        and with it goes whatever was queued ahead of it. */
    method TakeOnChannel(channel: nat) returns (frame: Option<Frame>)
      requires Valid()
      modifies this
      ensures Valid() && Footprint() <= old(Footprint())
      ensures var k := FirstOn(old(Contents()), channel);
              if k == |old(Contents())| then frame.None? && Contents() == old(Contents())
              else frame == Some(old(Contents())[k]) && Contents() == old(Contents())[k + 1..]
    {
      var cur := first;
      ghost var k: nat := 0;
      while cur != null
        invariant k <= |links| && cur == if k < |links| then links[k] else null
        invariant forall i | 0 <= i < k :: links[i].frame.channel != channel
        decreases |links| - k
      {
        if cur.frame.channel == channel {
          FirstOnIsUnique(Contents(), channel, k);
          frame := Some(cur.frame);
          CutAfter(cur, k);
          return;
        }
        cur := cur.next;
        k := k + 1;
      }
      FirstOnIsUnique(Contents(), channel, k);
      return None;
    }
  }
}
