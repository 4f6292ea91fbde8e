/** The table of channel pools, and when a pool is recycled: `amqp_get_or_create_channel_pool` and
    `amqp_maybe_release_buffers_on_channel`. */
module ChannelPools {
  import opened Pools
  import opened Frames
  import opened FrameParser
  import opened FrameQueue

  /** `amqp_pool_table_entry_t`; an entry does not change once it is linked. */
  datatype Chain = End | Entry(channel: nat, pool: Pool, next: Chain)

  const POOL_TABLE_SIZE: nat := 16

  ghost function Find(chain: Chain, channel: nat): Pool? {
    match chain
    case End => null
    case Entry(c, pool, next) => if c == channel then pool else Find(next, channel)
  }

  /** All channels of the chain belong into bucket `index`, and none is there twice. */
  ghost predicate WellPlaced(chain: Chain, index: nat) {
    chain.Entry? ==>
      chain.channel % POOL_TABLE_SIZE == index && Find(chain.next, chain.channel) == null && WellPlaced(chain.next, index)
  }

  /** How often pools were recycled, after all those without a queued frame have been once more. */
  function RecycledWithout(epochs: map<nat, nat>, queue: seq<Frame>): map<nat, nat> {
    map c | c in epochs :: if FirstOn(queue, c) == |queue| then epochs[c] + 1 else epochs[c]
  }

  /** The pool table of a connection. */
  class PoolTable {
    const buckets: array<Chain>
    ghost var pools: map<nat, Pool>

    constructor ()
      ensures Valid() && pools == map[] && fresh(buckets)
    {
      buckets := new Chain[POOL_TABLE_SIZE](_ => End);
      pools := map[];
    }

    /** The table is the map `pools`: one pool to a channel, one channel to a pool. */
    ghost predicate Valid()
      reads this, buckets
    {
      && buckets.Length == POOL_TABLE_SIZE
      && (forall i | 0 <= i < POOL_TABLE_SIZE :: WellPlaced(buckets[i], i))
      && (forall channel: nat ::
            Find(buckets[channel % POOL_TABLE_SIZE], channel) == if channel in pools then pools[channel] else null)
      && (forall c, d | c in pools && d in pools && c != d :: pools[c] != pools[d])
    }

    ghost predicate AllValid()
      reads this, pools.Values
    {
      forall channel | channel in pools :: pools[channel].Valid()
    }

    /** How often each pool was recycled. */
    ghost function Epochs(): map<nat, nat>
      reads this, pools.Values
    {
      map c | c in pools :: pools[c].epoch
    }

    /** What the pool of a channel was asked for since it was recycled. */
    ghost function Asked(channel: nat): seq<nat>
      reads this, pools.Values
    {
      if channel in pools then pools[channel].amounts else []
    }

    /** `amqp_get_channel_pool`. */
    method Get(channel: nat) returns (pool: Pool?)
      requires Valid()
      ensures pool == if channel in pools then pools[channel] else null
    {
      var entry := buckets[channel % POOL_TABLE_SIZE];
      while entry.Entry?
        invariant Find(entry, channel) == if channel in pools then pools[channel] else null
        decreases entry
      {
        if entry.channel == channel {
          return entry.pool;
        }
        entry := entry.next;
      }
      return null;
    }

    /** `amqp_get_or_create_channel_pool`; the pages of a new pool have the frame size that the connection
        has at the time. */
    method GetOrCreate(channel: nat, frameMax: nat) returns (pool: Pool)
      requires Valid()
      modifies this, buckets
      ensures Valid()
      ensures if channel in old(pools) then pools == old(pools) && pool == pools[channel]
              else pools == old(pools)[channel := pool] && fresh(pool) && pool.Valid() && pool.amounts == [] && pool.epoch == 0
                   && pool.pagesize == if frameMax != 0 then frameMax else 4096
      ensures old(AllValid()) ==> AllValid()
      ensures Epochs() == if channel in old(Epochs()) then old(Epochs()) else old(Epochs())[channel := 0]
    {
      hide Pool.Valid, PoolTable.Valid;
      var found := Get(channel);
      if found != null {
        return found;
      }
      pool := Create(channel, frameMax);
    }

    /** The part of it that links a new entry. */
    method Create(channel: nat, frameMax: nat) returns (pool: Pool)
      requires Valid() && channel !in pools
      modifies this, buckets
      ensures Valid() && pools == old(pools)[channel := pool] && fresh(pool)
      ensures pool.Valid() && pool.amounts == [] && pool.epoch == 0
      ensures pool.pagesize == if frameMax != 0 then frameMax else 4096
    {
      hide Pool.Valid;
      pool := new Pool(frameMax);
      var index := channel % POOL_TABLE_SIZE;
      buckets[index] := Entry(channel, pool, buckets[index]);
      pools := pools[channel := pool];
    }

    /** The pool has been recycled: nothing in it is in use, and it has kept its pages. */
    twostate predicate Recycled(pool: Pool)
      reads pool
    {
      pool.Valid() && pool.amounts == [] && pool.pages == old(pool.pages) && pool.epoch == old(pool.epoch) + 1
    }

    /** No frame of the channel is queued. */
    static ghost predicate NotQueued(queue: Queue, channel: nat)
      reads queue
    {
      FirstOn(queue.Contents(), channel) == |queue.Contents()|
    }

    /** `amqp_maybe_release_buffers_on_channel`: the pool of the channel is recycled exactly when the
        parser is idle and no frame of the channel is queued, and no other pool is. */
    method MaybeReleaseOnChannel(state: State, queue: Queue, channel: nat)
      requires Valid() && AllValid() && queue.Valid()
      modifies pools.Values
      ensures AllValid()
      ensures forall c | c in pools ::
                if c == channel && state == Idle && NotQueued(queue, c) then Recycled(pools[c]) else unchanged(pools[c])
      ensures Epochs() == if state == Idle && NotQueued(queue, channel) && channel in old(Epochs())
                          then old(Epochs())[channel := old(Epochs())[channel] + 1] else old(Epochs())
    {
      hide Pool.Valid, NotQueued, PoolTable.Valid;
      if state != Idle {
        return;
      }
      var queued := IsQueued(queue, channel);
      if queued {
        return;
      }
      var pool := Get(channel);
      if pool != null {
        PoolsDiffer(channel);
        pool.Recycle();
      }
    }

    /** Memory from the pool of a channel, which is created if there is none. */
    method Allocate(channel: nat, frameMax: nat, amount: nat) returns (p: Address)
      requires Valid() && AllValid() && amount < SIZE_MODULUS
      modifies this, buckets, pools.Values
      ensures Valid() && AllValid() && fresh(pools.Values - old(pools.Values))
      ensures channel in pools && pools[channel].given != [] && pools[channel].given[|pools[channel].given| - 1] == p
      ensures forall c :: Asked(c) == if c == channel then old(Asked(c)) + [amount] else old(Asked(c))
      ensures Epochs() == if channel in old(Epochs()) then old(Epochs()) else old(Epochs())[channel := 0]
    {
      hide Pool.Valid, PoolTable.Valid;
      var pool := GetOrCreate(channel, frameMax);
      PoolsDiffer(channel);
      p := pool.Alloc(amount);
    }

    lemma PoolsDiffer(channel: nat)
      requires Valid() && channel in pools
      ensures forall c | c in pools && c != channel :: pools[c] != pools[channel]
    {
    }

    /** The search through the queue. */
    static method IsQueued(queue: Queue, channel: nat) returns (b: bool)
      requires queue.Valid()
      ensures b <==> !NotQueued(queue, channel)
    {
      ghost var i: nat, k := 0, FirstOn(queue.Contents(), channel);
      var link := queue.first;
      while link != null
        invariant i <= k && link == if i < |queue.links| then queue.links[i] else null
        decreases k - i
      {
        if link.frame.channel == channel {
          return true;
        }
        link := link.next;
        i := i + 1;
      }
      return false;
    }

    /** `amqp_release_buffers`, which is only called when the parser is idle. */
    method ReleaseAll(queue: Queue)
      requires Valid() && AllValid() && queue.Valid()
      modifies pools.Values
      ensures AllValid()
      ensures forall c | c in pools :: if NotQueued(queue, c) then Recycled(pools[c]) else unchanged(pools[c])
      ensures Epochs() == RecycledWithout(old(Epochs()), queue.Contents())
    {
      hide Pool.Valid, FirstOn, FramesOf, Queue.Contents, PoolTable.Valid, PoolTable.AllValid;
      ReleaseChains(queue);
    }

    /** The loop over the chains. */
    method ReleaseChains(queue: Queue)
      requires Valid() && AllValid() && queue.Valid()
      modifies pools.Values
      ensures AllValid()
      ensures forall c | c in pools :: if NotQueued(queue, c) then Recycled(pools[c]) else unchanged(pools[c])
    {
      hide Pool.Valid, NotQueued, PoolTable.Valid, PoolTable.AllValid;
      for i := 0 to POOL_TABLE_SIZE
        invariant AllValid()
        invariant forall c | c in pools ::
            if c % POOL_TABLE_SIZE < i && NotQueued(queue, c) then Recycled(pools[c]) else unchanged(pools[c])
      {
        ReleaseChain(queue, i);
      }
    }

    /** The loop over the entries of a chain. */
    method ReleaseChain(queue: Queue, i: nat)
      requires i < POOL_TABLE_SIZE && Valid() && AllValid() && queue.Valid()
      modifies pools.Values
      ensures AllValid()
      ensures forall c | c in pools ::
                if c % POOL_TABLE_SIZE == i && NotQueued(queue, c) then Recycled(pools[c]) else unchanged(pools[c])
    {
      hide Pool.Valid, NotQueued, PoolTable.Valid, PoolTable.AllValid, PoolTable.Epochs;
      ChainOf(i);
      var entry := buckets[i];
      while entry.Entry?
        invariant AllValid() && WellPlaced(entry, i)
        invariant forall c | c in pools ::
            if c % POOL_TABLE_SIZE == i && Find(entry, c) == null && NotQueued(queue, c) then Recycled(pools[c])
            else unchanged(pools[c])
        decreases entry
      {
        MaybeReleaseOnChannel(Idle, queue, entry.channel);
        entry := entry.next;
      }
    }

    /** The channels of a chain. */
    lemma ChainOf(i: nat)
      requires i < POOL_TABLE_SIZE && Valid()
      ensures buckets.Length == POOL_TABLE_SIZE && WellPlaced(buckets[i], i)
      ensures forall c | c in pools && c % POOL_TABLE_SIZE == i :: Find(buckets[i], c) != null
    {
    }
  }
}
