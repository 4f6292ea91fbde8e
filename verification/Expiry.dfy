/** `MapExpires`, a store of entries in buckets by the time of their arrival, and `MarkValue`, which it
    is made of. */
module Expiry {
  import opened Wire

  /** `MarkValue`: a value with a mark; it is copied as a whole. */
  datatype MarkValue<T> = MarkValue(value: T, mark: bool)

  /** An entry of a `std::map`; a map is the sequence of its entries in the order of their keys. */
  datatype Entry<K, V> = Entry(key: K, cell: MarkValue<V>)

  datatype Bucket<K, V> = Bucket(time: int, list: MarkValue<seq<Entry<K, V>>>)

  //////////////////////////////////////////////////////////////////////////////
  // What reducing does to one bucket
  //////////////////////////////////////////////////////////////////////////////

  function Unmarked<K, V>(entries: seq<Entry<K, V>>): seq<Entry<K, V>> {
    if entries == [] then []
    else if entries[0].cell.mark then Unmarked(entries[1..])
    else [entries[0]] + Unmarked(entries[1..])
  }

  lemma {:induction false} UnmarkedMembers<K, V>(entries: seq<Entry<K, V>>)
    ensures forall e | e in Unmarked(entries) :: e in entries && !e.cell.mark
  {
    if entries != [] {
      assert entries[0] in entries && forall e | e in entries[1..] :: e in entries;
      UnmarkedMembers(entries[1..]);
    }
  }

  /** The lambda `shrink_to_fit`: assigning a new list takes its mark, too. */
  function Shrunk<K, V>(list: MarkValue<seq<Entry<K, V>>>): MarkValue<seq<Entry<K, V>>> {
    if list.value == [] then list else MarkValue(Unmarked(list.value), false)
  }

  /** A bucket as it is looked at: shrunk if its list is marked. */
  function Opened<K, V>(b: Bucket<K, V>): MarkValue<seq<Entry<K, V>>> {
    if b.list.mark then Shrunk(b.list) else b.list
  }

  predicate AllMarked<K, V>(entries: seq<Entry<K, V>>) {
    forall i | 0 <= i < |entries| :: entries[i].cell.mark
  }

  /** What stays in the bucket. */
  function Kept<K, V>(b: Bucket<K, V>, timePurge: int): Bucket<K, V> {
    var list := Opened(b);
    b.(list :=
      if list.value == [] then list
      else if b.time < timePurge then MarkValue([], false)
      else if AllMarked(list.value) then MarkValue([], true)
      else MarkValue(list.value, list.mark || list.value[0].cell.mark))
  }

  /** What is collected from it. */
  function Collected<K, V>(b: Bucket<K, V>, timePurge: int): seq<Bucket<K, V>> {
    var list := Opened(b);
    if list.value != [] && b.time < timePurge then [b.(list := Shrunk(list))] else []
  }

  function AllKept<K, V>(buckets: seq<Bucket<K, V>>, timePurge: int): (r: seq<Bucket<K, V>>)
    ensures |r| == |buckets|
  {
    if buckets == [] then []
    else AllKept(buckets[..|buckets| - 1], timePurge) + [Kept(buckets[|buckets| - 1], timePurge)]
  }

  function AllCollected<K, V>(buckets: seq<Bucket<K, V>>, timePurge: int): seq<Bucket<K, V>> {
    if buckets == [] then []
    else AllCollected(buckets[..|buckets| - 1], timePurge) + Collected(buckets[|buckets| - 1], timePurge)
  }

  /** The buckets from the first one on that is not empty. */
  function FromFirst<K, V>(buckets: seq<Bucket<K, V>>): (r: seq<Bucket<K, V>>)
    ensures r == [] || r[0].list.value != []
    ensures |r| <= |buckets| && r == buckets[|buckets| - |r|..]
  {
    if buckets != [] && buckets[0].list.value == [] then FromFirst(buckets[1..]) else buckets
  }

  //////////////////////////////////////////////////////////////////////////////
  // Nothing unmarked is lost
  //////////////////////////////////////////////////////////////////////////////

  /** An entry without its mark, and when it arrived. */
  type Item<K, V> = (int, K, V)

  /** The unmarked entries of a list. */
  ghost function Pending<K, V>(time: int, entries: seq<Entry<K, V>>): multiset<Item<K, V>> {
    if entries == [] then multiset{}
    else
      (if entries[0].cell.mark then multiset{} else multiset{(time, entries[0].key, entries[0].cell.value)})
      + Pending(time, entries[1..])
  }

  /** The unmarked entries of some buckets. */
  ghost function AllPending<K, V>(buckets: seq<Bucket<K, V>>): multiset<Item<K, V>> {
    if buckets == [] then multiset{}
    else AllPending(buckets[..|buckets| - 1]) + Pending(buckets[|buckets| - 1].time, buckets[|buckets| - 1].list.value)
  }

  lemma {:induction false} PendingUnmarked<K, V>(time: int, entries: seq<Entry<K, V>>)
    ensures Pending(time, Unmarked(entries)) == Pending(time, entries)
    ensures AllMarked(entries) ==> Pending(time, entries) == multiset{}
  {
    if entries != [] {
      var e, rest := entries[0], entries[1..];
      PendingUnmarked(time, rest);
      assert AllMarked(entries) ==> AllMarked(rest);
      if !e.cell.mark {
        assert ([e] + Unmarked(rest))[1..] == Unmarked(rest);
      }
    }
  }

  lemma BucketConserves<K, V>(b: Bucket<K, V>, timePurge: int)
    ensures Pending(b.time, b.list.value)
            == Pending(b.time, Kept(b, timePurge).list.value) + AllPending(Collected(b, timePurge))
  {
    var list := Opened(b);
    PendingUnmarked(b.time, b.list.value);
    PendingUnmarked(b.time, list.value);
    hide Unmarked, Pending, AllMarked;
    NothingPending<K, V>(b.time);
    var c := Collected(b, timePurge);
    if c != [] {
      assert c[..0] == [];
    }
  }

  lemma NothingPending<K, V>(time: int)
    ensures Pending<K, V>(time, []) == multiset{}
  {
  }

  lemma {:induction false} PendingAppend<K, V>(a: seq<Bucket<K, V>>, b: seq<Bucket<K, V>>)
    ensures AllPending(a + b) == AllPending(a) + AllPending(b)
  {
    hide Pending;
    if b == [] {
      assert a + b == a;
    } else {
      var all := a + b;
      assert all[..|all| - 1] == a + b[..|b| - 1];
      PendingAppend(a, b[..|b| - 1]);
    }
  }

  lemma {:induction false} NothingPendingInEmpty<K, V>(buckets: seq<Bucket<K, V>>)
    requires forall b | b in buckets :: b.list.value == []
    ensures AllPending(buckets) == multiset{}
  {
    if buckets != [] {
      assert forall b | b in buckets[..|buckets| - 1] :: b in buckets;
      NothingPendingInEmpty(buckets[..|buckets| - 1]);
    }
  }

  lemma {:induction false} OnlyEmptyAreErased<K, V>(buckets: seq<Bucket<K, V>>)
    ensures forall b | b in buckets[..|buckets| - |FromFirst(buckets)|] :: b.list.value == []
  {
    if buckets != [] && buckets[0].list.value == [] {
      OnlyEmptyAreErased(buckets[1..]);
      var n := |buckets| - |FromFirst(buckets)|;
      assert buckets[..n] == [buckets[0]] + buckets[1..][..n - 1];
    }
  }

  lemma {:induction false} AllConserve<K, V>(buckets: seq<Bucket<K, V>>, timePurge: int)
    ensures AllPending(buckets) == AllPending(AllKept(buckets, timePurge)) + AllPending(AllCollected(buckets, timePurge))
  {
    hide Pending, Kept, Collected;
    if buckets != [] {
      var init, last := buckets[..|buckets| - 1], buckets[|buckets| - 1];
      AllConserve(init, timePurge);
      BucketConserves(last, timePurge);
      KeptIsInPlace(last, timePurge);
      PendingAppend(AllCollected(init, timePurge), Collected(last, timePurge));
      var kept := AllKept(buckets, timePurge);
      assert kept[..|kept| - 1] == AllKept(init, timePurge);
    }
  }

  lemma KeptIsInPlace<K, V>(b: Bucket<K, V>, timePurge: int)
    ensures Kept(b, timePurge).time == b.time
  {
  }

  /** Every unmarked entry there was is either kept or collected, once. */
  lemma ReduceConserves<K, V>(buckets: seq<Bucket<K, V>>, timePurge: int)
    ensures AllPending(buckets)
            == AllPending(FromFirst(AllKept(buckets, timePurge))) + AllPending(AllCollected(buckets, timePurge))
  {
    hide AllKept, AllCollected, AllPending;
    AllConserve(buckets, timePurge);
    ErasingConserves(AllKept(buckets, timePurge));
  }

  lemma ErasingConserves<K, V>(buckets: seq<Bucket<K, V>>)
    ensures AllPending(FromFirst(buckets)) == AllPending(buckets)
  {
    hide AllPending, FromFirst;
    var n := |buckets| - |FromFirst(buckets)|;
    OnlyEmptyAreErased(buckets);
    NothingPendingInEmpty(buckets[..n]);
    assert buckets == buckets[..n] + FromFirst(buckets);
    PendingAppend(buckets[..n], FromFirst(buckets));
  }

  /** What is kept is not old. */
  lemma NothingOldIsKept<K, V>(buckets: seq<Bucket<K, V>>, timePurge: int)
    ensures forall b | b in FromFirst(AllKept(buckets, timePurge)) :: b.time < timePurge ==> b.list.value == []
  {
    hide FromFirst, AllKept;
    OldIsCollected(buckets, timePurge);
    var kept := AllKept(buckets, timePurge);
    assert forall b | b in FromFirst(kept) :: b in kept;
  }

  /** Only unmarked entries that are old enough are collected, and nothing old is kept. */
  lemma {:induction false} OldIsCollected<K, V>(buckets: seq<Bucket<K, V>>, timePurge: int)
    ensures forall b | b in AllCollected(buckets, timePurge) ::
              b.time < timePurge && forall e | e in b.list.value :: !e.cell.mark
    ensures forall b | b in AllKept(buckets, timePurge) :: b.time < timePurge ==> b.list.value == []
  {
    hide Unmarked;
    if buckets != [] {
      OldIsCollected(buckets[..|buckets| - 1], timePurge);
      var last := buckets[|buckets| - 1];
      UnmarkedMembers(Opened(last).value);
      assert AllCollected(buckets, timePurge) == AllCollected(buckets[..|buckets| - 1], timePurge) + Collected(last, timePurge);
    }
  }

  //////////////////////////////////////////////////////////////////////////////
  // What was read is dropped
  //////////////////////////////////////////////////////////////////////////////

  lemma {:induction false} UnmarkedAre<K, V>(entries: seq<Entry<K, V>>, e: Entry<K, V>)
    ensures e in Unmarked(entries) <==> e in entries && !e.cell.mark
    ensures Unmarked(entries) == [] <==> forall i | 0 <= i < |entries| :: entries[i].cell.mark
    ensures (forall i | 0 <= i < |entries| :: !entries[i].cell.mark) ==> Unmarked(entries) == entries
  {
    if entries != [] {
      UnmarkedAre(entries[1..], e);
      assert entries == [entries[0]] + entries[1..];
      assert forall i | 1 <= i < |entries| :: entries[i] == entries[1..][i - 1];
      assert forall i | 0 <= i < |entries| - 1 :: entries[1..][i] == entries[i + 1];
    }
  }

  /** The unread entries stay in their order. */
  lemma {:induction false} UnmarkedInOrder<K, V>(a: seq<Entry<K, V>>, e: Entry<K, V>)
    ensures Unmarked(a + [e]) == if e.cell.mark then Unmarked(a) else Unmarked(a) + [e]
  {
    if a == [] {
      assert [] + [e] == [e] && [e][1..] == [];
    } else {
      assert (a + [e])[1..] == a[1..] + [e];
      UnmarkedInOrder(a[1..], e);
    }
  }

  /** What becomes of one bucket: nothing is left of it when it is old or all of it has been read; of a marked
      list the unread entries are left; any other list stays as it is, and is marked when its first entry
      has been read. */
  lemma BucketIsReduced<K, V>(b: Bucket<K, V>, timePurge: int)
    ensures var r := Kept(b, timePurge);
            var unread := exists i | 0 <= i < |b.list.value| :: !b.list.value[i].cell.mark;
            && r.time == b.time && (b.list.value == [] ==> r == b)
            && (b.time < timePurge || !unread ==> r.list.value == [])
            && (b.time >= timePurge && b.list.mark && unread ==> r.list == MarkValue(Unmarked(b.list.value), false))
            && (b.time >= timePurge && !b.list.mark && unread ==>
                  r.list == MarkValue(b.list.value, b.list.value[0].cell.mark))
            && Collected(b, timePurge)
               == if b.time < timePurge && (if b.list.mark then unread else b.list.value != [])
                  then [Bucket(b.time, MarkValue(Unmarked(b.list.value), false))] else []
  {
    hide Unmarked;
    if b.list.value != [] {
      var e := b.list.value[0];
      UnmarkedAre(b.list.value, e);
      var shrunk := Unmarked(b.list.value);
      UnmarkedMembers(b.list.value);
      UnmarkedAre(shrunk, e);
      if shrunk != [] {
        assert shrunk[0] in shrunk;
      }
    }
  }

  /** Reducing does that to every bucket, and erases empty ones in front. */
  lemma {:induction false} BucketsAreReduced<K, V>(buckets: seq<Bucket<K, V>>, timePurge: int, k: nat)
    requires k < |buckets|
    ensures AllKept(buckets, timePurge)[k] == Kept(buckets[k], timePurge)
  {
    hide Kept;
    if k < |buckets| - 1 {
      BucketsAreReduced(buckets[..|buckets| - 1], timePurge, k);
    }
  }

  /** After reducing there is no entry that has been read in a list that was marked, and none at all in one
      of which everything had been read. */
  lemma ReadIsDropped<K, V>(buckets: seq<Bucket<K, V>>, timePurge: int, k: nat)
    ensures var r := FromFirst(AllKept(buckets, timePurge));
            k < |r| ==>
              var b := buckets[|buckets| - |r| + k];
              && r[k] == Kept(b, timePurge)
              && (b.list.mark ==> forall e | e in r[k].list.value :: e in b.list.value && !e.cell.mark)
              && ((forall i | 0 <= i < |b.list.value| :: b.list.value[i].cell.mark) ==> r[k].list.value == [])
  {
    hide Kept, AllKept, FromFirst;
    var r := FromFirst(AllKept(buckets, timePurge));
    if k < |r| {
      var b := buckets[|buckets| - |r| + k];
      BucketsAreReduced(buckets, timePurge, |buckets| - |r| + k);
      BucketIsReduced(b, timePurge);
      UnmarkedMembers(b.list.value);
    }
  }

  //////////////////////////////////////////////////////////////////////////////
  // Finding
  //////////////////////////////////////////////////////////////////////////////

  /** The index of the key in a map, or its size. */
  function IndexOf<K(==), V>(entries: seq<Entry<K, V>>, key: K): (i: nat)
    ensures i <= |entries| && (i < |entries| ==> entries[i].key == key)
    ensures forall j | 0 <= j < i :: entries[j].key != key
  {
    if entries == [] || entries[0].key == key then 0
    else
      var i := IndexOf(entries[1..], key);
      assert forall j | 1 <= j < i + 1 :: entries[j] == entries[1..][j - 1];
      i + 1
  }

  /** The entry of the key in the first bucket that has one. */
  function Lookup<K(==), V>(buckets: seq<Bucket<K, V>>, key: K): Option<(int, Entry<K, V>)> {
    if buckets == [] then None
    else
      var i := IndexOf(buckets[0].list.value, key);
      if i < |buckets[0].list.value| then Some((buckets[0].time, buckets[0].list.value[i]))
      else Lookup(buckets[1..], key)
  }

  predicate HasKey<K(==), V>(entries: seq<Entry<K, V>>, key: K) {
    IndexOf(entries, key) < |entries|
  }

  /** Keys of a `std::map` are unique. */
  predicate UniqueKeys<K(==), V>(entries: seq<Entry<K, V>>) {
    forall i, j | 0 <= i < j < |entries| :: entries[i].key != entries[j].key
  }

  lemma {:induction false} UnmarkedFinds<K, V>(entries: seq<Entry<K, V>>, key: K)
    requires UniqueKeys(entries)
    ensures var i := IndexOf(entries, key);
            if i < |entries| && !entries[i].cell.mark
            then HasKey(Unmarked(entries), key) && Unmarked(entries)[IndexOf(Unmarked(entries), key)] == entries[i]
            else !HasKey(Unmarked(entries), key)
  {
    if entries != [] {
      var e, rest := entries[0], entries[1..];
      assert entries == [e] + rest;
      FindCons(e, rest, key);
      FindCons(e, Unmarked(rest), key);
      hide IndexOf;
      if e.key == key {
        NoOtherKey(rest, key);
      } else {
        UnmarkedFinds(rest, key);
      }
    }
  }

  lemma FindCons<K, V>(e: Entry<K, V>, rest: seq<Entry<K, V>>, key: K)
    ensures IndexOf([e] + rest, key) == if e.key == key then 0 else 1 + IndexOf(rest, key)
  {
    assert ([e] + rest)[1..] == rest;
  }

  lemma {:induction false} NoOtherKey<K, V>(entries: seq<Entry<K, V>>, key: K)
    requires forall i | 0 <= i < |entries| :: entries[i].key != key
    ensures !HasKey(entries, key) && !HasKey(Unmarked(entries), key)
  {
    if entries != [] {
      NoOtherKey(entries[1..], key);
      if !entries[0].cell.mark {
        assert ([entries[0]] + Unmarked(entries[1..]))[1..] == Unmarked(entries[1..]);
      }
    }
  }

  lemma {:induction false} LookupAppend<K, V>(a: seq<Bucket<K, V>>, b: seq<Bucket<K, V>>, key: K)
    ensures Lookup(a + b, key) == if Lookup(a, key).Some? then Lookup(a, key) else Lookup(b, key)
  {
    if a == [] {
      assert a + b == b;
    } else {
      assert (a + b)[1..] == a[1..] + b;
      LookupAppend(a[1..], b, key);
    }
  }

  lemma {:induction false} ErasingKeepsLookup<K, V>(buckets: seq<Bucket<K, V>>, key: K)
    ensures Lookup(FromFirst(buckets), key) == Lookup(buckets, key)
  {
    if buckets != [] && buckets[0].list.value == [] {
      ErasingKeepsLookup(buckets[1..], key);
    }
  }

  /** The entry is one that reducing has to keep where it is. */
  predicate Current<K, V>(found: Option<(int, Entry<K, V>)>, timePurge: int) {
    found.Some? ==> found.value.0 >= timePurge && !found.value.1.cell.mark
  }

  lemma KeptLookup<K, V>(b: Bucket<K, V>, key: K, timePurge: int)
    requires UniqueKeys(b.list.value) && Current(Lookup([b], key), timePurge)
    ensures Lookup([Kept(b, timePurge)], key) == Lookup([b], key)
  {
    hide Unmarked;
    UnmarkedFinds(b.list.value, key);
    assert Lookup([b][1..], key) == None && Lookup([Kept(b, timePurge)][1..], key) == None;
  }

  lemma {:induction false} AllKeptLookup<K, V>(buckets: seq<Bucket<K, V>>, key: K, timePurge: int)
    requires forall b | b in buckets :: UniqueKeys(b.list.value)
    requires Current(Lookup(buckets, key), timePurge)
    ensures Lookup(AllKept(buckets, timePurge), key) == Lookup(buckets, key)
  {
    hide Lookup, Kept, UniqueKeys, Current;
    if buckets != [] {
      var init, last := buckets[..|buckets| - 1], buckets[|buckets| - 1];
      assert forall b | b in init :: b in buckets;
      assert buckets == init + [last];
      LookupAppend(init, [last], key);
      LookupAppend(AllKept(init, timePurge), [Kept(last, timePurge)], key);
      NoneIsCurrent<K, V>(timePurge);
      AllKeptLookup(init, key, timePurge);
      if Lookup(init, key).None? {
        KeptLookup(last, key, timePurge);
      }
    }
  }

  lemma NoneIsCurrent<K, V>(timePurge: int)
    ensures Current<K, V>(None, timePurge)
  {
  }

  /** A reader does not notice: an entry that is neither old nor marked is found as before, and a key
      that was not there is not there. */
  lemma ReduceKeepsCurrent<K, V>(buckets: seq<Bucket<K, V>>, key: K, timePurge: int)
    requires forall b | b in buckets :: UniqueKeys(b.list.value)
    requires Current(Lookup(buckets, key), timePurge)
    ensures Lookup(FromFirst(AllKept(buckets, timePurge)), key) == Lookup(buckets, key)
  {
    hide Lookup, AllKept, UniqueKeys, Current;
    AllKeptLookup(buckets, key, timePurge);
    ErasingKeepsLookup(AllKept(buckets, timePurge), key);
  }

  //////////////////////////////////////////////////////////////////////////////
  // The store
  //////////////////////////////////////////////////////////////////////////////

  class MapExpires<K(==), V> {
    var container: seq<Bucket<K, V>>

    constructor ()
      ensures container == []
    {
      container := [];
    }

    /** `emplace_back`, at the time `now`. */
    method EmplaceBack(now: int, value: seq<Entry<K, V>>)
      modifies this
      ensures container == old(container) + [Bucket(now, MarkValue(value, false))]
      ensures AllPending(container) == AllPending(old(container)) + Pending(now, value)
    {
      var b := Bucket(now, MarkValue(value, false));
      PendingAppend(container, [b]);
      assert [b][..0] == [];
      container := container + [b];
    }

    /** `find`: the position of the bucket and of the entry, if there is one. */
    method Find(key: K) returns (at: Option<(nat, nat)>)
      ensures at.Some? <==> Lookup(container, key).Some?
      ensures at.Some? ==>
                && at.value.0 < |container| && at.value.1 < |container[at.value.0].list.value|
                && Lookup(container, key)
                   == Some((container[at.value.0].time, container[at.value.0].list.value[at.value.1]))
    {
      for it := 0 to |container|
        invariant Lookup(container, key) == Lookup(container[it..], key)
      {
        assert container[it..][0] == container[it] && container[it..][1..] == container[it + 1..];
        var i := IndexOf(container[it].list.value, key);
        if i < |container[it].list.value| {
          return Some((it, i));
        }
      }
      return None;
    }

    /** The lambda `shrink_to_fit`. */
    static method ShrinkToFit(list: MarkValue<seq<Entry<K, V>>>) returns (r: MarkValue<seq<Entry<K, V>>>)
      ensures r == Shrunk(list)
    {
      r := list;
      if list.value != [] {
        var newEntryList: MarkValue<seq<Entry<K, V>>> := MarkValue([], false);
        for i := 0 to |list.value|
          invariant !newEntryList.mark && Unmarked(list.value) == newEntryList.value + Unmarked(list.value[i..])
        {
          assert list.value[i..][0] == list.value[i] && list.value[i..][1..] == list.value[i + 1..];
          if !list.value[i].cell.mark {
            newEntryList := newEntryList.(value := newEntryList.value + [list.value[i]]);
          }
        }
        assert newEntryList.value + Unmarked<K, V>([]) == newEntryList.value;
        r := newEntryList;
      }
    }

    /** The inner loop of `reduce`: the list is marked when its first entry is, and given up when all
        entries are. */
    static method DiscardIfRead(list: MarkValue<seq<Entry<K, V>>>) returns (r: MarkValue<seq<Entry<K, V>>>)
      requires list.value != []
      ensures r == if AllMarked(list.value) then MarkValue([], true)
                   else MarkValue(list.value, list.mark || list.value[0].cell.mark)
    {
      r := list;
      var allMessageMarked := true;
      for i := 0 to |list.value|
        invariant allMessageMarked && r.value == list.value && forall j | 0 <= j < i :: list.value[j].cell.mark
        invariant r.mark == (list.mark || (i > 0 && list.value[0].cell.mark))
      {
        if !list.value[i].cell.mark {
          allMessageMarked := false;
          break;
        }
        r := r.(mark := true);
      }
      if allMessageMarked {
        r := r.(value := []);
      }
    }

    /** `reduce`: old entries are collected, read ones are dropped, and nothing unmarked is lost. */
    method Reduce(timePurge: int) returns (collected: seq<Bucket<K, V>>)
      modifies this
      ensures container == FromFirst(AllKept(old(container), timePurge))
      ensures collected == AllCollected(old(container), timePurge)
      ensures AllPending(old(container)) == AllPending(container) + AllPending(collected)
      ensures forall b | b in collected :: b.time < timePurge && forall e | e in b.list.value :: !e.cell.mark
      ensures forall b | b in container :: b.time < timePurge ==> b.list.value == []
      ensures container == [] || container[0].list.value != []
    {
      hide Kept, Collected, AllPending, FromFirst;
      collected := [];
      ghost var before := container;
      for i := 0 to |container|
        invariant |container| == |before| && container[i..] == before[i..]
        invariant container[..i] == AllKept(before[..i], timePurge)
        invariant collected == AllCollected(before[..i], timePurge)
      {
        assert before[..i + 1][..i] == before[..i];
        assert before[i] == before[i..][0] == container[i..][0];
        var kept, purged := ReduceBucket(container[i], timePurge);
        container := container[i := kept];
        assert container[..i + 1] == container[..i] + [kept] && container[i + 1..] == before[i..][1..];
        collected := collected + purged;
      }
      assert container[..|before|] == container && before[..|before|] == before;
      EraseEmpty();
      ReduceConserves(before, timePurge);
      OldIsCollected(before, timePurge);
      NothingOldIsKept(before, timePurge);
    }

    /** The body of the loop of `reduce`. */
    static method ReduceBucket(b: Bucket<K, V>, timePurge: int) returns (kept: Bucket<K, V>, collected: seq<Bucket<K, V>>)
      ensures kept == Kept(b, timePurge) && collected == Collected(b, timePurge)
    {
      hide AllMarked, Shrunk;
      collected := [];
      var entryList := b.list;
      if entryList.mark {
        entryList := ShrinkToFit(entryList);
      }
      if entryList.value != [] {
        if b.time < timePurge {
          entryList := ShrinkToFit(entryList);
          collected := [b.(list := entryList)];
          entryList := MarkValue([], false);
        } else {
          entryList := DiscardIfRead(entryList);
        }
      }
      kept := b.(list := entryList);
    }

    /** The end of `reduce`: the empty buckets in front are erased. */
    method EraseEmpty()
      modifies this
      ensures container == FromFirst(old(container))
    {
      if container != [] && container[0].list.value == [] {
        var next := 1;
        while next < |container| && container[next].list.value == []
          invariant next <= |container| && FromFirst(container) == FromFirst(container[next..])
        {
          assert container[next..][1..] == container[next + 1..];
          next := next + 1;
        }
        container := container[next..];
      }
    }
  }
}
