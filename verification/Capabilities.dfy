/** Tables as trees of named values: `amqp_table_clone`, `amqp_table_get_entry_by_key` and the
    recursive merge of `amqp_merge_capabilities`. */
module Capabilities {
  import opened Wire
  import opened FieldTable

  //////////////////////////////////////////////////////////////////////////////
  // Cloning
  //////////////////////////////////////////////////////////////////////////////

  /** No key is empty and no kind is unknown, at any depth. */
  predicate Cloneable(v: Value)
    decreases v, 1
  {
    match v
    case Array(values) => CloneableValues(values)
    case Table(entries) => CloneableEntries(entries)
    case _ => !v.Unknown?
  }

  predicate CloneableValues(values: seq<Value>)
    decreases values, 0
  {
    values == [] || (Cloneable(values[0]) && CloneableValues(values[1..]))
  }

  predicate CloneableEntries(entries: seq<Entry>)
    decreases entries, 0
  {
    entries == [] || (entries[0].key != [] && Cloneable(entries[0].value) && CloneableEntries(entries[1..]))
  }

  /** What can be cloned: everything but an unknown kind and a table with an empty key, at any depth. */
  lemma CloneableAre(v: Value, entries: seq<Entry>)
    ensures v.Unknown? ==> !Cloneable(v)
    ensures v.Scalar? || v.Decimal? || v.Text? || v.Void? ==> Cloneable(v)
    ensures v.Array? ==> (Cloneable(v) <==> forall k | 0 <= k < |v.values| :: Cloneable(v.values[k]))
    ensures v.Table? ==> (Cloneable(v) <==> CloneableEntries(v.entries))
    ensures CloneableEntries(entries)
            <==> forall k | 0 <= k < |entries| :: |entries[k].key| > 0 && Cloneable(entries[k].value)
  {
    if v.Array? {
      CloneableElements(v.values);
    }
    CloneableMembers(entries);
  }

  lemma {:induction false} CloneableElements(values: seq<Value>)
    ensures CloneableValues(values) <==> forall k | 0 <= k < |values| :: Cloneable(values[k])
  {
    if values != [] {
      CloneableElements(values[1..]);
      assert forall k | 1 <= k < |values| :: values[k] == values[1..][k - 1];
      assert forall k | 0 <= k < |values| - 1 :: values[1..][k] == values[k + 1];
    }
  }

  lemma {:induction false} CloneableMembers(entries: seq<Entry>)
    ensures CloneableEntries(entries)
            <==> forall k | 0 <= k < |entries| :: |entries[k].key| > 0 && Cloneable(entries[k].value)
  {
    if entries != [] {
      CloneableMembers(entries[1..]);
      assert forall k | 1 <= k < |entries| :: entries[k] == entries[1..][k - 1];
      assert forall k | 0 <= k < |entries| - 1 :: entries[1..][k] == entries[k + 1];
    }
  }

  /** `amqp_table_clone`: a table is copied as it is, or refused. */
  method CloneTable(original: seq<Entry>) returns (status: Status, clone: seq<Entry>)
    ensures status == if CloneableEntries(original) then Ok else InvalidParameter
    ensures status.Ok? ==> clone == original
    decreases original, 1
  {
    clone := [];
    for i := 0 to |original|
      invariant clone == original[..i]
      invariant CloneableEntries(original) == CloneableEntries(original[i..])
    {
      assert original[i..][0] == original[i] && original[i..][1..] == original[i + 1..];
      if original[i].key == [] {
        return InvalidParameter, clone;
      }
      var v;
      status, v := CloneValue(original[i].value);
      if !status.Ok? {
        return;
      }
      clone := clone + [Entry(original[i].key, v)];
    }
    status := Ok;
  }

  /** `amqp_field_value_clone`. */
  method CloneValue(original: Value) returns (status: Status, clone: Value)
    ensures status == if Cloneable(original) then Ok else InvalidParameter
    ensures status.Ok? ==> clone == original
    decreases original, 2
  {
    clone := original;
    match original {
      case Array(values) =>
        var copies: seq<Value> := [];
        for i := 0 to |values|
          invariant copies == values[..i]
          invariant CloneableValues(values) == CloneableValues(values[i..])
        {
          assert values[i..][0] == values[i] && values[i..][1..] == values[i + 1..];
          var v;
          status, v := CloneValue(values[i]);
          if !status.Ok? {
            return;
          }
          copies := copies + [v];
        }
        return Ok, Array(copies);
      case Table(entries) =>
        var copies;
        status, copies := CloneTable(entries);
        if status.Ok? {
          clone := Table(copies);
        }
      case Unknown(_) =>
        status := InvalidParameter;
      case _ =>
        status := Ok;
    }
  }

  //////////////////////////////////////////////////////////////////////////////
  // Lookup
  //////////////////////////////////////////////////////////////////////////////

  /** The index of the first entry with the key, or the number of entries. */
  function Find(entries: seq<Entry>, key: Bytes): (i: nat)
    ensures i <= |entries|
    ensures i < |entries| ==> entries[i].key == key
    ensures forall k | 0 <= k < i :: entries[k].key != key
  {
    if entries == [] then 0
    else if entries[0].key == key then 0
    else
      var i := Find(entries[1..], key);
      assert forall k | 1 <= k < i + 1 :: entries[k] == entries[1..][k - 1];
      i + 1
  }

  function Lookup(entries: seq<Entry>, key: Bytes): Option<Value> {
    var i := Find(entries, key);
    if i < |entries| then Some(entries[i].value) else None
  }

  /** The value at the end of a path of keys through nested tables. */
  function LookupPath(entries: seq<Entry>, path: seq<Bytes>): Option<Value>
    requires path != []
    decreases |path|
  {
    var v := Lookup(entries, path[0]);
    if |path| == 1 || v.None? then v
    else if v.value.Table? then LookupPath(v.value.entries, path[1..])
    else None
  }

  /** `amqp_table_get_entry_by_key`. */
  method GetEntryByKey(entries: array<Entry>, count: nat, key: Bytes) returns (i: nat)
    requires count <= entries.Length
    ensures i == Find(entries[..count], key)
  {
    i := 0;
    while i < count
      invariant i <= count && forall k | 0 <= k < i :: entries[k].key != key
    {
      if entries[i].key == key {
        break;
      }
      i := i + 1;
    }
    FindIsUnique(entries[..count], key, i);
  }

  lemma FindIsUnique(entries: seq<Entry>, key: Bytes, i: nat)
    requires i <= |entries| && (i < |entries| ==> entries[i].key == key)
    requires forall k | 0 <= k < i :: entries[k].key != key
    ensures i == Find(entries, key)
  {
  }

  lemma FindLookup(entries: seq<Entry>, key: Bytes)
    ensures var i := Find(entries, key);
            Lookup(entries, key) == if i < |entries| then Some(entries[i].value) else None
  {
  }

  lemma {:induction false} LookupAppend(entries: seq<Entry>, e: Entry, key: Bytes)
    ensures Lookup(entries + [e], key)
            == if Lookup(entries, key).Some? then Lookup(entries, key) else if e.key == key then Some(e.value) else None
  {
    var i := Find(entries, key);
    var all := entries + [e];
    FindIsUnique(all, key, if i < |entries| || e.key == key then i else |all|);
  }

  lemma LookupUpdate(entries: seq<Entry>, i: nat, v: Value, key: Bytes)
    requires i < |entries| && i == Find(entries, entries[i].key)
    ensures Lookup(entries[i := Entry(entries[i].key, v)], key)
            == if key == entries[i].key then Some(v) else Lookup(entries, key)
    ensures Find(entries[i := Entry(entries[i].key, v)], key) == Find(entries, key)
  {
    var new_ := entries[i := Entry(entries[i].key, v)];
    FindIsUnique(new_, key, Find(entries, key));
  }

  //////////////////////////////////////////////////////////////////////////////
  // Merging
  //////////////////////////////////////////////////////////////////////////////

  /** The outcome of a merge. In the last one the library takes a table from `base` that is not there:
      it dereferences NULL when `base` does not have the key, and reads the wrong member of a union when
      `base` has something else under it. */
  datatype Merge = Merged(entries: seq<Entry>) | Refused(status: Status) | Stray

  /** `amqp_merge_capabilities`. */
  function MergeTables(base: seq<Entry>, add: seq<Entry>): Merge
    decreases add, 2
  {
    if base == [] && add == [] then Refused(NoMemory)
    else
      match MergeInto(base, base, add)
      case Merged(entries) => if CloneableEntries(entries) then Merged(entries) else Refused(InvalidParameter)
      case other => other
  }

  /** The loop over `add`, from the entries collected so far. */
  function MergeInto(temp: seq<Entry>, base: seq<Entry>, add: seq<Entry>): Merge
    decreases add, 1
  {
    if add == [] then Merged(temp)
    else
      match MergeEntry(temp, base, add[0])
      case Merged(entries) => MergeInto(entries, base, add[1..])
      case other => other
  }

  function MergeEntry(temp: seq<Entry>, base: seq<Entry>, a: Entry): Merge
    decreases a, 0
  {
    var i := Find(temp, a.key);
    if i == |temp| then Merged(temp + [a])
    else if a.value.Table? && temp[i].value.Table? then
      var b := Lookup(base, a.key);
      if b.Some? && b.value.Table? then
        match MergeTables(b.value.entries, a.value.entries)
        case Merged(entries) => Merged(temp[i := Entry(temp[i].key, Table(entries))])
        case other => other
      else Stray
    else Merged(temp[i := Entry(temp[i].key, a.value)])
  }

  /** `amqp_merge_capabilities` on its array of collected entries; without `add` the base is cloned. */
  method MergeCapabilities(base: seq<Entry>, add: Option<seq<Entry>>) returns (status: Status, result: seq<Entry>)
    requires add.Some? ==> !Strays(base, add.value)
    ensures add.None? ==> status == (if CloneableEntries(base) then Ok else InvalidParameter)
    ensures add.None? && status.Ok? ==> result == base
    ensures add.Some? ==> (status.Ok? <==> Mergeable(base, add.value))
    ensures add.Some? && status.Ok? ==> MergeTables(base, add.value) == Merged(result)
    ensures add.Some? && !status.Ok? ==> MergeTables(base, add.value) == Refused(status)
    decreases if add.Some? then add.value else []
  {
    hide Find, Lookup, CloneableEntries, MergeInto, MergeEntry, Mergeable, Strays;
    result := [];
    if add.None? {
      status, result := CloneTable(base);
      return;
    }
    var added := add.value;
    MergedIff(base, added);
    StraysIff(base, added);
    if |base| + |added| == 0 {
      return NoMemory, [];
    }
    var temp := new Entry[|base| + |added|](_ => Entry([], Void));
    var count := 0;
    while count < |base|
      invariant count <= |base| && temp[..count] == base[..count]
    {
      temp[count] := base[count];
      count := count + 1;
    }
    assert temp[..count] == base && added[0..] == added;
    for k := 0 to |added|
      invariant count <= |base| + k
      invariant MergeInto(base, base, added) == MergeInto(temp[..count], base, added[k..])
    {
      ghost var before := temp[..count];
      var a := added[k];
      MergeStep(before, base, added, k);
      var i := GetEntryByKey(temp, count, a.key);
      if i < count {
        if a.value.Table? && temp[i].value.Table? {
          var b := Lookup(base, a.key);
          var nested;
          status, nested := MergeCapabilities(b.value.entries, Some(a.value.entries));
          if !status.Ok? {
            return;
          }
          temp[i] := Entry(temp[i].key, Table(nested));
        } else {
          temp[i] := Entry(temp[i].key, a.value);
        }
        assert temp[..count] == before[i := temp[i]];
      } else {
        temp[count] := a;
        count := count + 1;
        assert temp[..count] == before + [a];
      }
    }
    assert added[|added|..] == [];
    MergeIntoNothing(temp[..count], base);
    status, result := CloneTable(temp[..count]);
  }

  /** One round of the loop: where a table meets a table, `base` has one that can be merged with it
      without going astray. */
  lemma MergeStep(temp: seq<Entry>, base: seq<Entry>, add: seq<Entry>, k: nat)
    requires k < |add| && !MergeInto(temp, base, add[k..]).Stray?
    ensures var a, i, b := add[k], Find(temp, add[k].key), Lookup(base, add[k].key);
            var r := MergeInto(temp, base, add[k..]);
            if i == |temp| then r == MergeInto(temp + [a], base, add[k + 1..])
            else if a.value.Table? && temp[i].value.Table? then
              && IsTable(b) && !Strays(b.value.entries, a.value.entries)
              && var m := MergeTables(b.value.entries, a.value.entries);
                 r == if m.Merged? then MergeInto(temp[i := Entry(temp[i].key, Table(m.entries))], base, add[k + 1..]) else m
            else r == MergeInto(temp[i := Entry(temp[i].key, a.value)], base, add[k + 1..])
  {
    hide MergeTables, Strays, Lookup;
    var rest := add[k..];
    assert rest[0] == add[k] && rest[1..] == add[k + 1..];
    var a, b := add[k], Lookup(base, add[k].key);
    if a.value.Table? && IsTable(b) {
      StraysIff(b.value.entries, a.value.entries);
    }
  }

  lemma MergeIntoNothing(temp: seq<Entry>, base: seq<Entry>)
    ensures MergeInto(temp, base, []) == Merged(temp)
  {
  }

  //////////////////////////////////////////////////////////////////////////////
  // Which tables can be merged
  //////////////////////////////////////////////////////////////////////////////

  predicate IsTable(v: Option<Value>) {
    v.Some? && v.value.Table?
  }

  /** What was last said about a key before the `k`-th entry of `add`. */
  function Standing(base: seq<Entry>, add: seq<Entry>, k: nat, key: Bytes): Option<Value>
    requires k <= |add|
  {
    if k == 0 then Lookup(base, key)
    else if add[k - 1].key == key then Some(add[k - 1].value)
    else Standing(base, add, k - 1, key)
  }

  /** The `k`-th entry of `add` is a table, and so is what was last said about its key. */
  predicate Meets(base: seq<Entry>, add: seq<Entry>, k: nat)
    requires k < |add|
  {
    add[k].value.Table? && IsTable(Standing(base, add, k, add[k].key))
  }

  /** The `j`-th entry of `add` does not end the merge: it meets no table, or one of `base` that it can
      be merged with. */
  predicate Passes(base: seq<Entry>, add: seq<Entry>, j: nat)
    requires j < |add|
    decreases add, 0
  {
    Meets(base, add, j) ==>
      var b := Lookup(base, add[j].key);
      IsTable(b) && Mergeable(b.value.entries, add[j].value.entries)
  }

  /** The `i`-th of the collected entries ends up with a copy: it has a key, and either its value can be
      cloned or one of the entries still to come replaces it. */
  predicate Copied(temp: seq<Entry>, rest: seq<Entry>, i: nat)
    requires i < |temp|
  {
    var key := temp[i].key;
    key != [] && (Cloneable(temp[i].value) || (Find(temp, key) == i && Find(rest, key) < |rest|))
  }

  /** The value of the `k`-th entry of `add` ends up with a copy: it does not end the merge, and either it
      is merged with a table, or it can be cloned, or a later entry replaces it. */
  predicate Added(base: seq<Entry>, add: seq<Entry>, k: nat)
    requires k < |add|
    decreases add, 1
  {
    Passes(base, add, k)
    && (Meets(base, add, k) || Cloneable(add[k].value) || Find(add[k + 1..], add[k].key) < |add| - k - 1)
  }

  /** The two tables can be merged. */
  predicate Mergeable(base: seq<Entry>, add: seq<Entry>)
    decreases add, 2
  {
    && (base != [] || add != [])
    && (forall i | 0 <= i < |base| :: Copied(base, add, i))
    && (forall k | 0 <= k < |add| :: add[k].key != [] && Added(base, add, k))
  }

  /** The entries collected before the `k`-th one of `add` are tables where what was last said is. */
  ghost predicate Collects(temp: seq<Entry>, base: seq<Entry>, add: seq<Entry>, k: nat)
    requires k <= |add|
  {
    forall key :: Lookup(temp, key).Some? == Standing(base, add, k, key).Some?
                  && IsTable(Lookup(temp, key)) == IsTable(Standing(base, add, k, key))
  }

  lemma EntryCollects(temp: seq<Entry>, base: seq<Entry>, add: seq<Entry>, k: nat)
    requires k < |add| && Collects(temp, base, add, k) && MergeEntry(temp, base, add[k]).Merged?
    ensures Collects(MergeEntry(temp, base, add[k]).entries, base, add, k + 1)
  {
    hide MergeTables, Lookup;
    var a := add[k];
    var i := Find(temp, a.key);
    FindLookup(temp, a.key);
    var next := MergeEntry(temp, base, a).entries;
    forall key
      ensures Lookup(next, key).Some? == Standing(base, add, k + 1, key).Some?
              && IsTable(Lookup(next, key)) == IsTable(Standing(base, add, k + 1, key))
    {
      if i == |temp| {
        LookupAppend(temp, a, key);
      } else {
        LookupUpdate(temp, i, next[i].value, key);
      }
    }
  }

  lemma {:induction false} CloneableIff(entries: seq<Entry>)
    ensures CloneableEntries(entries) <==> forall i | 0 <= i < |entries| :: Copied(entries, [], i)
  {
    if entries != [] {
      var rest := entries[1..];
      CloneableIff(rest);
      assert Copied(entries, [], 0) <==> entries[0].key != [] && Cloneable(entries[0].value);
      assert forall i | 0 <= i < |rest| :: Copied(rest, [], i) <==> Copied(entries, [], i + 1);
      forall i | 0 <= i < |entries|
        ensures i > 0 ==> (Copied(entries, [], i) <==> Copied(rest, [], i - 1))
      {
      }
    }
  }

  lemma {:induction false} MergedIsCloneable(base: seq<Entry>, add: seq<Entry>)
    requires MergeTables(base, add).Merged?
    ensures CloneableEntries(MergeTables(base, add).entries)
  {
  }

  /** An entry that is merged: what was to be copied before is what is to be copied afterwards. */
  lemma EntryCopies(temp: seq<Entry>, base: seq<Entry>, add: seq<Entry>, k: nat)
    requires k < |add| && Collects(temp, base, add, k) && Passes(base, add, k) && MergeEntry(temp, base, add[k]).Merged?
    ensures var next, rest := MergeEntry(temp, base, add[k]).entries, add[k + 1..];
            (forall i | 0 <= i < |temp| :: Copied(temp, add[k..], i)) && add[k].key != [] && Added(base, add, k)
            <==> forall i | 0 <= i < |next| :: Copied(next, rest, i)
  {
    hide MergeTables, Lookup, Standing, Passes, CloneableEntries;
    var a, rest := add[k], add[k..];
    var next, j := MergeEntry(temp, base, a).entries, Find(temp, a.key);
    FindLookup(temp, a.key);
    assert rest[0] == a && rest[1..] == add[k + 1..];
    assert a.key != [] && Added(base, add, k) <==> Copied(next, rest[1..], j) by {
      EntryAdded(temp, base, add, k);
    }
    forall i | 0 <= i < |temp| && i != j
      ensures Copied(temp, rest, i) <==> Copied(next, rest[1..], i)
    {
      FindIsUnique(rest, temp[i].key, if temp[i].key == a.key then 0 else Find(rest[1..], temp[i].key) + 1);
      if j == |temp| {
        FindIsUnique(next, temp[i].key, Find(temp, temp[i].key));
      } else {
        LookupUpdate(temp, j, next[j].value, temp[i].key);
      }
    }
    if j < |temp| && Copied(next, rest[1..], j) {
      assert Copied(temp, rest, j);
    }
  }

  lemma EntryAdded(temp: seq<Entry>, base: seq<Entry>, add: seq<Entry>, k: nat)
    requires k < |add| && Collects(temp, base, add, k) && Passes(base, add, k) && MergeEntry(temp, base, add[k]).Merged?
    ensures var j := Find(temp, add[k].key);
            add[k].key != [] && Added(base, add, k) <==> Copied(MergeEntry(temp, base, add[k]).entries, add[k + 1..], j)
  {
    hide MergeTables, Lookup, Standing, Passes, CloneableEntries;
    var a, j := add[k], Find(temp, add[k].key);
    var next := MergeEntry(temp, base, a).entries;
    FindLookup(temp, a.key);
    FindIsUnique(next, a.key, j);
    if Meets(base, add, k) {
      MergedIsCloneable(Lookup(base, a.key).value.entries, a.value.entries);
      assert Cloneable(next[j].value);
    } else {
      assert next[j].value == a.value;
    }
  }

  /** What ends the merge at an entry. */
  lemma {:induction false} EntryMergedIff(temp: seq<Entry>, base: seq<Entry>, add: seq<Entry>, k: nat)
    requires k < |add| && Collects(temp, base, add, k)
    ensures MergeEntry(temp, base, add[k]).Merged? <==> Passes(base, add, k)
    decreases add, 0
  {
    hide MergeTables, Lookup, Mergeable;
    var a := add[k];
    FindLookup(temp, a.key);
    var b := Lookup(base, a.key);
    if a.value.Table? && IsTable(b) {
      MergedIff(b.value.entries, a.value.entries);
    }
  }

  /** From any entry of `add` on. */
  lemma {:induction false} MergedFromIff(temp: seq<Entry>, base: seq<Entry>, add: seq<Entry>, k: nat)
    requires k <= |add| && Collects(temp, base, add, k)
    ensures var r := MergeInto(temp, base, add[k..]);
            r.Merged? && CloneableEntries(r.entries)
            <==> (forall i | 0 <= i < |temp| :: Copied(temp, add[k..], i))
                 && forall j | k <= j < |add| :: add[j].key != [] && Added(base, add, j)
    decreases add, |add| - k
  {
    hide MergeEntry, Copied, Collects, Standing, Lookup, CloneableEntries;
    var rest := add[k..];
    if k == |add| {
      assert rest == [];
      CloneableIff(temp);
    } else {
      assert rest[0] == add[k] && rest[1..] == add[k + 1..];
      EntryMergedIff(temp, base, add, k);
      if Passes(base, add, k) {
        EntryCollects(temp, base, add, k);
        EntryCopies(temp, base, add, k);
        MergedFromIff(MergeEntry(temp, base, add[k]).entries, base, add, k + 1);
      }
    }
  }

  /** Two tables are merged exactly when they are not both empty, every entry has a key, every value that
      is not replaced by a later one can be cloned, and wherever a table meets a table, `base` has one
      for that key and the two can be merged. */
  lemma {:induction false} MergedIff(base: seq<Entry>, add: seq<Entry>)
    ensures MergeTables(base, add).Merged? <==> Mergeable(base, add)
    decreases add
  {
    hide Copied, Lookup;
    if base != [] || add != [] {
      MergedFromIff(base, base, add, 0);
      assert add[0..] == add;
      assert Mergeable(base, add) <==>
             (forall i | 0 <= i < |base| :: Copied(base, add, i)) && forall j | 0 <= j < |add| :: add[j].key != [] && Added(base, add, j);
    }
  }

  /** A merge is refused when the same table is empty on both sides, or a key is. */
  lemma RefusedInputs(key: Bytes)
    requires key != []
    ensures var empty, nameless := [Entry(key, Table([]))], [Entry([], Void)];
            && MergeTables(empty, empty) == Refused(NoMemory) && !Mergeable(empty, empty)
            && MergeTables(nameless, empty) == Refused(InvalidParameter) && !Mergeable(nameless, empty)
  {
    var empty, nameless := [Entry(key, Table([]))], [Entry([], Void)];
    assert Find(empty, key) == 0 && Find(nameless, key) == 1;
    assert MergeEntry(empty, empty, empty[0]) == Refused(NoMemory);
    assert MergeEntry(nameless, nameless, empty[0]) == Merged(nameless + empty);
    assert empty[1..] == [];
    assert MergeInto(nameless, nameless, empty) == MergeInto(nameless + empty, nameless, []);
    assert !CloneableEntries(nameless + empty);
    MergedIff(empty, empty);
    MergedIff(nameless, empty);
  }

  //////////////////////////////////////////////////////////////////////////////
  // The merge is the deep union in which `add` takes precedence
  //////////////////////////////////////////////////////////////////////////////

  /** No table names a key twice, at any depth. */
  predicate UniqueKeys(entries: seq<Entry>)
    decreases entries
  {
    entries == [] ||
    (Find(entries[1..], entries[0].key) == |entries| - 1
     && (entries[0].value.Table? ==> UniqueKeys(entries[0].value.entries))
     && UniqueKeys(entries[1..]))
  }

  /** What a key stands for after a merge, given what it stands for before, on either side. */
  function Union(b: Option<Value>, a: Option<Value>): Option<Value> {
    if a.None? then b
    else if b.Some? && b.value.Table? && a.value.Table? then
      match MergeTables(b.value.entries, a.value.entries)
      case Merged(entries) => Some(Table(entries))
      case _ => None
    else a
  }

  /** One entry of `add` changes the meaning of its own key only. */
  lemma MergeEntryLookup(temp: seq<Entry>, base: seq<Entry>, a: Entry, key: Bytes)
    requires MergeEntry(temp, base, a).Merged?
    requires Lookup(temp, a.key) == Lookup(base, a.key)
    ensures Lookup(MergeEntry(temp, base, a).entries, key)
            == if key == a.key then Union(Lookup(base, key), Some(a.value)) else Lookup(temp, key)
  {
    hide MergeTables;
    var i := Find(temp, a.key);
    if i == |temp| {
      LookupAppend(temp, a, key);
    } else {
      LookupUpdate(temp, i, MergeEntry(temp, base, a).entries[i].value, key);
    }
  }

  lemma {:induction false} MergeIntoLookup(temp: seq<Entry>, base: seq<Entry>, add: seq<Entry>, key: Bytes)
    requires UniqueKeys(add) && MergeInto(temp, base, add).Merged?
    requires forall a | a in add :: Lookup(temp, a.key) == Lookup(base, a.key)
    ensures Lookup(MergeInto(temp, base, add).entries, key)
            == if Lookup(add, key).Some? then Union(Lookup(base, key), Lookup(add, key)) else Lookup(temp, key)
    decreases |add|
  {
    hide MergeEntry, Union;
    if add != [] {
      var a, rest := add[0], add[1..];
      var next := MergeEntry(temp, base, a).entries;
      MergeEntryLookup(temp, base, a, key);
      forall r | r in rest ensures Lookup(next, r.key) == Lookup(base, r.key) {
        assert r in add;
        var j :| 0 <= j < |rest| && rest[j] == r;
        assert rest[j].key != a.key;
        MergeEntryLookup(temp, base, a, r.key);
      }
      MergeIntoLookup(next, base, rest, key);
      assert Find(rest, a.key) == |rest|;
      if key != a.key {
        LookupCons(a, rest, key);
      }
    }
  }

  lemma LookupCons(a: Entry, rest: seq<Entry>, key: Bytes)
    requires key != a.key
    ensures Lookup([a] + rest, key) == Lookup(rest, key)
  {
    assert ([a] + rest)[1..] == rest;
  }

  /** Every key of the merged table stands for what `add` says, or the merge of both tables, or what
      `base` says. */
  lemma MergeLookup(base: seq<Entry>, add: seq<Entry>, key: Bytes)
    requires UniqueKeys(add) && Mergeable(base, add)
    ensures MergeTables(base, add).Merged?
    ensures Lookup(MergeTables(base, add).entries, key) == Union(Lookup(base, key), Lookup(add, key))
  {
    MergedIff(base, add);
    MergeIntoLookup(base, base, add, key);
  }

  /** Which side a key comes from: `add` goes before `base`, and where both have a table the result is a
      table for which the same holds. */
  lemma MergePrecedence(base: seq<Entry>, add: seq<Entry>, key: Bytes)
    requires UniqueKeys(add) && Mergeable(base, add)
    ensures MergeTables(base, add).Merged?
    ensures var b, a, r := Lookup(base, key), Lookup(add, key), Lookup(MergeTables(base, add).entries, key);
            && (a.None? ==> r == b)
            && (a.Some? && !(a.value.Table? && b.Some? && b.value.Table?) ==> r == a)
            && (a.Some? && a.value.Table? && b.Some? && b.value.Table? ==>
                  && UniqueKeys(a.value.entries) && Mergeable(b.value.entries, a.value.entries)
                  && MergeTables(b.value.entries, a.value.entries).Merged?
                  && r == Some(Table(MergeTables(b.value.entries, a.value.entries).entries)))
  {
    hide MergeTables, Lookup, UniqueKeys, Mergeable;
    MergeLookup(base, add, key);
    var b, a := Lookup(base, key), Lookup(add, key);
    if a.Some? && a.value.Table? && b.Some? && b.value.Table? {
      MergedIff(base, add);
      UniqueBelow(add, key);
      NestedMerges(base, add, key);
      MergedIff(b.value.entries, a.value.entries);
    }
  }

  /** A value of `add` replaces that of `base`, and a new one goes behind it. */
  lemma MergeSample(key: Bytes, other: Bytes, old_: Value, new_: Value)
    requires key != [] && other != [] && key != other && !new_.Table? && Cloneable(old_) && Cloneable(new_)
    ensures MergeTables([Entry(key, old_)], [Entry(key, new_)]) == Merged([Entry(key, new_)])
    ensures MergeTables([Entry(key, old_)], [Entry(other, new_)]) == Merged([Entry(key, old_), Entry(other, new_)])
  {
    var base, same, more := [Entry(key, old_)], [Entry(key, new_)], [Entry(other, new_)];
    assert Find(base, key) == 0 && base[0 := Entry(key, new_)] == same;
    assert MergeEntry(base, base, same[0]) == Merged(same);
    assert same[1..] == [] && MergeInto(same, base, []) == Merged(same);
    assert MergeInto(base, base, same) == Merged(same);
    assert base[1..] == [] && Find(base, other) == 1;
    var both := [Entry(key, old_), Entry(other, new_)];
    assert base + more == both && MergeEntry(base, base, more[0]) == Merged(both);
    assert more[1..] == [] && MergeInto(both, base, []) == Merged(both);
    assert MergeInto(base, base, more) == Merged(both);
    CloneableMembers(same);
    CloneableMembers(both);
  }

  /** Some proper prefix of the path leads to a value that is not a table. */
  predicate Cut(entries: seq<Entry>, path: seq<Bytes>)
    decreases |path|
  {
    |path| > 1 &&
    var v := Lookup(entries, path[0]);
    v.Some? && (v.value.Table? ==> Cut(v.value.entries, path[1..]))
  }

  lemma UniqueBelow(entries: seq<Entry>, key: Bytes)
    requires UniqueKeys(entries) && Lookup(entries, key).Some? && Lookup(entries, key).value.Table?
    ensures UniqueKeys(Lookup(entries, key).value.entries)
  {
    if entries[0].key != key {
      LookupCons(entries[0], entries[1..], key);
      assert entries == [entries[0]] + entries[1..];
      UniqueBelow(entries[1..], key);
    }
  }

  lemma {:induction false} CutLeadsNowhere(entries: seq<Entry>, path: seq<Bytes>)
    requires path != []
    ensures Cut(entries, path) ==> LookupPath(entries, path).None?
    decreases |path|
  {
    var v := Lookup(entries, path[0]);
    if |path| > 1 && v.Some? && v.value.Table? {
      CutLeadsNowhere(v.value.entries, path[1..]);
    }
  }

  /** The same law for paths of any length: `add` decides wherever it has a value on the way, except
      that tables on both sides are merged. */
  lemma {:induction false} MergePath(base: seq<Entry>, add: seq<Entry>, path: seq<Bytes>)
    requires path != [] && UniqueKeys(add) && Mergeable(base, add)
    ensures MergeTables(base, add).Merged?
    ensures LookupPath(MergeTables(base, add).entries, path)
            == if Cut(add, path) then None else Union(LookupPath(base, path), LookupPath(add, path))
    decreases |path|
  {
    hide MergeTables, Lookup, UniqueKeys, Mergeable;
    var key := path[0];
    MergeLookup(base, add, key);
    var b, a := Lookup(base, key), Lookup(add, key);
    CutLeadsNowhere(add, path);
    if |path| > 1 && b.Some? && b.value.Table? && a.Some? && a.value.Table? {
      UniqueBelow(add, key);
      NestedMerges(base, add, key);
      MergedIff(b.value.entries, a.value.entries);
      MergePath(b.value.entries, a.value.entries, path[1..]);
    }
  }

  /** A merge succeeds only if the merges of the nested tables do. */
  lemma NestedMerges(base: seq<Entry>, add: seq<Entry>, key: Bytes)
    requires UniqueKeys(add) && MergeTables(base, add).Merged?
    requires Lookup(base, key).Some? && Lookup(base, key).value.Table?
    requires Lookup(add, key).Some? && Lookup(add, key).value.Table?
    ensures MergeTables(Lookup(base, key).value.entries, Lookup(add, key).value.entries).Merged?
  {
    NestedMergesFrom(base, base, add, key);
  }

  lemma {:induction false} NestedMergesFrom(temp: seq<Entry>, base: seq<Entry>, add: seq<Entry>, key: Bytes)
    requires UniqueKeys(add) && MergeInto(temp, base, add).Merged?
    requires forall a | a in add :: Lookup(temp, a.key) == Lookup(base, a.key)
    requires Lookup(base, key).Some? && Lookup(base, key).value.Table?
    requires Lookup(add, key).Some? && Lookup(add, key).value.Table?
    ensures MergeTables(Lookup(base, key).value.entries, Lookup(add, key).value.entries).Merged?
    decreases |add|
  {
    hide MergeTables;
    var a, rest := add[0], add[1..];
    if a.key != key {
      LookupCons(a, rest, key);
      assert add == [a] + rest;
      OthersKeepLookup(temp, base, add);
      NestedMergesFrom(MergeEntry(temp, base, a).entries, base, rest, key);
    }
  }

  /** Entries still to be merged find what they would find in the base. */
  lemma OthersKeepLookup(temp: seq<Entry>, base: seq<Entry>, add: seq<Entry>)
    requires add != [] && UniqueKeys(add) && MergeEntry(temp, base, add[0]).Merged?
    requires forall a | a in add :: Lookup(temp, a.key) == Lookup(base, a.key)
    ensures forall r | r in add[1..] :: Lookup(MergeEntry(temp, base, add[0]).entries, r.key) == Lookup(base, r.key)
  {
    hide MergeEntry, Union;
    var a, rest := add[0], add[1..];
    forall r | r in rest ensures Lookup(MergeEntry(temp, base, a).entries, r.key) == Lookup(base, r.key) {
      assert r in add;
      var j :| 0 <= j < |rest| && rest[j] == r;
      assert rest[j].key != a.key;
      MergeEntryLookup(temp, base, a, r.key);
    }
  }

  //////////////////////////////////////////////////////////////////////////////
  // When the library looks for a table that is not there
  //////////////////////////////////////////////////////////////////////////////

  /** The `k`-th entry of `add` meets a table, which either is not in `base`, or is, and merging the
      two goes astray. */
  ghost predicate StraysAt(base: seq<Entry>, add: seq<Entry>, k: nat)
    requires k < |add|
    decreases add, 0
  {
    Meets(base, add, k) &&
    var b := Lookup(base, add[k].key);
    IsTable(b) ==> Strays(b.value.entries, add[k].value.entries)
  }

  /** Some entry of `add` goes astray, and no earlier one ends the merge. */
  ghost predicate Strays(base: seq<Entry>, add: seq<Entry>)
    decreases add, 1
  {
    exists k | 0 <= k < |add| :: StraysAt(base, add, k) && forall j | 0 <= j < k :: Passes(base, add, j)
  }

  /** From any entry of `add` on. */
  lemma {:induction false} StraysFromIff(temp: seq<Entry>, base: seq<Entry>, add: seq<Entry>, k: nat)
    requires k <= |add| && Collects(temp, base, add, k) && forall j | 0 <= j < k :: Passes(base, add, j)
    requires forall j | 0 <= j < k :: !StraysAt(base, add, j)
    ensures MergeInto(temp, base, add[k..]).Stray? <==> Strays(base, add)
    decreases add, |add| - k
  {
    hide MergeTables, Lookup, Collects, StraysAt, Passes;
    if k < |add| {
      var rest := add[k..];
      assert rest[0] == add[k] && rest[1..] == add[k + 1..];
      EntryStraysIff(temp, base, add, k);
      EntryMergedIff(temp, base, add, k);
      if Passes(base, add, k) {
        EntryCollects(temp, base, add, k);
        PassesOrStrays(base, add, k);
        StraysFromIff(MergeEntry(temp, base, add[k]).entries, base, add, k + 1);
      }
    }
  }

  /** When it is an entry that goes astray. */
  lemma {:induction false} EntryStraysIff(temp: seq<Entry>, base: seq<Entry>, add: seq<Entry>, k: nat)
    requires k < |add| && Collects(temp, base, add, k)
    ensures MergeEntry(temp, base, add[k]).Stray? <==> StraysAt(base, add, k)
    decreases add, 0
  {
    hide MergeTables, Lookup, Strays;
    var a := add[k];
    FindLookup(temp, a.key);
    var b := Lookup(base, a.key);
    if a.value.Table? && IsTable(b) {
      StraysIff(b.value.entries, a.value.entries);
    }
  }

  lemma {:induction false} PassesOrStrays(base: seq<Entry>, add: seq<Entry>, k: nat)
    requires k < |add| && Passes(base, add, k)
    ensures !StraysAt(base, add, k)
    decreases add, 0
  {
    hide MergeTables, Lookup, Strays, Mergeable;
    var b := Lookup(base, add[k].key);
    if add[k].value.Table? && IsTable(b) {
      MergedIff(b.value.entries, add[k].value.entries);
      StraysIff(b.value.entries, add[k].value.entries);
    }
  }

  /** The library looks for a table that is not there exactly when an entry of `add` that is a table
      comes behind another one for the same key, `base` has no table for that key, and nothing before
      it has ended the merge; or when that happens in the tables of a key of both. */
  lemma {:induction false} StraysIff(base: seq<Entry>, add: seq<Entry>)
    ensures MergeTables(base, add).Stray? <==> Strays(base, add)
    decreases add
  {
    if base != [] || add != [] {
      assert add[0..] == add;
      StraysFromIff(base, base, add, 0);
    }
  }

  /** With an empty `base` there is nothing that could end the merge before. */
  lemma StraysFromNothingIff(add: seq<Entry>)
    ensures MergeTables([], add).Stray? <==> exists k | 0 <= k < |add| :: Meets([], add, k)
  {
    StraysIff([], add);
    if k :| 0 <= k < |add| && Meets([], add, k) {
      FirstMeeting(add, k);
    }
  }

  lemma {:induction false} FirstMeeting(add: seq<Entry>, k: nat)
    requires k < |add| && Meets([], add, k)
    ensures Strays([], add)
  {
    if forall j | 0 <= j < k :: !Meets([], add, j) {
      assert StraysAt([], add, k);
      assert forall j | 0 <= j < k :: Passes([], add, j);
    } else {
      var j :| 0 <= j < k && Meets([], add, j);
      FirstMeeting(add, j);
    }
  }

  /** A key that is a table twice is enough, whether `base` does not have it or has something else; a
      key that is twice something else is not. */
  lemma StrayInputs(key: Bytes)
    requires key != []
    ensures var table, other := Entry(key, Table([])), Entry(key, Void);
            && MergeTables([], [table, table]) == Stray
            && MergeTables([other], [table, table]) == Stray
            && MergeTables([], [other, other]) == Merged([other]) && !UniqueKeys([other, other])
  {
    var table, other := Entry(key, Table([])), Entry(key, Void);
    assert [table, table][1..] == [table] && [other, other][1..] == [other];
    StrayTwice([], table);
    StrayTwice([other], table);
    assert [] + [other] == [other] && [other][0 := other] == [other] && [other][1..] == [];
    assert MergeEntry([], [], other) == Merged([other]) && MergeEntry([other], [], other) == Merged([other]);
    assert MergeInto([other], [], []) == Merged([other]);
    assert MergeInto([other], [], [other]) == Merged([other]);
    assert MergeInto([], [], [other, other]) == Merged([other]);
    assert Find([other], key) == 0 && CloneableEntries([other]);
  }

  lemma StrayTwice(base: seq<Entry>, table: Entry)
    requires table.value.Table? && !IsTable(Lookup(base, table.key))
    ensures MergeTables(base, [table, table]) == Stray
  {
    var add := [table, table];
    assert Standing(base, add, 1, table.key) == Some(table.value);
    assert Passes(base, add, 0);
    assert StraysAt(base, add, 1);
    StraysIff(base, add);
  }

  /** With unique keys in `add` that never happens. */
  lemma {:induction false} NoStray(base: seq<Entry>, add: seq<Entry>)
    requires UniqueKeys(add)
    ensures !MergeTables(base, add).Stray?
    decreases add, 1
  {
    NoStrayFrom(base, base, add);
  }

  lemma {:induction false} NoStrayFrom(temp: seq<Entry>, base: seq<Entry>, add: seq<Entry>)
    requires UniqueKeys(add)
    requires forall a | a in add :: Lookup(temp, a.key) == Lookup(base, a.key)
    ensures !MergeInto(temp, base, add).Stray?
    decreases add, 0
  {
    hide MergeTables;
    if add != [] {
      var a := add[0];
      assert a in add;
      if a.value.Table? && Lookup(base, a.key).Some? && Lookup(base, a.key).value.Table? {
        NoStray(Lookup(base, a.key).value.entries, a.value.entries);
      }
      if MergeEntry(temp, base, a).Merged? {
        OthersKeepLookup(temp, base, add);
        NoStrayFrom(MergeEntry(temp, base, a).entries, base, add[1..]);
      }
    }
  }

  //////////////////////////////////////////////////////////////////////////////
  // Order and idempotence
  //////////////////////////////////////////////////////////////////////////////

  function Keys(entries: seq<Entry>): (r: seq<Bytes>)
    ensures |r| == |entries|
    ensures forall k | 0 <= k < |r| :: r[k] == entries[k].key
  {
    seq(|entries|, k requires 0 <= k < |entries| => entries[k].key)
  }

  /** The keys of `add` that `known` does not have, in order. */
  function NewKeys(known: seq<Bytes>, add: seq<Entry>): seq<Bytes> {
    if add == [] then []
    else if add[0].key in known then NewKeys(known, add[1..])
    else [add[0].key] + NewKeys(known, add[1..])
  }

  lemma FindIsMembership(entries: seq<Entry>, key: Bytes)
    ensures key in Keys(entries) <==> Find(entries, key) < |entries|
  {
    var i := Find(entries, key);
    if i < |entries| {
      assert Keys(entries)[i] == key;
    }
  }

  lemma {:induction false} NewKeysIrrelevant(known: seq<Bytes>, key: Bytes, add: seq<Entry>)
    requires forall a | a in add :: a.key != key
    ensures NewKeys(known + [key], add) == NewKeys(known, add)
  {
    if add != [] {
      assert add[0] in add;
      NewKeysIrrelevant(known, key, add[1..]);
    }
  }

  lemma {:induction false} MergeIntoOrder(temp: seq<Entry>, base: seq<Entry>, add: seq<Entry>)
    requires UniqueKeys(add) && MergeInto(temp, base, add).Merged?
    ensures Keys(MergeInto(temp, base, add).entries) == Keys(temp) + NewKeys(Keys(temp), add)
    decreases |add|
  {
    hide MergeTables;
    if add != [] {
      var a, rest := add[0], add[1..];
      var next := MergeEntry(temp, base, a).entries;
      FindIsMembership(temp, a.key);
      MergeIntoOrder(next, base, rest);
      if Find(temp, a.key) == |temp| {
        assert Keys(next) == Keys(temp) + [a.key];
        forall r | r in rest ensures r.key != a.key {
          var j :| 0 <= j < |rest| && rest[j] == r;
        }
        NewKeysIrrelevant(Keys(temp), a.key, rest);
      } else {
        assert Keys(next) == Keys(temp);
      }
    }
  }

  /** The keys of `base` come first, in their order, then the new ones of `add` in theirs. */
  lemma MergeOrder(base: seq<Entry>, add: seq<Entry>)
    requires UniqueKeys(add) && Mergeable(base, add)
    ensures MergeTables(base, add).Merged?
    ensures Keys(MergeTables(base, add).entries) == Keys(base) + NewKeys(Keys(base), add)
  {
    MergedIff(base, add);
    MergeIntoOrder(base, base, add);
  }

  /** No table inside the table is empty; merging two of those is refused. */
  predicate Solid(entries: seq<Entry>)
    decreases entries
  {
    entries == [] ||
    ((entries[0].value.Table? ==> entries[0].value.entries != [] && Solid(entries[0].value.entries))
     && Solid(entries[1..]))
  }

  lemma {:induction false} FindOwn(entries: seq<Entry>, k: nat)
    requires UniqueKeys(entries) && k < |entries|
    ensures Find(entries, entries[k].key) == k
    ensures entries[k].value.Table? ==> UniqueKeys(entries[k].value.entries)
    decreases |entries|
  {
    if k > 0 {
      FindOwn(entries[1..], k - 1);
      assert entries[1..][k - 1] == entries[k];
      assert entries[0].key != entries[k].key;
    }
  }

  lemma {:induction false} NestedSolid(entries: seq<Entry>, k: nat)
    requires k < |entries|
    ensures Solid(entries) && entries[k].value.Table?
            ==> entries[k].value.entries != [] && Solid(entries[k].value.entries)
    ensures CloneableEntries(entries) && entries[k].value.Table? ==> CloneableEntries(entries[k].value.entries)
    decreases |entries|
  {
    if k > 0 {
      NestedSolid(entries[1..], k - 1);
      assert entries[1..][k - 1] == entries[k];
    } else if entries[0].value.Table? {
      assert Cloneable(entries[0].value) ==> CloneableEntries(entries[0].value.entries);
    }
  }

  /** Merging a table with itself gives it back. */
  lemma {:induction false} MergeSelf(t: seq<Entry>)
    requires t != [] && UniqueKeys(t) && Solid(t) && CloneableEntries(t)
    ensures MergeTables(t, t) == Merged(t)
    decreases t, 1
  {
    MergeSelfFrom(t, 0);
    assert t[0..] == t;
  }

  lemma {:induction false} MergeSelfFrom(t: seq<Entry>, k: nat)
    requires t != [] && UniqueKeys(t) && Solid(t) && CloneableEntries(t) && k <= |t|
    ensures MergeInto(t, t, t[k..]) == Merged(t)
    decreases t, 0, |t| - k
  {
    hide MergeTables, Find, UniqueKeys, Solid, CloneableEntries;
    if k < |t| {
      var a := t[k];
      FindOwn(t, k);
      NestedSolid(t, k);
      if a.value.Table? {
        MergeSelf(a.value.entries);
      }
      assert t[k := Entry(a.key, a.value)] == t;
      assert t[k..][0] == a && t[k..][1..] == t[k + 1..];
      MergeSelfFrom(t, k + 1);
    }
  }

  lemma {:induction false} SolidFromNested(entries: seq<Entry>, k: nat)
    requires k <= |entries|
    requires forall i | k <= i < |entries| && entries[i].value.Table? ::
      entries[i].value.entries != [] && Solid(entries[i].value.entries)
    ensures Solid(entries[k..])
    decreases |entries| - k
  {
    if k < |entries| {
      SolidFromNested(entries, k + 1);
      assert entries[k..][0] == entries[k] && entries[k..][1..] == entries[k + 1..];
    }
  }

  /** Merging a table with itself gives it back exactly when neither it nor a table inside it is
      empty and it can be cloned. */
  lemma {:induction false} MergeSelfIff(t: seq<Entry>)
    requires UniqueKeys(t)
    ensures MergeTables(t, t) == Merged(t) <==> t != [] && Solid(t) && CloneableEntries(t)
    decreases t
  {
    if t != [] && Solid(t) && CloneableEntries(t) {
      MergeSelf(t);
    }
    if MergeTables(t, t) == Merged(t) {
      forall i | 0 <= i < |t| && t[i].value.Table?
        ensures t[i].value.entries != [] && Solid(t[i].value.entries)
      {
        var key, nested := t[i].key, t[i].value.entries;
        FindOwn(t, i);
        MergedIff(t, t);
        MergeLookup(t, t, key);
        NestedMerges(t, t, key);
        MergeSelfIff(nested);
      }
      SolidFromNested(t, 0);
      assert t[0..] == t;
    }
  }
}
