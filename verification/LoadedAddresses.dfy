/** The address-lookup tables a transaction loaded: an insertion-ordered map from table to indexed addresses. */
module LoadedAddresses {
  import opened Prelude

  datatype Key = Key(bytes: seq<u8>)

  datatype Indexed = Indexed(index: u8, address: Key)

  datatype Loaded = Loaded(writable: seq<Indexed>, readonly: seq<Indexed>)
  {
    predicate IsEmpty() {
      writable == [] && readonly == []
    }
  }

  datatype Table = Table(key: Key, loaded: Loaded)

  datatype Lookup = Lookup(accountKey: Key, writableIndexes: seq<u8>, readonlyIndexes: seq<u8>)

  type Tables = seq<Table>

  ghost predicate KeysDistinct(tables: Tables) {
    forall i, j :: 0 <= i < j < |tables| ==> tables[i].key != tables[j].key
  }

  function Addresses(entries: seq<Indexed>): seq<Key> {
    seq(|entries|, i requires 0 <= i < |entries| => entries[i].address)
  }

  function Indexes(entries: seq<Indexed>): seq<u8> {
    seq(|entries|, i requires 0 <= i < |entries| => entries[i].index)
  }

  /** The two lists of a table; one law serves both. */
  datatype Side = Writable | Readonly

  function Entries(t: Loaded, side: Side): seq<Indexed> {
    match side case Writable => t.writable case Readonly => t.readonly
  }

  function Keep(entries: seq<Indexed>, members: set<Key>): seq<Indexed> {
    if entries == [] then [] else
      var last := entries[|entries| - 1];
      Keep(entries[..|entries| - 1], members) + (if last.address in members then [last] else [])
  }

  function KeepKeys(keys: seq<Key>, members: set<Key>): seq<Key> {
    if keys == [] then [] else
      KeepKeys(keys[..|keys| - 1], members) + (if keys[|keys| - 1] in members then [keys[|keys| - 1]] else [])
  }

  function FilterTable(t: Loaded, writable: set<Key>, readonly: set<Key>): Loaded {
    Loaded(Keep(t.writable, writable), Keep(t.readonly, readonly))
  }

  /** Tables with nothing left are dropped. */
  function Filter(tables: Tables, writable: set<Key>, readonly: set<Key>): Tables {
    if tables == [] then [] else
      var last := tables[|tables| - 1];
      var kept := FilterTable(last.loaded, writable, readonly);
      Filter(tables[..|tables| - 1], writable, readonly) + (if kept.IsEmpty() then [] else [Table(last.key, kept)])
  }

  /** All entries of one side, table after table. */
  function AllEntries(tables: Tables, side: Side): seq<Indexed> {
    if tables == [] then [] else
      AllEntries(tables[..|tables| - 1], side) + Entries(tables[|tables| - 1].loaded, side)
  }

  function Flatten(tables: Tables, side: Side): seq<Key> {
    if tables == [] then [] else
      Flatten(tables[..|tables| - 1], side) + Addresses(Entries(tables[|tables| - 1].loaded, side))
  }

  function ToLookups(tables: Tables): seq<Lookup> {
    seq(|tables|, i requires 0 <= i < |tables| =>
      Lookup(tables[i].key, Indexes(tables[i].loaded.writable), Indexes(tables[i].loaded.readonly)))
  }

  function LookupIndexes(l: Lookup, side: Side): seq<u8> {
    match side case Writable => l.writableIndexes case Readonly => l.readonlyIndexes
  }

  function ConcatIndexes(lookups: seq<Lookup>, side: Side): seq<u8> {
    if lookups == [] then [] else
      ConcatIndexes(lookups[..|lookups| - 1], side) + LookupIndexes(lookups[|lookups| - 1], side)
  }

  /** The summed lengths of one side. */
  function Length(tables: Tables, side: Side): nat {
    if tables == [] then 0 else
      Length(tables[..|tables| - 1], side) + |Entries(tables[|tables| - 1].loaded, side)|
  }

  function IndexOf(tables: Tables, key: Key): (i: nat)
    ensures i <= |tables|
    ensures i < |tables| ==> tables[i].key == key
    ensures forall j :: 0 <= j < i ==> tables[j].key != key
  {
    FirstIndex(tables, (t: Table) => t.key == key)
  }

  /** `IndexMap::insert`: a known key keeps its place. */
  function Inserted(tables: Tables, key: Key, loaded: Loaded): Tables {
    PutAt(tables, IndexOf(tables, key), Table(key, loaded))
  }

  class TransactionLoadedAddresses {
    var tables: Tables

    ghost predicate Valid()
      reads this
    {
      KeysDistinct(tables)
    }

    constructor ()
      ensures Valid() && tables == []
    {
      tables := [];
    }

    method Insert(key: Key, loaded: Loaded)
      requires Valid()
      modifies this
      ensures Valid() && tables == Inserted(old(tables), key, loaded)
    {
      var i := IndexOf(tables, key);
      if i < |tables| {
        tables := tables[i := Table(key, loaded)];
      } else {
        tables := tables + [Table(key, loaded)];
      }
    }

    method FilterFromMembers(writable: set<Key>, readonly: set<Key>) returns (filtered: TransactionLoadedAddresses)
      requires Valid()
      ensures fresh(filtered) && filtered.Valid()
      ensures filtered.tables == Filter(tables, writable, readonly)
    {
      filtered := new TransactionLoadedAddresses();
      for n := 0 to |tables|
        invariant fresh(filtered) && filtered.Valid()
        invariant filtered.tables == Filter(tables[..n], writable, readonly)
      {
        assert tables[..n + 1][..n] == tables[..n];
        var kept := FilterTable(tables[n].loaded, writable, readonly);
        FilterNew(tables, n, writable, readonly, kept);
        if !kept.IsEmpty() {
          filtered.Insert(tables[n].key, kept);
        }
      }
      assert tables[..|tables|] == tables;
    }

    method LoadedAddressLists() returns (writable: seq<Key>, readonly: seq<Key>)
      ensures writable == Flatten(tables, Writable) && readonly == Flatten(tables, Readonly)
    {
      writable, readonly := [], [];
      for n := 0 to |tables|
        invariant writable == Flatten(tables[..n], Writable) && readonly == Flatten(tables[..n], Readonly)
      {
        assert tables[..n + 1][..n] == tables[..n];
        writable := writable + Addresses(tables[n].loaded.writable);
        readonly := readonly + Addresses(tables[n].loaded.readonly);
      }
      assert tables[..|tables|] == tables;
    }

    /** Every writable address, then every read-only one. */
    method AllLoadedAddresses() returns (all: seq<Key>)
      ensures all == Flatten(tables, Writable) + Flatten(tables, Readonly)
    {
      var writable, readonly := LoadedAddressLists();
      all := writable + readonly;
    }
  }

  /** Inserting writes one table, at its old place or last, and moves no other. */
  lemma InsertedExact(tables: Tables, key: Key, loaded: Loaded)
    requires KeysDistinct(tables)
    ensures var after := Inserted(tables, key, loaded);
            if exists i :: 0 <= i < |tables| && tables[i].key == key then
              && |after| == |tables|
              && forall i :: 0 <= i < |tables| ==>
                   after[i] == if tables[i].key == key then Table(key, loaded) else tables[i]
            else after == tables + [Table(key, loaded)]
  {
  }

  lemma {:induction false} KeepAddresses(entries: seq<Indexed>, members: set<Key>)
    ensures Addresses(Keep(entries, members)) == KeepKeys(Addresses(entries), members)
  {
    if entries != [] {
      var n := |entries| - 1;
      KeepAddresses(entries[..n], members);
      assert Addresses(entries)[..n] == Addresses(entries[..n]);
      var kept := Keep(entries[..n], members);
      assert entries[n].address in members ==> Addresses(kept + [entries[n]]) == Addresses(kept) + [entries[n].address];
    }
  }

  lemma {:induction false} KeepKeysAppend(a: seq<Key>, b: seq<Key>, members: set<Key>)
    ensures KeepKeys(a + b, members) == KeepKeys(a, members) + KeepKeys(b, members)
  {
    if b == [] {
      assert a + b == a;
    } else {
      var n := |b| - 1;
      assert (a + b)[..|a| + n] == a + b[..n];
      KeepKeysAppend(a, b[..n], members);
    }
  }

  lemma FlattenStep(init: Tables, last: Table, side: Side)
    ensures Flatten(init + [last], side) == Flatten(init, side) + Addresses(Entries(last.loaded, side))
  {
    assert (init + [last])[..|init|] == init;
  }

  lemma FilterStep(init: Tables, last: Table, writable: set<Key>, readonly: set<Key>, side: Side)
    ensures Flatten(Filter(init + [last], writable, readonly), side) ==
      Flatten(Filter(init, writable, readonly), side) +
      KeepKeys(Addresses(Entries(last.loaded, side)), if side == Writable then writable else readonly)
  {
    assert (init + [last])[..|init|] == init;
    var rest, kept := Filter(init, writable, readonly), FilterTable(last.loaded, writable, readonly);
    KeepAddresses(Entries(last.loaded, side), if side == Writable then writable else readonly);
    if kept.IsEmpty() {
      assert rest + [] == rest;
    } else {
      FlattenStep(rest, Table(last.key, kept), side);
    }
  }

  /** Filtering by membership and then flattening is flattening and then filtering; a dropped table adds nothing. */
  lemma {:induction false} FilterFlatten(tables: Tables, writable: set<Key>, readonly: set<Key>, side: Side)
    ensures Flatten(Filter(tables, writable, readonly), side) ==
      KeepKeys(Flatten(tables, side), if side == Writable then writable else readonly)
  {
    if tables != [] {
      var init, last := tables[..|tables| - 1], tables[|tables| - 1];
      assert tables == init + [last];
      FilterFlatten(init, writable, readonly, side);
      FilterStep(init, last, writable, readonly, side);
      FlattenStep(init, last, side);
      KeepKeysAppend(Flatten(init, side), Addresses(Entries(last.loaded, side)),
                     if side == Writable then writable else readonly);
    }
  }

  /** Some address of the table is a member. */
  ghost predicate Survives(t: Loaded, writable: set<Key>, readonly: set<Key>) {
    || (exists e :: e in t.writable && e.address in writable)
    || (exists e :: e in t.readonly && e.address in readonly)
  }

  ghost function SurvivorKeys(tables: Tables, writable: set<Key>, readonly: set<Key>): seq<Key> {
    if tables == [] then [] else
      var last := tables[|tables| - 1];
      SurvivorKeys(tables[..|tables| - 1], writable, readonly) +
      (if Survives(last.loaded, writable, readonly) then [last.key] else [])
  }

  function TableKeys(tables: Tables): seq<Key> {
    seq(|tables|, i requires 0 <= i < |tables| => tables[i].key)
  }

  /** The tables left are those with an address left, in their old order. */
  lemma {:induction false} FilterKeepsSurvivors(tables: Tables, writable: set<Key>, readonly: set<Key>)
    ensures TableKeys(Filter(tables, writable, readonly)) == SurvivorKeys(tables, writable, readonly)
  {
    if tables != [] {
      var last := tables[|tables| - 1];
      FilterKeepsSurvivors(tables[..|tables| - 1], writable, readonly);
      KeepEmpty(last.loaded.writable, writable);
      KeepEmpty(last.loaded.readonly, readonly);
    }
  }

  lemma {:induction false} FilterKeys(tables: Tables, writable: set<Key>, readonly: set<Key>)
    ensures forall k :: k in Filter(tables, writable, readonly) ==>
      exists i :: 0 <= i < |tables| && tables[i].key == k.key
  {
    if tables != [] {
      var n := |tables| - 1;
      FilterKeys(tables[..n], writable, readonly);
    }
  }

  /** The next table's key is not among the filtered ones, so inserting it appends. */
  lemma FilterNew(tables: Tables, n: nat, writable: set<Key>, readonly: set<Key>, loaded: Loaded)
    requires n < |tables| && KeysDistinct(tables)
    ensures var before := Filter(tables[..n], writable, readonly);
            Inserted(before, tables[n].key, loaded) == before + [Table(tables[n].key, loaded)]
  {
    var before := Filter(tables[..n], writable, readonly);
    var i := IndexOf(before, tables[n].key);
    assert i < |before| ==> before[i] in before;
    FilterKeys(tables[..n], writable, readonly);
  }

  lemma {:induction false} KeepEmpty(entries: seq<Indexed>, members: set<Key>)
    ensures Keep(entries, members) != [] <==> exists e :: e in entries && e.address in members
  {
    if entries != [] {
      var n := |entries| - 1;
      KeepEmpty(entries[..n], members);
      assert entries == entries[..n] + [entries[n]];
    }
  }

  ghost predicate Increasing(at: seq<nat>) {
    forall i, j :: 0 <= i < j < |at| ==> at[i] < at[j]
  }

  /** The entries kept are those at the positions `at`: in order, index and address together, every member's. */
  ghost predicate KeptAt(entries: seq<Indexed>, members: set<Key>, kept: seq<Indexed>, at: seq<nat>) {
    && |at| == |kept| && Increasing(at)
    && (forall i :: 0 <= i < |at| ==> at[i] < |entries| && kept[i] == entries[at[i]])
    && (forall j: nat :: j < |entries| ==> (entries[j].address in members <==> j in at))
  }

  lemma NextPosition(init: seq<nat>, n: nat, taken: bool)
    requires Increasing(init) && forall i :: 0 <= i < |init| ==> init[i] < n
    ensures var at := init + (if taken then [n] else []);
            Increasing(at) && (n in at <==> taken) && forall j :: j < n ==> (j in at <==> j in init)
  {
  }

  lemma KeptStep(init: seq<Indexed>, last: Indexed, members: set<Key>, kept: seq<Indexed>, at: seq<nat>)
    requires KeptAt(init, members, kept, at) && last.address in members
    ensures KeptAt(init + [last], members, kept + [last], at + [|init|])
  {
    NextPosition(at, |init|, true);
  }

  lemma DroppedStep(init: seq<Indexed>, last: Indexed, members: set<Key>, kept: seq<Indexed>, at: seq<nat>)
    requires KeptAt(init, members, kept, at) && last.address !in members
    ensures KeptAt(init + [last], members, kept, at)
  {
    NextPosition(at, |init|, false);
    assert at + [] == at;
  }

  /** A filter keeps the index-address pairs of the members, in their order, and no others. */
  lemma {:induction false} KeptPositions(entries: seq<Indexed>, members: set<Key>) returns (at: seq<nat>)
    ensures KeptAt(entries, members, Keep(entries, members), at)
  {
    at := [];
    if entries != [] {
      var init, last := entries[..|entries| - 1], entries[|entries| - 1];
      at := KeptPositions(init, members);
      assert entries == init + [last];
      if last.address in members {
        KeptStep(init, last, members, Keep(init, members), at);
        at := at + [|init|];
      } else {
        DroppedStep(init, last, members, Keep(init, members), at);
      }
    }
  }

  /** The tables left are those at the positions `at`, each with what the filter keeps of its two lists. */
  ghost predicate FilteredAt(tables: Tables, writable: set<Key>, readonly: set<Key>, kept: Tables, at: seq<nat>) {
    && |at| == |kept| && Increasing(at)
    && (forall i :: 0 <= i < |at| ==>
          && at[i] < |tables| && kept[i].key == tables[at[i]].key
          && kept[i].loaded.writable == Keep(tables[at[i]].loaded.writable, writable)
          && kept[i].loaded.readonly == Keep(tables[at[i]].loaded.readonly, readonly))
    && (forall j: nat :: j < |tables| ==> (Survives(tables[j].loaded, writable, readonly) <==> j in at))
  }

  lemma SurvivorStep(
    init: Tables, last: Table, writable: set<Key>, readonly: set<Key>, kept: Tables, at: seq<nat>)
    requires FilteredAt(init, writable, readonly, kept, at) && Survives(last.loaded, writable, readonly)
    ensures FilteredAt(init + [last], writable, readonly,
                       kept + [Table(last.key, FilterTable(last.loaded, writable, readonly))], at + [|init|])
  {
    NextPosition(at, |init|, true);
  }

  lemma EmptiedStep(
    init: Tables, last: Table, writable: set<Key>, readonly: set<Key>, kept: Tables, at: seq<nat>)
    requires FilteredAt(init, writable, readonly, kept, at) && !Survives(last.loaded, writable, readonly)
    ensures FilteredAt(init + [last], writable, readonly, kept, at)
  {
    NextPosition(at, |init|, false);
    assert at + [] == at;
  }

  /** A filtered map has each table that keeps an address, in the old order, with the kept part of its lists. */
  lemma {:induction false} FilteredPositions(tables: Tables, writable: set<Key>, readonly: set<Key>)
    returns (at: seq<nat>)
    ensures FilteredAt(tables, writable, readonly, Filter(tables, writable, readonly), at)
  {
    at := [];
    if tables != [] {
      var init, last := tables[..|tables| - 1], tables[|tables| - 1];
      at := FilteredPositions(init, writable, readonly);
      assert tables == init + [last];
      KeepEmpty(last.loaded.writable, writable);
      KeepEmpty(last.loaded.readonly, readonly);
      if Survives(last.loaded, writable, readonly) {
        SurvivorStep(init, last, writable, readonly, Filter(init, writable, readonly), at);
        at := at + [|init|];
      } else {
        EmptiedStep(init, last, writable, readonly, Filter(init, writable, readonly), at);
      }
    }
  }

  /** Each table becomes one lookup, at its place and under its key, with the indexes of its two lists. */
  lemma LookupAt(tables: Tables, i: nat, side: Side, j: nat)
    requires i < |tables|
    ensures |ToLookups(tables)| == |tables| && ToLookups(tables)[i].accountKey == tables[i].key
    ensures |LookupIndexes(ToLookups(tables)[i], side)| == |Entries(tables[i].loaded, side)|
    ensures j < |Entries(tables[i].loaded, side)| ==>
      LookupIndexes(ToLookups(tables)[i], side)[j] == Entries(tables[i].loaded, side)[j].index
  {
  }

  /** The concatenated lookup indexes and the flattened addresses are the two halves of one list of pairs, as long as
      the reported length, so position `i` of one belongs to position `i` of the other. */
  lemma {:induction false} LookupsAligned(tables: Tables, side: Side)
    ensures Flatten(tables, side) == Addresses(AllEntries(tables, side))
    ensures ConcatIndexes(ToLookups(tables), side) == Indexes(AllEntries(tables, side))
    ensures |Flatten(tables, side)| == |ConcatIndexes(ToLookups(tables), side)| == Length(tables, side)
  {
    if tables != [] {
      var n := |tables| - 1;
      LookupsAligned(tables[..n], side);
      var front, back := AllEntries(tables[..n], side), Entries(tables[n].loaded, side);
      assert ToLookups(tables)[..n] == ToLookups(tables[..n]);
      assert Addresses(front + back) == Addresses(front) + Addresses(back);
      assert Indexes(front + back) == Indexes(front) + Indexes(back);
    }
  }
}
