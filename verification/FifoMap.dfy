/** The bounded first-in-first-out map, and what every run of operations on it keeps. */
module FifoMaps {
  import opened Prelude

  /** An insertion-ordered map: the keys in order, and their values. */
  datatype Entries<K(==, !new), V> = Entries(order: seq<K>, values: map<K, V>)
  {
    ghost predicate Valid() {
      Distinct(order) && forall k :: k in order <==> k in values
    }

    function Get(k: K): Option<V> {
      if k in values then Some(values[k]) else None
    }

    /** An update keeps the place of the key; a new key goes last. */
    function Put(k: K, v: V): Entries<K, V> {
      Entries(if k in values then order else order + [k], values[k := v])
    }

    function Without(k: K): Entries<K, V> {
      Entries(DropKey(order, k), values - {k})
    }
  }

  function DropKey<K(==, !new)>(order: seq<K>, k: K): seq<K> {
    if order == [] then []
    else if order[0] == k then order[1..]
    else [order[0]] + DropKey(order[1..], k)
  }

  /** An insertion comes with the capacity the backing map reports at that moment. */
  datatype Op<K, V> =
    | Insert(key: K, value: V, capacity: nat)
    | Update(key: K, value: V)
    | Remove(key: K)
    | Clear

  /** The key a fresh insertion pushes out. */
  function Evicted<K(==, !new), V>(e: Entries<K, V>, capacity: nat, k: K): Option<K> {
    if k !in e.values && |e.order| == capacity && e.order != [] then Some(e.order[0]) else None
  }

  function Apply<K(==, !new), V>(e: Entries<K, V>, op: Op<K, V>): Entries<K, V> {
    match op
    case Insert(k, v, capacity) =>
      var evicted := Evicted(e, capacity, k);
      (if evicted.Some? then e.Without(evicted.value) else e).Put(k, v)
    case Update(k, v) => if k in e.values then e.Put(k, v) else e
    case Remove(k) => e.Without(k)
    case Clear => Entries([], map[])
  }

  function Run<K(==, !new), V>(ops: seq<Op<K, V>>): Entries<K, V> {
    if ops == [] then Entries([], map[]) else
      Apply(Run(ops[..|ops| - 1]), ops[|ops| - 1])
  }

  class FifoMap<K(==, !new), V> {
    var entries: Entries<K, V>

    ghost predicate Valid()
      reads this
    {
      entries.Valid()
    }

    constructor ()
      ensures Valid() && entries == Entries([], map[])
    {
      entries := Entries([], map[]);
    }

    method Insert(key: K, value: V, capacity: nat) returns (oldValue: Option<V>, evicted: Option<K>)
      requires Valid()
      modifies this
      ensures Valid()
      ensures entries == Apply(old(entries), Op.Insert(key, value, capacity))
      ensures oldValue == old(entries).Get(key)
      ensures evicted == Evicted(old(entries), capacity, key)
    {
      ApplyKeeps(entries, Op.Insert(key, value, capacity));
      if key in entries.values {
        oldValue, evicted := Some(entries.values[key]), None;
        entries := entries.(values := entries.values[key := value]);
        return;
      }
      oldValue, evicted := None, None;
      if |entries.order| == capacity && entries.order != [] {
        evicted := Some(entries.order[0]);
        entries := Entries(entries.order[1..], entries.values - {entries.order[0]});
      }
      entries := Entries(entries.order + [key], entries.values[key := value]);
    }

    /** `get_mut` and a write through it. */
    method Update(key: K, value: V) returns (found: bool)
      requires Valid()
      modifies this
      ensures Valid() && found == (key in old(entries).values)
      ensures entries == Apply(old(entries), Op.Update(key, value))
    {
      ApplyKeeps(entries, Op.Update(key, value));
      found := key in entries.values;
      if found {
        entries := entries.(values := entries.values[key := value]);
      }
    }

    method Remove(key: K) returns (removed: Option<V>)
      requires Valid()
      modifies this
      ensures Valid() && removed == old(entries).Get(key)
      ensures entries == Apply(old(entries), Op.Remove(key))
    {
      ApplyKeeps(entries, Op.Remove(key));
      removed := entries.Get(key);
      entries := entries.Without(key);
    }

    method Clear()
      requires Valid()
      modifies this
      ensures Valid() && entries == Apply(old(entries), Op.Clear)
    {
      entries := Entries([], map[]);
    }
  }

  lemma {:induction false} DropKeyKeeps<K(!new)>(order: seq<K>, k: K)
    requires Distinct(order)
    ensures Distinct(DropKey(order, k))
    ensures forall x :: x in DropKey(order, k) <==> x in order && x != k
    ensures |DropKey(order, k)| == |order| - (if k in order then 1 else 0)
  {
    if order != [] {
      assert order == [order[0]] + order[1..];
      if order[0] != k {
        DropKeyKeeps(order[1..], k);
        assert order[0] !in order[1..];
      }
    }
  }

  /** Every operation keeps the keys distinct, whatever capacity is reported. */
  lemma ApplyKeeps<K(!new), V>(e: Entries<K, V>, op: Op<K, V>)
    requires e.Valid()
    ensures Apply(e, op).Valid()
    ensures |Apply(e, op).order| <= |e.order| || (op.Insert? && |Apply(e, op).order| == |e.order| + 1)
    ensures op.Insert? && |e.order| == op.capacity && e.order != [] ==> |Apply(e, op).order| == |e.order|
  {
    match op
    case Insert(k, _, capacity) =>
      var evicted := Evicted(e, capacity, k);
      if evicted.Some? {
        DropKeyKeeps(e.order, evicted.value);
      }
    case Remove(k) => DropKeyKeeps(e.order, k);
    case _ =>
  }

  /** Which keys an operation leaves in the map, and that it changes no value but the one it writes. */
  lemma ApplyMeaning<K(!new), V>(e: Entries<K, V>, op: Op<K, V>, x: K)
    requires e.Valid()
    ensures var after := Apply(e, op);
            && (x in after.values <==>
                  match op
                  case Insert(k, _, capacity) => x == k || (x in e.values && Evicted(e, capacity, k) != Some(x))
                  case Update(_, _) => x in e.values
                  case Remove(k) => x in e.values && x != k
                  case Clear => false)
            && (x in after.values && (op.Insert? || op.Update?) && x == op.key ==> after.values[x] == op.value)
            && (x in after.values && !((op.Insert? || op.Update?) && x == op.key) ==>
                  x in e.values && after.values[x] == e.values[x])
  {
    assert e.order != [] ==> e.order[0] in e.order;
  }

  lemma {:induction false} RunKeeps<K(!new), V>(ops: seq<Op<K, V>>)
    ensures Run(ops).Valid()
  {
    if ops != [] {
      RunKeeps(ops[..|ops| - 1]);
      ApplyKeeps(Run(ops[..|ops| - 1]), ops[|ops| - 1]);
    }
  }

  /** The capacity reported at each insertion is at most `limit`, and never less than the number of keys held. */
  ghost predicate Reported<K(!new), V>(ops: seq<Op<K, V>>, limit: nat) {
    forall i :: 0 <= i < |ops| && ops[i].Insert? ==> |Run(ops[..i]).order| <= ops[i].capacity <= limit
  }

  /** However the reported capacity moves, the map never outgrows its bound; an empty map always takes one key. */
  lemma {:induction false} LengthBound<K(!new), V>(ops: seq<Op<K, V>>, limit: nat)
    requires Reported(ops, limit)
    ensures |Run(ops).order| <= if limit == 0 then 1 else limit
  {
    if ops != [] {
      var init, last := ops[..|ops| - 1], ops[|ops| - 1];
      forall i | 0 <= i < |init| && init[i].Insert? ensures |Run(init[..i]).order| <= init[i].capacity <= limit {
        assert init[..i] == ops[..i] && init[i] == ops[i];
      }
      LengthBound(init, limit);
      RunKeeps(init);
      ApplyKeeps(Run(init), last);
    }
  }

  /** A capacity that stays the same bounds the map by itself. */
  lemma {:induction false} FixedCapacity<K(!new), V>(ops: seq<Op<K, V>>, capacity: nat)
    requires capacity >= 1 && forall i :: 0 <= i < |ops| && ops[i].Insert? ==> ops[i].capacity == capacity
    ensures |Run(ops).order| <= capacity
  {
    if ops != [] {
      var init, last := ops[..|ops| - 1], ops[|ops| - 1];
      FixedCapacity(init, capacity);
      RunKeeps(init);
      ApplyKeeps(Run(init), last);
    }
  }

  // ----- the same map described by its history

  /** How many operations had run when `k` was last inserted as a new key. */
  function BirthOf<K(==, !new), V>(ops: seq<Op<K, V>>, k: K): int {
    if ops == [] then -1 else
      var init, last := ops[..|ops| - 1], ops[|ops| - 1];
      if last.Insert? && last.key == k && k !in Run(init).values then |init| else BirthOf(init, k)
  }

  /** The last value written under `k`. */
  function LastWrite<K(==, !new), V>(ops: seq<Op<K, V>>, k: K): Option<V> {
    if ops == [] then None else
      var init, last := ops[..|ops| - 1], ops[|ops| - 1];
      if (last.Insert? || last.Update?) && last.key == k then Some(last.value) else LastWrite(init, k)
  }

  /** A key in the map was born by a fresh insertion. */
  lemma {:induction false} PresentWasBorn<K(!new), V>(ops: seq<Op<K, V>>, k: K)
    requires k in Run(ops).values
    ensures var b := BirthOf(ops, k);
            0 <= b < |ops| && ops[b].Insert? && ops[b].key == k && k !in Run(ops[..b]).values
  {
    var init := ops[..|ops| - 1];
    if k in Run(init).values {
      PresentWasBorn(init, k);
      assert init[..BirthOf(init, k)] == ops[..BirthOf(init, k)];
    }
  }

  ghost predicate BirthOrder<K(!new), V>(ops: seq<Op<K, V>>, order: seq<K>) {
    forall i, j :: 0 <= i < j < |order| ==> BirthOf(ops, order[i]) < BirthOf(ops, order[j])
  }

  lemma {:induction false} BirthBound<K(!new), V>(ops: seq<Op<K, V>>, k: K)
    ensures BirthOf(ops, k) < |ops|
  {
    if ops != [] {
      BirthBound(ops[..|ops| - 1], k);
    }
  }

  lemma {:induction false} DropKeyMembers<K(!new)>(order: seq<K>, k: K)
    ensures forall x :: x in DropKey(order, k) ==> x in order
  {
    if order != [] && order[0] != k {
      DropKeyMembers(order[1..], k);
    }
  }

  lemma {:induction false} DropKeyBirths<K(!new), V>(ops: seq<Op<K, V>>, order: seq<K>, k: K)
    requires BirthOrder(ops, order)
    ensures BirthOrder(ops, DropKey(order, k))
  {
    if order != [] && order[0] != k {
      DropKeyBirths(ops, order[1..], k);
      DropKeyMembers(order[1..], k);
      var rest := DropKey(order[1..], k);
      forall j | 0 <= j < |rest| ensures BirthOf(ops, order[0]) < BirthOf(ops, rest[j]) {
        assert rest[j] in order[1..];
      }
    }
  }

  /** Births do not change under an operation that inserts no new key. */
  lemma BirthsStay<K(!new), V>(init: seq<Op<K, V>>, op: Op<K, V>, order: seq<K>)
    requires BirthOrder(init, order)
    requires op.Insert? ==> op.key in Run(init).values || op.key !in order
    ensures BirthOrder(init + [op], order)
  {
    var ops := init + [op];
    assert ops[..|init|] == init;
    forall x | x in order ensures BirthOf(ops, x) == BirthOf(init, x) {
    }
  }

  lemma BirthsAppend<K(!new), V>(ops: seq<Op<K, V>>, order: seq<K>, k: K)
    requires ops != [] && BirthOrder(ops, order) && BirthOf(ops, k) == |ops| - 1
    requires forall x :: x in order ==> BirthOf(ops, x) < |ops| - 1
    ensures BirthOrder(ops, order + [k])
  {
  }

  /** Over any run, the map iterates in the order of fresh insertion: updates never move a key. */
  lemma {:induction false} IterationIsBirthOrder<K(!new), V>(ops: seq<Op<K, V>>)
    ensures BirthOrder(ops, Run(ops).order)
  {
    if ops != [] {
      var init, last := ops[..|ops| - 1], ops[|ops| - 1];
      assert ops == init + [last];
      var before := Run(init);
      IterationIsBirthOrder(init);
      RunKeeps(init);
      match last
      case Insert(k, _, capacity) =>
        var evicted := Evicted(before, capacity, k);
        var kept := if evicted.Some? then DropKey(before.order, evicted.value) else before.order;
        if evicted.Some? {
          DropKeyBirths(init, before.order, evicted.value);
          DropKeyMembers(before.order, evicted.value);
        }
        BirthsStay(init, last, kept);
        if k !in before.values {
          forall x | x in kept ensures BirthOf(ops, x) < |init| {
            BirthBound(init, x);
          }
          BirthsAppend(ops, kept, k);
        }
      case Update(_, _) => BirthsStay(init, last, before.order);
      case Remove(k) =>
        DropKeyBirths(init, before.order, k);
        BirthsStay(init, last, DropKey(before.order, k));
      case Clear =>
    }
  }

  /** An insertion that pushes a key out names the one inserted longest ago, and only a fresh key in a full map does. */
  lemma EvictionIsOldest<K(!new), V>(ops: seq<Op<K, V>>, capacity: nat, k: K)
    ensures var before := Run(ops);
            var evicted := Evicted(before, capacity, k);
            && (evicted.Some? <==> k !in before.values && |before.order| == capacity != 0)
            && (evicted.Some? ==> evicted.value in before.values)
            && (evicted.Some? ==> forall x :: x in before.values && x != evicted.value ==>
                  BirthOf(ops, evicted.value) < BirthOf(ops, x))
  {
    RunKeeps(ops);
    IterationIsBirthOrder(ops);
    var before := Run(ops);
    if k !in before.values && |before.order| == capacity != 0 {
      forall x | x in before.values && x != before.order[0]
        ensures BirthOf(ops, before.order[0]) < BirthOf(ops, x)
      {
        var i :| 0 <= i < |before.order| && before.order[i] == x;
      }
    }
  }

  /** Reading a key gives the last value written under it. */
  lemma {:induction false} GetIsLastWrite<K(!new), V>(ops: seq<Op<K, V>>, k: K)
    requires k in Run(ops).values
    ensures Run(ops).Get(k) == LastWrite(ops, k)
  {
    if ops != [] {
      var init, last := ops[..|ops| - 1], ops[|ops| - 1];
      if k in Run(init).values {
        GetIsLastWrite(init, k);
      }
    }
  }
}
