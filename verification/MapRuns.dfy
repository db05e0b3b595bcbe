/** Whole runs of the hash map: insertions, lookups, reservations and resets in any order. */
module MapRuns {
  import opened HashMap
  import opened Options
  import opened Sizes
  import opened Tables

  datatype Call<K, V> = Put(key: K, value: V, pool: bool) | Get(key: K) | Grow(wanted: nat, pool: bool) | Empty

  datatype Outcome<V> = Done(status: Status) | Value(found: Option<V>)

  /** A mathematical map, the number of its slots and the bytes of one slot. */
  datatype Model<K, V> = Model(entries: map<K, V>, capacity: nat, slotSize: nat)

  /** What the map answers: it depends on nothing but its entries, its capacity and the pool. */
  function Answered<K(==), V>(m: Model<K, V>, c: Call<K, V>): Outcome<V> {
    match c
    case Put(key, _, pool) => Done(EmplaceStatus(key in m.entries, |m.entries|, m.capacity, m.slotSize, pool))
    case Get(key) => Value(if key in m.entries then Some(m.entries[key]) else None)
    case Grow(wanted, pool) => Done(ReserveStatus(wanted, m.capacity, m.slotSize, pool))
    case Empty => Done(Success)
  }

  /** What the map becomes. A key is never overwritten, and a refused call changes nothing. */
  function Next<K(==), V>(m: Model<K, V>, c: Call<K, V>): Model<K, V> {
    match c
    case Put(key, value, pool) =>
      if !Answered(m, c).status.Success? then m
      else m.(entries := m.entries[key := value],
              capacity := if MustGrow(|m.entries|, m.capacity) then Grown(m.capacity) else m.capacity)
    case Get(_) => m
    case Grow(wanted, _) =>
      if !Answered(m, c).status.Success? || 10 * wanted <= 7 * m.capacity + 9 then m
      else m.(capacity := PowerAtLeast(Target(wanted)))
    case Empty => m.(entries := map[])
  }

  function After<K(==), V>(m: Model<K, V>, calls: seq<Call<K, V>>): Model<K, V> {
    if calls == [] then m else Next(After(m, calls[..|calls| - 1]), calls[|calls| - 1])
  }

  ghost function ModelOf<K(0), V(0)>(table: KFlatHashMap<K, V>): Model<K, V>
    reads table
  {
    Model(table.entries, table.capacity, table.slotSize)
  }

  method Do<K(==, 0), V(==, 0)>(table: KFlatHashMap<K, V>, c: Call<K, V>) returns (o: Outcome<V>)
    requires table.Valid()
    modifies table, table.ctrl, table.slots
    ensures table.Valid()
    ensures table.ctrl == old(table.ctrl) || fresh(table.ctrl)
    ensures table.slots == old(table.slots) || fresh(table.slots)
    ensures o == Answered(old(ModelOf(table)), c) && ModelOf(table) == Next(old(ModelOf(table)), c)
  {
    hide Table, Pow2, MaxLoadOf, EmplaceStatus, ReserveStatus, PowerAtLeast, Target, MustGrow, Grown;
    match c {
      case Put(key, value, pool) =>
        var status, at := table.Emplace(key, value, pool);
        o := Done(status);
      case Get(key) =>
        var found := table.Find(key);
        o := Value(if found.Some? then Some(table.slots[found.value].value) else None);
      case Grow(wanted, pool) =>
        var status := table.Reserve(wanted, pool);
        o := Done(status);
      case Empty =>
        table.Clear();
        o := Done(Success);
    }
  }

  lemma AfterStep<K, V>(m: Model<K, V>, calls: seq<Call<K, V>>, i: nat)
    requires i < |calls|
    ensures After(m, calls[..i + 1]) == Next(After(m, calls[..i]), calls[i])
  {
    assert calls[..i + 1][..i] == calls[..i];
  }

  /** Over any run every call answers as the mathematical map does, and the table holds that map at the end. */
  method Run<K(==, 0), V(==, 0)>(table: KFlatHashMap<K, V>, calls: seq<Call<K, V>>) returns (outcomes: seq<Outcome<V>>)
    requires table.Valid()
    modifies table, table.ctrl, table.slots
    ensures table.Valid() && |outcomes| == |calls| && ModelOf(table) == After(old(ModelOf(table)), calls)
    ensures forall i :: 0 <= i < |calls| ==> outcomes[i] == Answered(After(old(ModelOf(table)), calls[..i]), calls[i])
  {
    hide KFlatHashMap.Valid, After, Next, Answered;
    ghost var m := ModelOf(table);
    outcomes := [];
    NothingYet(m);
    for i := 0 to |calls|
      invariant table.Valid() && |outcomes| == i && ModelOf(table) == After(m, calls[..i])
      invariant table.ctrl == old(table.ctrl) || fresh(table.ctrl)
      invariant table.slots == old(table.slots) || fresh(table.slots)
      invariant forall k :: 0 <= k < i ==> outcomes[k] == Answered(After(m, calls[..k]), calls[k])
    {
      var o := Do(table, calls[i]);
      AfterStep(m, calls, i);
      outcomes := outcomes + [o];
    }
    assert calls[..|calls|] == calls;
  }

  lemma NothingYet<K, V>(m: Model<K, V>)
    ensures After(m, []) == m
  {
  }

  /** Without a reset a key keeps its first value over any run. */
  lemma {:induction false} EntriesStay<K, V>(m: Model<K, V>, calls: seq<Call<K, V>>, key: K)
    requires key in m.entries && Empty !in calls
    ensures key in After(m, calls).entries && After(m, calls).entries[key] == m.entries[key]
  {
    if calls != [] {
      EntriesStay(m, calls[..|calls| - 1], key);
    }
  }

  lemma NextGrows<K, V>(m: Model<K, V>, c: Call<K, V>)
    ensures Next(m, c).capacity >= m.capacity
  {
    if c.Grow? && 10 * c.wanted > 7 * m.capacity + 9 {
      assert PowerAtLeast(Target(c.wanted)) >= m.capacity;
    }
  }

  /** The table never gets smaller. */
  lemma {:induction false} CapacityStays<K, V>(m: Model<K, V>, calls: seq<Call<K, V>>)
    ensures After(m, calls).capacity >= m.capacity
  {
    hide Next;
    if calls != [] {
      var last := |calls| - 1;
      CapacityStays(m, calls[..last]);
      NextGrows(After(m, calls[..last]), calls[last]);
    }
  }

  /** Once a reservation succeeds, no insertion up to its size needs memory, whatever happens in between. */
  lemma ReservationHolds<K, V>(m: Model<K, V>, calls: seq<Call<K, V>>, wanted: nat, key: K)
    requires 10 * wanted <= 7 * m.capacity + 9 && |After(m, calls).entries| < wanted && key !in After(m, calls).entries
    ensures forall v :: Answered(After(m, calls), Put(key, v, false)) == Done(Success)
  {
    CapacityStays(m, calls);
  }
}
