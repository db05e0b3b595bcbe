/** The open-addressing table as a value: what its arrays mean, and why probing is sound and complete. */
module Tables {
  import opened Characters
  import opened Groups

  datatype Slot<K, V> = Slot(key: K, value: V)

  /** The seven hash bits kept in a control byte. */
  function H2(hash: bv64): (c: Char)
    ensures c < 128
  {
    (hash >> 57) as Char
  }

  /** They are the seven highest. */
  lemma TopSeven(hash: bv64)
    ensures (H2(hash) as bv64) << 57 == hash & 0xFE00_0000_0000_0000
  {
  }

  /** The group a hash probes first. */
  function Home(hash: bv64, groups: nat): (g: nat)
    requires groups > 0
    ensures g < groups
  {
    (hash as nat) / 8 % groups
  }

  /** The group n steps after group h, wrapping around. */
  function GroupAt(h: nat, n: nat, groups: nat): nat
    requires h < groups && n <= groups
  {
    if h + n < groups then h + n else h + n - groups
  }

  function Distance(h: nat, g: nat, groups: nat): (d: nat)
    requires h < groups && g < groups
    ensures d < groups && GroupAt(h, d, groups) == g
  {
    if g >= h then g - h else g + groups - h
  }

  ghost predicate Full(ctrl: seq<Char>, g: nat)
    requires 8 * g + 8 <= |ctrl|
  {
    forall i :: 8 * g <= i < 8 * g + 8 ==> ctrl[i] != EMPTY
  }

  /** The first d groups on the probe path from h are full. */
  ghost predicate Chain(ctrl: seq<Char>, h: nat, d: nat)
    requires |ctrl| % 8 == 0 && h < |ctrl| / 8 && d <= |ctrl| / 8
  {
    forall n :: 0 <= n < d ==> Full(ctrl, GroupAt(h, n, |ctrl| / 8))
  }

  /** No slot of group g holds k. */
  ghost predicate Lacks<K, V>(ctrl: seq<Char>, slots: seq<Slot<K, V>>, g: nat, k: K)
    requires |slots| == |ctrl| && 8 * g + 8 <= |ctrl|
  {
    forall i :: 8 * g <= i < 8 * g + 8 ==> ctrl[i] == EMPTY || slots[i].key != k
  }

  ghost predicate LacksAll<K, V>(ctrl: seq<Char>, slots: seq<Slot<K, V>>, h: nat, d: nat, k: K)
    requires |slots| == |ctrl| && |ctrl| % 8 == 0 && h < |ctrl| / 8 && d <= |ctrl| / 8
  {
    forall n :: 0 <= n < d ==> Lacks(ctrl, slots, GroupAt(h, n, |ctrl| / 8), k)
  }

  /**
    The arrays represent the map M. W gives the slot of each key; every used slot is the slot of its
    key and carries its hash bits, and every group between a key's home and its slot is full.
   */
  ghost predicate Table<K, V>(hasher: K -> bv64, ctrl: seq<Char>, slots: seq<Slot<K, V>>,
                              entries: map<K, V>, places: map<K, nat>)
  {
    && |ctrl| == |slots| && |ctrl| % 8 == 0 && |ctrl| > 0 && Controls(ctrl)
    && places.Keys == entries.Keys
    && (forall k :: k in entries ==>
          places[k] < |ctrl| && ctrl[places[k]] != EMPTY && slots[places[k]] == Slot(k, entries[k]))
    && (forall i :: 0 <= i < |ctrl| && ctrl[i] != EMPTY ==>
          slots[i].key in entries && places[slots[i].key] == i && ctrl[i] == H2(hasher(slots[i].key)))
    && (forall k :: k in entries ==> Reachable(hasher, ctrl, k, places[k]))
  }

  ghost predicate Reachable<K>(hasher: K -> bv64, ctrl: seq<Char>, k: K, i: nat)
    requires |ctrl| % 8 == 0 && i < |ctrl|
  {
    var groups := |ctrl| / 8;
    Chain(ctrl, Home(hasher(k), groups), Distance(Home(hasher(k), groups), i / 8, groups))
  }

  lemma EmptyTable<K, V>(hasher: K -> bv64, ctrl: seq<Char>, slots: seq<Slot<K, V>>)
    requires |ctrl| == |slots| && |ctrl| % 8 == 0 && |ctrl| > 0
    requires forall i :: 0 <= i < |ctrl| ==> ctrl[i] == EMPTY
    ensures Table(hasher, ctrl, slots, map[], map[])
  {
  }

  lemma ReachableStays<K>(hasher: K -> bv64, ctrl: seq<Char>, k: K, j: nat, i: nat, c: Char)
    requires |ctrl| % 8 == 0 && j < |ctrl| && Reachable(hasher, ctrl, k, j)
    requires i < |ctrl| && c != EMPTY
    ensures Reachable(hasher, ctrl[i := c], k, j)
  {
    hide Home;
    var groups := |ctrl| / 8;
    var h := Home(hasher(k), groups);
    forall n {:trigger GroupAt(h, n, groups)} | 0 <= n < Distance(h, j / 8, groups)
      ensures Full(ctrl[i := c], GroupAt(h, n, groups))
    {
      assert Full(ctrl, GroupAt(h, n, groups));
    }
  }

  /** Filling an empty slot of the first group with room keeps the representation. */
  lemma Insert<K, V>(hasher: K -> bv64, ctrl: seq<Char>, slots: seq<Slot<K, V>>, entries: map<K, V>,
                     places: map<K, nat>, k: K, v: V, i: nat)
    requires Table(hasher, ctrl, slots, entries, places) && k !in entries
    requires i < |ctrl| && ctrl[i] == EMPTY && Reachable(hasher, ctrl, k, i)
    ensures Table(hasher, ctrl[i := H2(hasher(k))], slots[i := Slot(k, v)], entries[k := v], places[k := i])
  {
    hide H2, Reachable;
    var c, entries', places' := H2(hasher(k)), entries[k := v], places[k := i];
    forall j | j in entries'
      ensures Reachable(hasher, ctrl[i := c], j, places'[j])
    {
      ReachableStays(hasher, ctrl, j, places'[j], i, c);
    }
  }

  /** Writing through a value pointer changes that key's value only. */
  lemma Update<K, V>(hasher: K -> bv64, ctrl: seq<Char>, slots: seq<Slot<K, V>>, entries: map<K, V>,
                     places: map<K, nat>, i: nat, v: V)
    requires Table(hasher, ctrl, slots, entries, places) && i < |ctrl| && ctrl[i] != EMPTY
    ensures Table(hasher, ctrl, slots[i := slots[i].(value := v)], entries[slots[i].key := v], places)
  {
    hide H2, Home, Chain;
  }

  /** A present key sits in the group its chain leads to. */
  lemma Present<K, V>(hasher: K -> bv64, ctrl: seq<Char>, slots: seq<Slot<K, V>>, entries: map<K, V>,
                      places: map<K, nat>, k: K)
    requires Table(hasher, ctrl, slots, entries, places) && k in entries
    ensures var groups := |ctrl| / 8;
            var h := Home(hasher(k), groups);
            var d := Distance(h, places[k] / 8, groups);
            Chain(ctrl, h, d) && !Lacks(ctrl, slots, GroupAt(h, d, groups), k)
  {
    hide H2, Home;
    assert Reachable(hasher, ctrl, k, places[k]);
  }

  lemma KeySlot<K, V>(hasher: K -> bv64, ctrl: seq<Char>, slots: seq<Slot<K, V>>, entries: map<K, V>,
                      places: map<K, nat>, k: K)
    requires Table(hasher, ctrl, slots, entries, places) && k in entries
    ensures k in places && places[k] < |slots| && ctrl[places[k]] != EMPTY && slots[places[k]] == Slot(k, entries[k])
  {
    hide Reachable;
  }

  /** A probe that has passed only full groups without k and stands at a group with room proves k absent. */
  lemma Absent<K, V>(hasher: K -> bv64, ctrl: seq<Char>, slots: seq<Slot<K, V>>, entries: map<K, V>,
                     places: map<K, nat>, k: K, n: nat)
    requires Table(hasher, ctrl, slots, entries, places) && n < |ctrl| / 8
    requires LacksAll(ctrl, slots, Home(hasher(k), |ctrl| / 8), n, k)
    requires Lacks(ctrl, slots, GroupAt(Home(hasher(k), |ctrl| / 8), n, |ctrl| / 8), k)
    requires !Full(ctrl, GroupAt(Home(hasher(k), |ctrl| / 8), n, |ctrl| / 8))
    ensures k !in entries
  {
    hide H2, Home;
    if k in entries {
      Present(hasher, ctrl, slots, entries, places, k);
    }
  }

  lemma DistinctKeys<K, V>(hasher: K -> bv64, ctrl: seq<Char>, slots: seq<Slot<K, V>>, entries: map<K, V>,
                           places: map<K, nat>, n: nat)
    requires Table(hasher, ctrl, slots, entries, places) && n <= |ctrl|
    requires forall i :: 0 <= i < |ctrl| ==> ctrl[i] != EMPTY
    ensures |set i | 0 <= i < n :: slots[i].key| == n
  {
    hide H2, Reachable;
    if n > 0 {
      DistinctKeys(hasher, ctrl, slots, entries, places, n - 1);
      var before := set i | 0 <= i < n - 1 :: slots[i].key;
      forall i | 0 <= i < n - 1
        ensures slots[i].key != slots[n - 1].key
      {
        Owner(hasher, ctrl, slots, entries, places, i);
        Owner(hasher, ctrl, slots, entries, places, n - 1);
      }
      assert (set i | 0 <= i < n :: slots[i].key) == before + {slots[n - 1].key};
    }
  }

  /** A used slot is the slot of its key. */
  lemma Owner<K, V>(hasher: K -> bv64, ctrl: seq<Char>, slots: seq<Slot<K, V>>, entries: map<K, V>,
                    places: map<K, nat>, i: nat)
    requires Table(hasher, ctrl, slots, entries, places) && i < |ctrl| && ctrl[i] != EMPTY
    ensures i < |slots| && places.Keys == entries.Keys
    ensures slots[i].key in entries && places[slots[i].key] == i && entries[slots[i].key] == slots[i].value
  {
    hide H2, Reachable;
  }

  /** Pigeonhole: with fewer keys than slots some group has room. */
  lemma SomeRoom<K, V>(hasher: K -> bv64, ctrl: seq<Char>, slots: seq<Slot<K, V>>, entries: map<K, V>,
                       places: map<K, nat>)
    returns (g: nat)
    requires Table(hasher, ctrl, slots, entries, places) && |entries| < |ctrl|
    ensures g < |ctrl| / 8 && !Full(ctrl, g)
  {
    hide H2, Reachable;
    if forall i :: 0 <= i < |ctrl| ==> ctrl[i] != EMPTY {
      DistinctKeys(hasher, ctrl, slots, entries, places, |ctrl|);
      var used := set i | 0 <= i < |ctrl| :: slots[i].key;
      assert used <= entries.Keys;
      CardinalityLe(used, entries.Keys);
      assert false;
    }
    var i :| 0 <= i < |ctrl| && ctrl[i] == EMPTY;
    g := i / 8;
  }

  lemma CardinalityLe<X>(a: set<X>, b: set<X>)
    requires a <= b
    ensures |a| <= |b|
  {
    assert b == a + (b - a);
  }

  /** So a probe never goes all the way around. */
  lemma NotAllFull<K, V>(hasher: K -> bv64, ctrl: seq<Char>, slots: seq<Slot<K, V>>, entries: map<K, V>,
                         places: map<K, nat>, h: nat)
    requires Table(hasher, ctrl, slots, entries, places) && |entries| < |ctrl| && h < |ctrl| / 8
    ensures !Chain(ctrl, h, |ctrl| / 8)
  {
    var groups := |ctrl| / 8;
    var g := SomeRoom(hasher, ctrl, slots, entries, places);
    assert GroupAt(h, Distance(h, g, groups), groups) == g;
  }

  /** The part of the map held in slots below pos. */
  ghost function Below<K, V>(entries: map<K, V>, places: map<K, nat>, pos: nat): (below: map<K, V>)
    requires places.Keys == entries.Keys
  {
    map k | k in entries && places[k] < pos :: entries[k]
  }

  lemma BelowEnds<K, V>(hasher: K -> bv64, ctrl: seq<Char>, slots: seq<Slot<K, V>>, entries: map<K, V>,
                        places: map<K, nat>)
    requires Table(hasher, ctrl, slots, entries, places)
    ensures |ctrl| % 8 == 0 && Controls(ctrl) && places.Keys == entries.Keys
    ensures Below(entries, places, 0) == map[] && Below(entries, places, |ctrl|) == entries
  {
  }

  lemma BelowGap<K, V>(hasher: K -> bv64, ctrl: seq<Char>, slots: seq<Slot<K, V>>, entries: map<K, V>,
                       places: map<K, nat>, from: nat, to: nat)
    requires Table(hasher, ctrl, slots, entries, places) && from <= to <= |ctrl|
    requires forall i :: from <= i < to ==> ctrl[i] == EMPTY
    ensures Below(entries, places, to) == Below(entries, places, from)
  {
  }

  lemma BelowUsed<K, V>(hasher: K -> bv64, ctrl: seq<Char>, slots: seq<Slot<K, V>>, entries: map<K, V>,
                        places: map<K, nat>, i: nat)
    requires Table(hasher, ctrl, slots, entries, places) && i < |ctrl| && ctrl[i] != EMPTY
    ensures slots[i].key !in Below(entries, places, i)
    ensures Below(entries, places, i + 1) == Below(entries, places, i)[slots[i].key := slots[i].value]
    ensures |Below(entries, places, i)| <= |entries|
  {
    hide H2, Reachable;
    Owner(hasher, ctrl, slots, entries, places, i);
    OneMoreBelow(entries, places, slots[i].key, i);
    CardinalityLe(Below(entries, places, i).Keys, entries.Keys);
  }

  lemma OneMoreBelow<K, V>(entries: map<K, V>, places: map<K, nat>, key: K, i: nat)
    requires places.Keys == entries.Keys && key in entries && places[key] == i
    requires forall k :: k in entries && places[k] == i ==> k == key
    ensures key !in Below(entries, places, i)
    ensures Below(entries, places, i + 1) == Below(entries, places, i)[key := entries[key]]
  {
  }
}
