/** KFlatHashMap: an append-only open-addressing table that refines a mathematical map. */
module HashMap {
  import opened Bits
  import opened Characters
  import opened Groups
  import NarrowLanes
  import opened Options
  import opened Sizes
  import opened Tables

  const GROUP: nat := 8
  const MAX_PADDING: nat := 127

  /** (n / 10) * 7 + ((n % 10) * 7 + 9) / 10, the load limit of a table of n slots. */
  function MaxLoadOf(n: nat): nat {
    n / 10 * 7 + (n % 10 * 7 + 9) / 10
  }

  /** The limit is seventy per cent of the slots, rounded up. */
  lemma MaxLoadIsSeventyPercent(n: nat, count: nat)
    ensures count <= MaxLoadOf(n) <==> 10 * count <= 7 * n + 9
  {
  }

  lemma MaxLoadLeavesRoom(n: nat)
    requires n >= 16
    ensures 0 < MaxLoadOf(n) < n
  {
  }

  /** The RtlSizeTMult and RtlSizeTAdd checks on the size of one allocation. */
  predicate AllocationFits(newCapacity: nat, slotSize: nat) {
    newCapacity * slotSize < SIZE_LIMIT && newCapacity + MAX_PADDING + newCapacity * slotSize < SIZE_LIMIT
  }

  /** The bytes of one table: control bytes, padding and slots. */
  function TableBytes(n: nat, slotSize: nat): nat {
    n + 127 + n * slotSize
  }

  lemma FitsIsBytes(n: nat, slotSize: nat)
    ensures AllocationFits(n, slotSize) <==> TableBytes(n, slotSize) < 0x1_0000_0000_0000_0000
  {
  }

  /** One key more would put more than seventy per cent of the slots to use. */
  predicate MustGrow(count: nat, capacity: nat) {
    10 * (count + 1) > 7 * capacity + 9
  }

  function Grown(capacity: nat): nat {
    if capacity == 0 then 16 else 2 * capacity
  }

  /** What an insertion reports. */
  function EmplaceStatus(present: bool, count: nat, capacity: nat, slotSize: nat, pool: bool): Status {
    if present then ObjectNameExists
    else if !MustGrow(count, capacity) then Success
    else if TableBytes(Grown(capacity), slotSize) >= 0x1_0000_0000_0000_0000 then IntegerOverflow
    else if !pool then InsufficientResources
    else Success
  }

  /** _BitScanReverse64: the index of the highest set bit. */
  function BitScanReverse(x: nat): (n: nat)
    requires x > 0
    ensures Pow2(n) <= x < Pow2(n + 1)
  {
    if x == 1 then 0 else 1 + BitScanReverse(x / 2)
  }

  /** The least capacity whose seventy per cent carry the request, and never below 16. */
  function Target(wanted: nat): (t: nat)
    requires wanted > 0
    ensures t >= 16 && 7 * t >= 10 * wanted - 9 && (t > 16 ==> 7 * t <= 10 * wanted - 3)
  {
    if (wanted * 10 - 3) / 7 < 16 then 16 else (wanted * 10 - 3) / 7
  }

  /** The least power of two at or above t. */
  function PowerAtLeast(t: nat): (p: nat)
    requires t > 1
    ensures t <= p < 2 * t
  {
    assert Pow2(BitScanReverse(t - 1) + 1) == 2 * Pow2(BitScanReverse(t - 1));
    Pow2(BitScanReverse(t - 1) + 1)
  }

  /** What a reservation reports. */
  function ReserveStatus(wanted: nat, capacity: nat, slotSize: nat, pool: bool): Status {
    if 10 * wanted <= 7 * capacity + 9 then Success
    else if 10 * wanted >= 0x1_0000_0000_0000_0000 then IntegerOverflow
    else if TableBytes(PowerAtLeast(Target(wanted)), slotSize) >= 0x1_0000_0000_0000_0000 then IntegerOverflow
    else if !pool then InsufficientResources
    else Success
  }

  /** The next power of two at or above the scaled request carries the request, and exceeds the old table. */
  lemma ReserveEnough(wanted: nat, targetCap: nat, capacity: nat)
    requires wanted > MaxLoadOf(capacity)
    requires targetCap == Target(wanted)
    ensures var newLog := BitScanReverse(targetCap - 1) + 1;
            && newLog >= 4 && MaxLoadOf(Pow2(newLog)) >= wanted && Pow2(newLog) > capacity
            && targetCap <= Pow2(newLog) < 2 * targetCap
  {
    hide Pow2, BitScanReverse;
    var newLog := BitScanReverse(targetCap - 1) + 1;
    Pow2Values();
    PowerStep(newLog - 1);
    if newLog < 4 {
      Pow2Grows(newLog, 4);
    }
    CeilingSuffices(wanted, Pow2(newLog));
    assert capacity < (wanted * 10 - 3) / 7;
  }

  /** Seventy per cent rounded up of at least (10C - 3) / 7 slots is at least C. */
  lemma CeilingSuffices(wanted: nat, n: nat)
    requires wanted > 0 && n >= (wanted * 10 - 3) / 7
    ensures MaxLoadOf(n) >= wanted
  {
  }

  /** LoadCtrlGroup. */
  function LoadCtrlGroup(ctrl: array<Char>, index: nat): bv64
    requires index + 8 <= ctrl.Length
    reads ctrl
  {
    NarrowLanes.Load(ctrl[..], index)
  }

  /** index & groupMask and (index + 8) & groupMask in terms of groups. */
  lemma FirstProbe(hash: bv64, log: nat)
    requires log >= 4
    ensures Pow2(log) == 8 * Pow2(log - 3) && BitAnd(hash as nat, Pow2(log) - 8) == 8 * Home(hash, Pow2(log - 3))
  {
    PowerOf8(log);
    GroupMask(hash as nat, log);
  }

  lemma NextProbe(h: nat, n: nat, log: nat)
    requires log >= 4 && h < Pow2(log - 3) && n < Pow2(log - 3)
    ensures Pow2(log) == 8 * Pow2(log - 3)
    ensures BitAnd(8 * GroupAt(h, n, Pow2(log - 3)) + 8, Pow2(log) - 8) == 8 * GroupAt(h, n + 1, Pow2(log - 3))
  {
    PowerOf8(log);
    var (g, groups) := (GroupAt(h, n, Pow2(log - 3)), Pow2(log - 3));
    GroupMask(8 * g + 8, log);
    assert (8 * g + 8) / 8 == g + 1;
    if g + 1 == groups {
      DivModUnique(g + 1, groups, 1, 0);
    } else {
      DivModUnique(g + 1, groups, 0, g + 1);
    }
  }

  lemma MaskOfCapacity(log: nat)
    requires 4 <= log < 64
    ensures 16 <= Pow2(log) < SIZE_LIMIT && BitAnd(Pow2(log) - 1, SIZE_LIMIT - 8) == Pow2(log) - 8
  {
    hide BitAnd, Pow2;
    PowerOf8(log);
    Pow2Values();
    Pow2Grows(4, log);
    Pow2Grows(log, 64);
    GroupMask(Pow2(log) - 1, 64);
    var groups := Pow2(log - 3);
    assert (Pow2(log) - 1) / 8 == groups - 1;
    DivModUnique(groups - 1, Pow2(61), 0, groups - 1);
  }

  lemma Pow2Grows(a: nat, b: nat)
    requires a <= b
    ensures Pow2(a) <= Pow2(b)
    ensures a < b ==> 2 * Pow2(a) <= Pow2(b)
    decreases b
  {
    if a < b {
      Pow2Grows(a, b - 1);
    }
  }

  lemma Pow2Values()
    ensures Pow2(4) == 16 && Pow2(61) == SIZE_LIMIT / 8 && Pow2(64) == SIZE_LIMIT
  {
    assert Pow2(8) == 256;
    assert Pow2(16) == 0x1_0000;
    assert Pow2(24) == 0x100_0000;
    assert Pow2(32) == 0x1_0000_0000;
    assert Pow2(40) == 0x100_0000_0000;
    assert Pow2(48) == 0x1_0000_0000_0000;
    assert Pow2(56) == 0x100_0000_0000_0000;
  }

  /** After n steps from its home group a probe stands at index, and every group it has passed is full. */
  ghost predicate OnPath(ctrl: seq<Char>, log: nat, hash: bv64, n: nat, index: nat) {
    && log >= 4 && |ctrl| == Pow2(log) == 8 * Pow2(log - 3) && n < Pow2(log - 3)
    && index == 8 * GroupAt(Home(hash, Pow2(log - 3)), n, Pow2(log - 3))
    && Chain(ctrl, Home(hash, Pow2(log - 3)), n)
  }

  lemma PathBegins(ctrl: seq<Char>, log: nat, hash: bv64)
    requires log >= 4 && |ctrl| == Pow2(log)
    ensures |ctrl| >= 8 && OnPath(ctrl, log, hash, 0, BitAnd(hash as nat, |ctrl| - 8))
  {
    hide Home, BitAnd, Pow2;
    FirstProbe(hash, log);
  }

  lemma PathBounds(ctrl: seq<Char>, log: nat, hash: bv64, n: nat, index: nat)
    requires OnPath(ctrl, log, hash, n, index)
    ensures index % 8 == 0 && index + 8 <= |ctrl| && n < |ctrl| / 8
    ensures index / 8 == GroupAt(Home(hash, |ctrl| / 8), n, |ctrl| / 8)
  {
    hide Home, Pow2, Chain;
  }

  /** A full group sends the probe on, and some group ahead still has room. */
  lemma PathContinues<K, V>(hasher: K -> bv64, ctrl: seq<Char>, slots: seq<Slot<K, V>>, entries: map<K, V>,
                            places: map<K, nat>, log: nat, hash: bv64, n: nat, index: nat)
    requires Table(hasher, ctrl, slots, entries, places) && |entries| < |ctrl| && OnPath(ctrl, log, hash, n, index)
    requires index + 8 <= |ctrl| && forall i :: 0 <= i < 8 ==> !Empties(ctrl, index)[i]
    ensures OnPath(ctrl, log, hash, n + 1, BitAnd(index + GROUP, |ctrl| - 8))
  {
    hide Home, BitAnd, Pow2, Table;
    var groups := Pow2(log - 3);
    var h := Home(hash, groups);
    GroupIsFull(ctrl, GroupAt(h, n, groups));
    NextProbe(h, n, log);
    assert Chain(ctrl, h, n + 1);
    NotAllFull(hasher, ctrl, slots, entries, places, h);
  }

  /** A slot of the group the probe stands at can take the key. */
  lemma PathReaches<K>(hasher: K -> bv64, ctrl: seq<Char>, log: nat, key: K, n: nat, index: nat, at: nat)
    requires OnPath(ctrl, log, hasher(key), n, index) && index <= at < index + 8
    ensures at < |ctrl| && |ctrl| % 8 == 0 && Reachable(hasher, ctrl, key, at)
  {
    hide Home, Pow2;
  }

  /** Finds the first group with room on the probe path of a key, and its first empty slot. */
  method FirstRoom<K, V>(hasher: K -> bv64, ctrl: array<Char>, ghost slots: seq<Slot<K, V>>, groupMask: nat, key: K,
                         ghost log: nat, ghost entries: map<K, V>, ghost places: map<K, nat>) returns (at: nat)
    requires Table(hasher, ctrl[..], slots, entries, places) && |entries| < ctrl.Length
    requires log >= 4 && ctrl.Length == Pow2(log) && groupMask == ctrl.Length - 8
    ensures at < ctrl.Length && ctrl[at] == EMPTY && Reachable(hasher, ctrl[..], key, at)
  {
    hide Home, H2, NarrowLanes.Load, EmptyBits, ClearLowest, BitScanForward64, BitAnd, Pow2, Marks, Table, OnPath,
         Reachable;
    ghost var c, n: nat := ctrl[..], 0;
    var hash := hasher(key);
    var index: nat := BitAnd(hash as nat, groupMask);
    PathBegins(c, log, hash);
    PathBounds(c, log, hash, n, index);
    BelowEnds(hasher, c, slots, entries, places);
    var empty := EmptyBits(LoadCtrlGroup(ctrl, index));
    while empty == 0
      invariant OnPath(c, log, hash, n, index) && index + 8 <= |c| && n < |c|
      invariant empty == EmptyBits(NarrowLanes.Load(c, index))
      decreases |c| - n
    {
      EmptyMarks(c, index);
      NoMarks(empty, Empties(c, index));
      PathContinues(hasher, c, slots, entries, places, log, hash, n, index);
      index, n := BitAnd(index + GROUP, groupMask), n + 1;
      PathBounds(c, log, hash, n, index);
      empty := EmptyBits(LoadCtrlGroup(ctrl, index));
    }
    at := FirstEmpty(c, index, empty);
    PathReaches(hasher, c, log, key, n, index, at);
  }

  /** The empty slot that BitScanForward64 picks. */
  method FirstEmpty(ghost ctrl: seq<Char>, index: nat, empty: bv64) returns (at: nat)
    requires index + 8 <= |ctrl| && Controls(ctrl) && empty == EmptyBits(NarrowLanes.Load(ctrl, index)) && empty != 0
    ensures index <= at < index + 8 && ctrl[at] == EMPTY
    ensures !Full(ctrl, index / 8) || index % 8 != 0
  {
    hide EmptyBits, NarrowLanes.Load, BitScanForward64, ClearLowest;
    EmptyMarks(ctrl, index);
    ghost var k := LowestMark(empty, Empties(ctrl, index));
    at := index + BitScanForward64(empty) / 8;
  }

  /** Short of a full round a probe does not stand where it began. */
  lemma NeverBack(h: nat, n: nat, groups: nat)
    requires h < groups && 0 < n < groups
    ensures GroupAt(h, n, groups) != GroupAt(h, 0, groups)
  {
  }

  lemma LacksNone<K, V>(ctrl: seq<Char>, slots: seq<Slot<K, V>>, h: nat, key: K)
    requires |slots| == |ctrl| && |ctrl| % 8 == 0 && h < |ctrl| / 8
    ensures LacksAll(ctrl, slots, h, 0, key)
  {
  }

  lemma LacksOneMore<K, V>(ctrl: seq<Char>, slots: seq<Slot<K, V>>, h: nat, n: nat, key: K)
    requires |slots| == |ctrl| && |ctrl| % 8 == 0 && h < |ctrl| / 8 && n < |ctrl| / 8
    requires LacksAll(ctrl, slots, h, n, key) && Lacks(ctrl, slots, GroupAt(h, n, |ctrl| / 8), key)
    ensures LacksAll(ctrl, slots, h, n + 1, key)
  {
    hide Lacks;
  }

  lemma GroupIsFull(ctrl: seq<Char>, g: nat)
    requires 8 * g + 8 <= |ctrl| && forall i :: 0 <= i < 8 ==> !Empties(ctrl, 8 * g)[i]
    ensures Full(ctrl, g)
  {
    forall i | 8 * g <= i < 8 * g + 8
      ensures ctrl[i] != EMPTY
    {
      assert !Empties(ctrl, 8 * g)[i - 8 * g];
    }
  }

  method EmptyCtrl(n: nat) returns (ctrl: array<Char>)
    ensures fresh(ctrl) && ctrl.Length == n && forall i :: 0 <= i < n ==> ctrl[i] == EMPTY
  {
    ctrl := new Char[n];
    forall i | 0 <= i < n {
      ctrl[i] := EMPTY;
    }
  }

  class KFlatHashMap<K(==,0), V(0)> {
    const hasher: K -> bv64
    const slotSize: nat
    var ctrl: array<Char>
    var slots: array<Slot<K, V>>
    var capacity: nat
    var size: nat
    var maxLoad: nat
    var groupMask: nat
    ghost var log: nat
    ghost var entries: map<K, V>
    ghost var places: map<K, nat>

    ghost predicate Valid()
      reads this, ctrl, slots
    {
      && ctrl.Length == slots.Length == capacity && ctrl as object != slots as object
      && size == |entries|
      && (capacity == 0 ==> entries == map[] && maxLoad == 0)
      && (capacity != 0 ==>
            && 4 <= log < 64 && capacity == Pow2(log) && groupMask == capacity - 8
            && maxLoad == MaxLoadOf(capacity) < capacity && size <= maxLoad
            && Table(hasher, ctrl[..], slots[..], entries, places))
    }

    constructor (hasher: K -> bv64, slotSize: nat)
      ensures Valid() && entries == map[] && fresh(ctrl) && fresh(slots)
      ensures this.hasher == hasher && this.slotSize == slotSize && capacity == 0
    {
      this.hasher, this.slotSize := hasher, slotSize;
      ctrl, slots := new Char[0], new Slot<K, V>[0];
      capacity, size, maxLoad, groupMask := 0, 0, 0, 0;
      entries, places, log := map[], map[], 0;
    }

    /** The probe of one group for a key: every marked lane is compared, in order. */
    method FindInGroup(index: nat, key: K) returns (found: Option<nat>)
      requires Valid() && index % 8 == 0 && index + 8 <= capacity
      ensures found.Some? ==> key in entries && places[key] == found.value
      ensures found.None? ==> Lacks(ctrl[..], slots[..], index / 8, key)
    {
      hide H2, NarrowLanes.Load, SwarMatch, ClearLowest, BitScanForward64, Reachable, Pow2, Marks;
      ghost var c := ctrl[..];
      var h2 := H2(hasher(key));
      var match_ := SwarMatch(LoadCtrlGroup(ctrl, index), h2 as bv64);
      ghost var b, from := EqualTo(c, index, h2), 0;
      MatchMarks(c, index, h2);
      AllMarks(b);
      while match_ != 0
        invariant from <= 8 && Marks(match_, From(b, from))
        invariant forall j :: index <= j < index + from ==> c[j] != h2 || slots[j].key != key
        decreases 8 - from
      {
        ghost var k := NextMark(match_, b, from);
        var at := index + BitScanForward64(match_) / 8;
        if slots[at].key == key {
          return Some(at);
        }
        Unmarked(c, index, h2, from, k);
        match_ := ClearLowest(match_);
        from := k + 1;
      }
      LastMark(b, from, match_);
      Unmarked(c, index, h2, from, 8);
      return None;
    }

    /** Rehash's migration: every used slot, group by group, goes to the first room on its new path. */
    method MoveElements(newCtrl: array<Char>, newSlots: array<Slot<K, V>>, newGroupMask: nat, ghost newLog: nat)
      returns (ghost newW: map<K, nat>)
      requires ctrl.Length == slots.Length && |entries| < Pow2(newLog)
      requires Table(hasher, ctrl[..], slots[..], entries, places)
      requires newCtrl != ctrl && newSlots != slots && newCtrl as object != newSlots as object
      requires newCtrl as object != slots as object && newSlots as object != ctrl as object
      requires newCtrl.Length == newSlots.Length == Pow2(newLog) && newGroupMask == newCtrl.Length - 8 && newLog >= 4
      requires Table(hasher, newCtrl[..], newSlots[..], map[], map[])
      modifies newCtrl, newSlots
      ensures Table(hasher, newCtrl[..], newSlots[..], entries, newW)
    {
      hide Pow2, Table;
      BelowEnds(hasher, ctrl[..], slots[..], entries, places);
      newW := map[];
      var groupIdx := 0;
      while groupIdx < ctrl.Length
        invariant groupIdx % 8 == 0 && groupIdx <= ctrl.Length
        invariant Table(hasher, ctrl[..], slots[..], entries, places)
        invariant Table(hasher, newCtrl[..], newSlots[..], Below(entries, places, groupIdx), newW)
      {
        newW := MoveGroup(newCtrl, newSlots, newGroupMask, groupIdx, newLog, newW);
        groupIdx := groupIdx + 8;
      }
    }

    method MoveGroup(newCtrl: array<Char>, newSlots: array<Slot<K, V>>, newGroupMask: nat, groupIdx: nat,
                     ghost newLog: nat, ghost oldW: map<K, nat>)
      returns (ghost newW: map<K, nat>)
      requires ctrl.Length == slots.Length && groupIdx + 8 <= ctrl.Length && |entries| < Pow2(newLog)
      requires Table(hasher, ctrl[..], slots[..], entries, places) && places.Keys == entries.Keys
      requires newCtrl != ctrl && newSlots != slots && newCtrl as object != newSlots as object
      requires newCtrl as object != slots as object && newSlots as object != ctrl as object
      requires newCtrl.Length == newSlots.Length == Pow2(newLog) && newGroupMask == newCtrl.Length - 8 && newLog >= 4
      requires Table(hasher, newCtrl[..], newSlots[..], Below(entries, places, groupIdx), oldW)
      modifies newCtrl, newSlots
      ensures Table(hasher, newCtrl[..], newSlots[..], Below(entries, places, groupIdx + 8), newW)
    {
      hide H2, NarrowLanes.Load, OccupiedBits, ClearLowest, BitScanForward64, Pow2, Table, Marks, From;
      ghost var (c, s) := (ctrl[..], slots[..]);
      ghost var b, from := Used(c, groupIdx), 0;
      newW := oldW;
      BelowEnds(hasher, c, s, entries, places);
      EmptyMarks(c, groupIdx);
      AllMarks(b);
      var occupied := OccupiedBits(LoadCtrlGroup(ctrl, groupIdx));
      while occupied != 0
        invariant from <= 8 && Marks(occupied, From(b, from))
        invariant ctrl[..] == c && slots[..] == s
        invariant Table(hasher, newCtrl[..], newSlots[..], Below(entries, places, groupIdx + from), newW)
        decreases 8 - from
      {
        ghost var k := NextMark(occupied, b, from);
        var i := groupIdx + BitScanForward64(occupied) / 8;
        Unused(c, groupIdx, from, k);
        BelowGap(hasher, c, s, entries, places, groupIdx + from, i);
        BelowUsed(hasher, c, s, entries, places, i);
        newW := PlaceElement(newCtrl, newSlots, newGroupMask, slots[i], newLog, Below(entries, places, i), newW);
        occupied := ClearLowest(occupied);
        from := k + 1;
      }
      LastMark(b, from, occupied);
      Unused(c, groupIdx, from, 8);
      BelowGap(hasher, c, s, entries, places, groupIdx + from, groupIdx + 8);
    }

    method PlaceElement(newCtrl: array<Char>, newSlots: array<Slot<K, V>>, newGroupMask: nat, slot: Slot<K, V>,
                        ghost newLog: nat, ghost moved: map<K, V>, ghost movedPlaces: map<K, nat>)
      returns (ghost newW: map<K, nat>)
      requires newCtrl as object != newSlots as object
      requires newCtrl.Length == newSlots.Length == Pow2(newLog) && newGroupMask == newCtrl.Length - 8 && newLog >= 4
      requires |moved| < Pow2(newLog) && slot.key !in moved
      requires Table(hasher, newCtrl[..], newSlots[..], moved, movedPlaces)
      modifies newCtrl, newSlots
      ensures Table(hasher, newCtrl[..], newSlots[..], moved[slot.key := slot.value], newW)
    {
      hide H2, Reachable, Pow2, Table;
      ghost var (c, s) := (newCtrl[..], newSlots[..]);
      var at := FirstRoom(hasher, newCtrl, s, newGroupMask, slot.key, newLog, moved, movedPlaces);
      newCtrl[at], newSlots[at] := H2(hasher(slot.key)), slot;
      newW := movedPlaces[slot.key := at];
      Insert(hasher, c, s, moved, movedPlaces, slot.key, slot.value, at);
      assert newCtrl[..] == c[at := H2(hasher(slot.key))] && newSlots[..] == s[at := slot];
    }

    method FillNewTable(newCtrl: array<Char>, newSlots: array<Slot<K, V>>, newGroupMask: nat, ghost newLog: nat)
      returns (ghost newW: map<K, nat>)
      requires Valid() && size < newCtrl.Length
      requires newCtrl != ctrl && newSlots != slots && newCtrl as object != newSlots as object
      requires newCtrl as object != slots as object && newSlots as object != ctrl as object
      requires newCtrl.Length == newSlots.Length == Pow2(newLog) && newGroupMask == newCtrl.Length - 8 && newLog >= 4
      requires forall i :: 0 <= i < newCtrl.Length ==> newCtrl[i] == EMPTY
      modifies newCtrl, newSlots
      ensures Table(hasher, newCtrl[..], newSlots[..], entries, newW)
    {
      hide Pow2, Table, MaxLoadOf;
      PowerOf8(newLog);
      EmptyTable(hasher, newCtrl[..], newSlots[..]);
      newW := map[];
      if capacity != 0 && size != 0 {
        newW := MoveElements(newCtrl, newSlots, newGroupMask, newLog);
      } else {
        assert entries == map[];
      }
    }

    /** Moves everything into a table of newCapacity slots, or changes nothing. */
    method Rehash(newCapacity: nat, pool: bool, ghost newLog: nat) returns (status: Status)
      requires Valid() && 4 <= newLog < 64 && newCapacity == Pow2(newLog) && size <= MaxLoadOf(newCapacity)
      modifies this
      ensures Valid() && entries == old(entries)
      ensures status.Success? ==> capacity == newCapacity && fresh(ctrl) && fresh(slots)
      ensures !status.Success? ==> unchanged(this)
      ensures status == if TableBytes(newCapacity, slotSize) >= 0x1_0000_0000_0000_0000 then IntegerOverflow
                        else if !pool then InsufficientResources else Success
    {
      hide Valid, Pow2, AllocationFits, TableBytes;
      FitsIsBytes(newCapacity, slotSize);
      if !AllocationFits(newCapacity, slotSize) {
        return IntegerOverflow;
      }
      if !pool {
        return InsufficientResources;
      }
      Migrate(newCapacity, newLog);
      return Success;
    }

    method Migrate(newCapacity: nat, ghost newLog: nat)
      requires Valid() && 4 <= newLog < 64 && newCapacity == Pow2(newLog) && size <= MaxLoadOf(newCapacity)
      modifies this
      ensures Valid() && entries == old(entries) && capacity == newCapacity && fresh(ctrl) && fresh(slots)
    {
      MaskOfCapacity(newLog);
      MaxLoadLeavesRoom(newCapacity);
      hide Pow2, BitAnd, Table, MaxLoadOf;
      var newCtrl := EmptyCtrl(newCapacity);
      var newSlots := new Slot<K, V>[newCapacity];
      var newGroupMask := BitAnd(newCapacity - 1, SIZE_LIMIT - GROUP);
      ghost var newW := FillNewTable(newCtrl, newSlots, newGroupMask, newLog);
      Adopt(newCtrl, newSlots, newGroupMask, newLog, newW);
    }

    /** Switches to the filled table. */
    method Adopt(newCtrl: array<Char>, newSlots: array<Slot<K, V>>, newGroupMask: nat, ghost newLog: nat,
                 ghost newW: map<K, nat>)
      requires newCtrl.Length == newSlots.Length == Pow2(newLog) && newGroupMask == newCtrl.Length - 8
      requires newCtrl as object != newSlots as object && 4 <= newLog < 64
      requires 0 < MaxLoadOf(newCtrl.Length) < newCtrl.Length && size == |entries| <= MaxLoadOf(newCtrl.Length)
      requires Table(hasher, newCtrl[..], newSlots[..], entries, newW)
      modifies this
      ensures Valid() && entries == old(entries) && capacity == newCtrl.Length && ctrl == newCtrl && slots == newSlots
    {
      hide Pow2, Table, MaxLoadOf;
      ctrl, slots, capacity, maxLoad, groupMask :=
        newCtrl, newSlots, newCtrl.Length, MaxLoadOf(newCtrl.Length), newGroupMask;
      places, log := newW, newLog;
    }

    /** FindValueInternal. */
    method Find(key: K) returns (found: Option<nat>)
      requires Valid()
      ensures found.Some? <==> key in entries
      ensures found.Some? ==> found.value < slots.Length && slots[found.value].value == entries[key]
    {
      if size == 0 {
        return None;
      }
      var at, ok := Probe(key);
      return if ok then Some(at) else None;
    }

    /**
      The probe loop of Emplace and FindValueInternal: it ends at the key's slot or at the first empty
      slot on the key's path, and never comes back to where it started.
     */
    method Probe(key: K) returns (at: nat, found: bool)
      requires Valid() && capacity != 0
      ensures found <==> key in entries
      ensures found ==> places[key] == at && at < capacity && slots[at].key == key && slots[at].value == entries[key]
      ensures !found ==> at < capacity && ctrl[at] == EMPTY && Reachable(hasher, ctrl[..], key, at)
    {
      hide Home, H2, NarrowLanes.Load, EmptyBits, BitAnd, Pow2, Marks, Reachable, Table, OnPath, LacksAll, Lacks, Full;
      ghost var c, s, n: nat := ctrl[..], slots[..], 0;
      var hash := hasher(key);
      var index: nat := BitAnd(hash as nat, groupMask);
      var start := index;
      PathBegins(c, log, hash);
      PathBounds(c, log, hash, n, index);
      BelowEnds(hasher, c, s, entries, places);
      LacksNone(c, s, Home(hash, |c| / 8), key);
      while true
        invariant start / 8 == GroupAt(Home(hash, |c| / 8), 0, |c| / 8)
        invariant OnPath(c, log, hash, n, index) && n < |c| / 8 && index % 8 == 0 && index + 8 <= |c|
        invariant LacksAll(c, s, Home(hash, |c| / 8), n, key)
        decreases |c| - n
      {
        var inGroup := FindInGroup(index, key);
        if inGroup.Some? {
          KeySlot(hasher, c, s, entries, places, key);
          return inGroup.value, true;
        }
        var empty := EmptyBits(LoadCtrlGroup(ctrl, index));
        PathBounds(c, log, hash, n, index);
        if empty != 0 {
          at := FirstEmpty(c, index, empty);
          Absent(hasher, c, s, entries, places, key, n);
          PathReaches(hasher, c, log, key, n, index, at);
          return at, false;
        }
        EmptyMarks(c, index);
        NoMarks(empty, Empties(c, index));
        PathContinues(hasher, c, s, entries, places, log, hash, n, index);
        LacksOneMore(c, s, Home(hash, |c| / 8), n, key);
        index, n := BitAnd(index + GROUP, groupMask), n + 1;
        PathBounds(c, log, hash, n, index);
        NeverBack(Home(hash, |c| / 8), n, |c| / 8);
        // The full-cycle exit: it is never taken.
        if index == start {
          assert false;
        }
      }
    }

    lemma LoadIsBounded()
      requires Valid()
      ensures size == |entries| && 10 * |entries| <= 7 * capacity + 9
      ensures size >= maxLoad <==> MustGrow(|entries|, capacity)
    {
      hide Table, Pow2;
      MaxLoadIsSeventyPercent(capacity, size);
      MaxLoadIsSeventyPercent(capacity, size + 1);
    }

    /** Finds the key or adds it with the value; at is the slot of its value. */
    method Emplace(key: K, value: V, pool: bool) returns (status: Status, at: nat)
      requires Valid()
      modifies this, ctrl, slots
      ensures Valid() && (ctrl == old(ctrl) || fresh(ctrl)) && (slots == old(slots) || fresh(slots))
      ensures status == EmplaceStatus(key in old(entries), |old(entries)|, old(capacity), slotSize, pool)
      ensures NtSuccess(status) ==>
                key in entries && places[key] == at < slots.Length && slots[at].value == entries[key]
      ensures entries == if status.Success? then old(entries)[key := value] else old(entries)
      ensures capacity == if status.Success? && MustGrow(|old(entries)|, old(capacity)) then Grown(old(capacity))
                          else old(capacity)
    {
      hide Pow2, BitAnd, Table, H2, Reachable, MaxLoadOf;
      at := 0;
      LoadIsBounded();
      if capacity == 0 {
        Pow2Values();
        status := Rehash(16, pool, 4);
        if !status.Success? {
          return;
        }
        LoadIsBounded();
      }
      var found;
      at, found := Probe(key);
      if found {
        return ObjectNameExists, at;
      }
      if size >= maxLoad {
        if capacity * 2 >= SIZE_LIMIT {
          return IntegerOverflow, 0;
        }
        DoubleCapacity(log);
        status := Rehash(capacity * 2, pool, log + 1);
        if !status.Success? {
          return;
        }
        at := FirstRoom(hasher, ctrl, slots[..], groupMask, key, log, entries, places);
      }
      Place(key, value, at);
      return Success, at;
    }

    /** Fills an empty slot on the key's path. */
    method Place(key: K, value: V, at: nat)
      requires Valid() && capacity != 0 && key !in entries && size < maxLoad
      requires at < ctrl.Length && ctrl[at] == EMPTY && Reachable(hasher, ctrl[..], key, at)
      modifies this`entries, this`places, this`size, ctrl, slots
      ensures Valid() && entries == old(entries)[key := value] && places[key] == at && slots[at].value == value
    {
      hide Pow2, Table, H2, Reachable;
      Insert(hasher, ctrl[..], slots[..], entries, places, key, value, at);
      ghost var (c, s) := (ctrl[..], slots[..]);
      ctrl[at], slots[at] := H2(hasher(key)), Slot(key, value);
      assert ctrl[..] == c[at := H2(hasher(key))] && slots[..] == s[at := Slot(key, value)];
      entries, places, size := entries[key := value], places[key := at], size + 1;
    }

    /** Writes through the value pointer a previous operation returned for key. */
    method Store(ghost key: K, at: nat, value: V)
      requires Valid() && key in entries && places[key] == at < slots.Length
      modifies this`entries, slots
      ensures Valid() && entries == old(entries)[key := value]
    {
      hide Pow2, H2, Reachable;
      Update(hasher, ctrl[..], slots[..], entries, places, at, value);
      ghost var s := slots[..];
      slots[at] := slots[at].(value := value);
      assert slots[..] == s[at := s[at].(value := value)];
      entries := entries[key := value];
    }

    /** Afterwards wanted elements fit without a further rehash. */
    method Reserve(wanted: nat, pool: bool) returns (status: Status)
      requires Valid()
      modifies this
      ensures Valid() && entries == old(entries)
      ensures (ctrl == old(ctrl) || fresh(ctrl)) && (slots == old(slots) || fresh(slots))
      ensures status == ReserveStatus(wanted, old(capacity), slotSize, pool)
      ensures status.Success? ==> 10 * wanted <= 7 * capacity + 9
      ensures if status.Success? && 10 * wanted > 7 * old(capacity) + 9
              then capacity == PowerAtLeast(Target(wanted)) > old(capacity) else unchanged(this)
    {
      hide Pow2, Table, BitScanReverse, MaxLoadOf, TableBytes;
      LoadIsBounded();
      MaxLoadIsSeventyPercent(capacity, wanted);
      assert MaxLoadOf(0) == 0 by {
        MaxLoadIsSeventyPercent(0, MaxLoadOf(0));
      }
      if wanted <= maxLoad {
        return Success;
      }
      var scaledCap := wanted * 10;
      if scaledCap >= SIZE_LIMIT {
        return IntegerOverflow;
      }
      var targetCap := (scaledCap - 3) / 7;
      if targetCap < 16 {
        targetCap := 16;
      }
      var msbIndex := BitScanReverse(targetCap - 1);
      ReserveEnough(wanted, targetCap, capacity);
      MaxLoadIsSeventyPercent(Pow2(msbIndex + 1), wanted);
      if msbIndex >= 63 {
        TooWide(msbIndex + 1, slotSize);
        return IntegerOverflow;
      }
      status := Rehash(Pow2(msbIndex + 1), pool, msbIndex + 1);
    }

    /** The next used slot at or after index, or the end. */
    method AdvanceToOccupied(index: nat) returns (next: nat)
      requires index <= capacity == ctrl.Length
      ensures index <= next <= capacity && (next < capacity ==> ctrl[next] != EMPTY)
      ensures forall j :: index <= j < next ==> ctrl[j] == EMPTY
    {
      next := index;
      while next < capacity && ctrl[next] == EMPTY
        invariant index <= next <= capacity && forall j :: index <= j < next ==> ctrl[j] == EMPTY
      {
        next := next + 1;
      }
    }

    /** From begin to end the iterator visits every entry of the map exactly once, in slot order. */
    method Traverse() returns (visited: seq<Slot<K, V>>)
      requires Valid()
      ensures forall k :: k in entries <==> exists i :: 0 <= i < |visited| && visited[i].key == k
      ensures forall i :: 0 <= i < |visited| ==>
                visited[i].key in entries && entries[visited[i].key] == visited[i].value
      ensures forall i, j :: 0 <= i < j < |visited| ==> visited[i].key != visited[j].key
    {
      hide Table, Pow2, MaxLoadOf;
      ghost var (c, s) := (ctrl[..], slots[..]);
      visited := [];
      var index := AdvanceToOccupied(0);
      while index < capacity
        invariant index <= capacity && (index < capacity ==> c[index] != EMPTY) && ctrl[..] == c && slots[..] == s
        invariant forall i :: 0 <= i < |visited| ==>
                    visited[i].key in entries && entries[visited[i].key] == visited[i].value
        invariant forall i :: 0 <= i < |visited| ==> visited[i].key in places && places[visited[i].key] < index
        invariant forall i, j :: 0 <= i < j < |visited| ==> visited[i].key != visited[j].key
        invariant forall j :: 0 <= j < index && c[j] != EMPTY ==> s[j] in visited
      {
        Owner(hasher, c, s, entries, places, index);
        visited := visited + [slots[index]];
        index := AdvanceToOccupied(index + 1);
      }
      forall k | k in entries
        ensures exists i :: 0 <= i < |visited| && visited[i].key == k
      {
        KeySlot(hasher, c, s, entries, places, k);
        var i :| 0 <= i < |visited| && visited[i] == s[places[k]];
      }
    }

    /** Empties the map and keeps its table. */
    method Clear()
      requires Valid()
      modifies this, ctrl
      ensures Valid() && entries == map[] && ctrl == old(ctrl) && slots == old(slots) && capacity == old(capacity)
    {
      hide Pow2, Table;
      if capacity != 0 {
        BelowEnds(hasher, ctrl[..], slots[..], entries, places);
      }
      if size != 0 {
        forall i | 0 <= i < ctrl.Length {
          ctrl[i] := EMPTY;
        }
      }
      size := 0;
      if capacity != 0 && entries != map[] {
        EmptyTable(hasher, ctrl[..], slots[..]);
        places := map[];
      }
      entries := map[];
    }
  }

  lemma TooWide(log: nat, slotSize: nat)
    requires log >= 64
    ensures TableBytes(Pow2(log), slotSize) >= 0x1_0000_0000_0000_0000
  {
    hide Pow2;
    Pow2Values();
    Pow2Grows(64, log);
  }

  lemma DoubleCapacity(log: nat)
    requires 4 <= log < 64 && Pow2(log) * 2 < SIZE_LIMIT
    ensures log + 1 < 64 && Pow2(log + 1) == 2 * Pow2(log) && MaxLoadOf(Pow2(log)) < MaxLoadOf(2 * Pow2(log))
  {
    MaskOfCapacity(log);
    Pow2Values();
    assert Pow2(64) == 2 * Pow2(63);
  }

  lemma Unmarked(c: seq<Char>, index: nat, h2: Char, from: nat, k: nat)
    requires k <= 8 && index + 8 <= |c| && forall i :: from <= i < k ==> !EqualTo(c, index, h2)[i]
    ensures forall j :: index + from <= j < index + k ==> c[j] != h2
  {
    forall j | index + from <= j < index + k
      ensures c[j] != h2
    {
      assert !EqualTo(c, index, h2)[j - index];
    }
  }

  lemma Unused(c: seq<Char>, index: nat, from: nat, k: nat)
    requires k <= 8 && index + 8 <= |c| && forall i :: from <= i < k ==> !Used(c, index)[i]
    ensures forall j :: index + from <= j < index + k ==> c[j] == EMPTY
  {
    forall j | index + from <= j < index + k
      ensures c[j] == EMPTY
    {
      assert !Used(c, index)[j - index];
    }
  }
}
