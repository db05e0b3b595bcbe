/** KStringArena: linear carving of a chain of slabs, with bookmarks and rollback. */
module Arenas {
  import opened Characters

  const MAXULONG_PTR: nat := 0xFFFF_FFFF_FFFF_FFFF
  const HEADER: nat := 24
  const MIN_SLAB: nat := 4096

  class Slab {
    var Next: Slab?
    var Used: nat
    const Capacity: nat
    const Buffer: array<Char>

    constructor (capacity: nat)
      ensures Next == null && Used == 0 && Capacity == capacity && Buffer.Length == capacity && fresh(Buffer)
    {
      Next, Used, Capacity := null, 0, capacity;
      Buffer := new Char[capacity];
    }
  }

  /** A carved block: length characters from offset on in slab number slab of the chain. */
  datatype Block = Block(slab: nat, offset: nat, length: nat)

  datatype Bookmark = Bookmark(tailSlab: Slab?, usedChars: nat)

  /** The chain, how much of each slab is used, and the blocks carved so far. */
  datatype State = State(chain: seq<Slab>, usage: seq<nat>, live: seq<Block>)

  function CharAlign(wide: bool): nat {
    if wide then 4 else 8
  }

  function CharSize(wide: bool): nat {
    if wide then 2 else 1
  }

  /** (Length + (charAlign - 1)) & ~(charAlign - 1): the next whole number of 8-byte words, in characters. */
  function RoundUp(wide: bool, length: nat): nat {
    if wide then (length + 3) / 4 * 4 else (length + 7) / 8 * 8
  }

  /** The footprint is the least whole number of words that holds the block. */
  lemma RoundUpIsLeast(wide: bool, length: nat)
    ensures length <= RoundUp(wide, length) < length + CharAlign(wide) && RoundUp(wide, length) % CharAlign(wide) == 0
    ensures CharAlign(wide) * (if wide then 2 else 1) == 8
  {
  }

  /** The guard of Allocate on the length. */
  predicate CanCarve(wide: bool, length: nat) {
    0 < length <= (MAXULONG_PTR - HEADER - CharAlign(wide)) / CharSize(wide)
  }

  /** The guard keeps the size of a slab below 2^64 bytes but for one length, which no registration comes near. */
  lemma SlabSizeFits(wide: bool, length: nat)
    ensures CanCarve(wide, length) <==> 0 < length <= if wide then 0x7FFF_FFFF_FFFF_FFF1 else 0xFFFF_FFFF_FFFF_FFDF
    ensures var fits := 24 + RoundUp(wide, length) * (if wide then 2 else 1) < 0x1_0000_0000_0000_0000;
            CanCarve(wide, length) ==> (fits <==> !(wide && length == 0x7FFF_FFFF_FFFF_FFF1))
  {
  }

  /** The capacity of a new slab for a block: at least that of a page. */
  function SlabCapacity(wide: bool, length: nat): nat {
    var allocSize := HEADER + RoundUp(wide, length) * CharSize(wide);
    ((if allocSize < MIN_SLAB then MIN_SLAB else allocSize) - HEADER) / CharSize(wide)
  }

  /** With its header a new slab takes a page, or exactly what the block needs if that is more. */
  lemma SlabIsPage(wide: bool, length: nat)
    ensures var (size, needed) := (if wide then 2 else 1, 24 + RoundUp(wide, length) * (if wide then 2 else 1));
            24 + SlabCapacity(wide, length) * size == if needed < 4096 then 4096 else needed
    ensures SlabCapacity(wide, length) >= RoundUp(wide, length)
  {
  }

  /** An allocation is served when the guard lets it pass and the last slab has room or the pool grants a new one. */
  predicate Carves(wide: bool, room: int, length: nat, pool: bool) {
    CanCarve(wide, length) && (RoundUp(wide, length) <= room || pool)
  }

  /** The room then left in the last slab. */
  function RoomLeft(wide: bool, room: int, length: nat): nat {
    SlabIsPage(wide, length);
    if RoundUp(wide, length) <= room then room - RoundUp(wide, length)
    else SlabCapacity(wide, length) - RoundUp(wide, length)
  }

  function EndOf(wide: bool, b: Block): nat {
    b.offset + RoundUp(wide, b.length)
  }

  /** Live blocks start on a word and lie in the used part of their slab, and no two overlap. */
  ghost predicate Layout(wide: bool, usage: seq<nat>, live: seq<Block>) {
    && (forall i :: 0 <= i < |usage| ==> usage[i] % CharAlign(wide) == 0)
    && (forall b :: b in live ==> b.slab < |usage| && b.offset % CharAlign(wide) == 0 && b.length > 0 &&
                                  EndOf(wide, b) <= usage[b.slab])
    && (forall i, j :: 0 <= i < j < |live| && live[i].slab == live[j].slab ==> EndOf(wide, live[i]) <= live[j].offset)
  }

  function Mark(s: State): Bookmark
    requires |s.usage| == |s.chain|
  {
    if s.chain == [] then Bookmark(null, 0) else Bookmark(s.chain[|s.chain| - 1], s.usage[|s.chain| - 1])
  }

  /** t has only grown since s: later carving touched nothing below what s had used. */
  ghost predicate Extends(t: State, s: State)
    requires |s.usage| == |s.chain| && |t.usage| == |t.chain|
  {
    && s.chain <= t.chain && s.live <= t.live
    && (forall i :: 0 <= i < |s.usage| - 1 ==> t.usage[i] == s.usage[i])
    && (s.chain != [] ==> s.usage[|s.usage| - 1] <= t.usage[|s.usage| - 1])
    && (forall b :: b in t.live[|s.live|..] ==> b.slab + 1 >= |s.chain|)
    && (forall b :: b in t.live[|s.live|..] && b.slab + 1 == |s.chain| ==> b.offset >= s.usage[b.slab])
  }

  /** The memory of block b from its character number from on holds s. */
  ghost predicate Holds(chain: seq<Slab>, b: Block, from: nat, s: seq<Char>)
    reads set x | x in chain :: x.Buffer
  {
    && b.slab < |chain| && from + |s| <= b.length && b.offset + b.length <= chain[b.slab].Buffer.Length
    && chain[b.slab].Buffer[b.offset + from..b.offset + from + |s|] == s
  }

  function Carved(wide: bool, s: State, length: nat): State
    requires |s.usage| == |s.chain| > 0
  {
    var last := |s.chain| - 1;
    State(s.chain, s.usage[last := s.usage[last] + RoundUp(wide, length)],
          s.live + [Block(last, s.usage[last], length)])
  }

  function Appended(s: State, slab: Slab): State {
    State(s.chain + [slab], s.usage + [0], s.live)
  }

  lemma CarvedKeepsLayout(wide: bool, s: State, length: nat)
    requires |s.usage| == |s.chain| > 0 && length > 0 && Layout(wide, s.usage, s.live)
    ensures var t := Carved(wide, s, length); Layout(wide, t.usage, t.live)
  {
    RoundUpIsLeast(wide, length);
    SumAligned(wide, s.usage[|s.chain| - 1], RoundUp(wide, length));
    hide RoundUp, CharAlign;
    var t := Carved(wide, s, length);
    forall b | b in t.live
      ensures b.slab < |t.usage| && b.offset % CharAlign(wide) == 0 && b.length > 0
      ensures EndOf(wide, b) <= t.usage[b.slab]
    {
      assert b in s.live || b == Block(|s.chain| - 1, s.usage[|s.chain| - 1], length);
    }
  }

  lemma SumAligned(wide: bool, a: nat, b: nat)
    requires a % CharAlign(wide) == 0 && b % CharAlign(wide) == 0
    ensures (a + b) % CharAlign(wide) == 0
  {
  }

  lemma AppendedKeepsLayout(wide: bool, s: State, slab: Slab)
    requires Layout(wide, s.usage, s.live)
    ensures var t := Appended(s, slab); Layout(wide, t.usage, t.live)
  {
    hide RoundUp;
  }

  lemma CarvedExtends(wide: bool, s: State, length: nat)
    requires |s.usage| == |s.chain| > 0
    ensures Extends(Carved(wide, s, length), s)
  {
  }

  lemma AppendedExtends(s: State, slab: Slab)
    requires |s.usage| == |s.chain|
    ensures Extends(Appended(s, slab), s)
  {
  }

  lemma ExtendsItself(s: State)
    requires |s.usage| == |s.chain|
    ensures Extends(s, s)
  {
  }

  /** Growth composes, so a bookmark stays good over any number of allocations. */
  lemma ExtendsTransitive(u: State, t: State, s: State)
    requires |s.usage| == |s.chain| && |t.usage| == |t.chain| && |u.usage| == |u.chain|
    requires Extends(u, t) && Extends(t, s)
    ensures Extends(u, s)
  {
    assert u.live[|s.live|..] == t.live[|s.live|..] + u.live[|t.live|..];
  }

  /** Slabs and buffers are all different, and owned. */
  ghost predicate Shape(c: seq<Slab>, repr: set<object>) {
    && (forall i :: 0 <= i < |c| ==> c[i] in repr && c[i].Buffer in repr && c[i].Buffer.Length == c[i].Capacity)
    && (forall i, j :: 0 <= i < j < |c| ==> c[i] != c[j])
    && (forall i, j :: 0 <= i < j < |c| ==> c[i].Buffer != c[j].Buffer)
  }

  lemma LastApart(c: seq<Slab>, repr: set<object>)
    requires Shape(c, repr) && c != []
    ensures forall i :: 0 <= i < |c| - 1 ==> c[i] != c[|c| - 1]
  {
  }

  lemma ShapePrefix(c: seq<Slab>, repr: set<object>, n: nat)
    requires Shape(c, repr) && n <= |c|
    ensures Shape(c[..n], repr)
    ensures forall i :: 0 <= i < |c| && i != n - 1 && n > 0 ==> c[i] != c[n - 1]
  {
  }

  lemma ShapeAppended(c: seq<Slab>, repr: set<object>, slab: Slab)
    requires Shape(c, repr) && slab !in repr && slab.Buffer !in repr && slab.Buffer.Length == slab.Capacity
    ensures Shape(c + [slab], repr + {slab, slab.Buffer})
  {
  }

  method CopyTo(buffer: array<Char>, offset: nat, s: seq<Char>)
    requires offset + |s| <= buffer.Length
    modifies buffer
    ensures buffer[offset..offset + |s|] == s
    ensures forall i :: 0 <= i < offset ==> buffer[i] == old(buffer[i])
  {
    for i := 0 to |s|
      invariant forall k :: 0 <= k < i ==> buffer[offset + k] == s[k]
      invariant forall k :: 0 <= k < offset ==> buffer[k] == old(buffer[k])
    {
      buffer[offset + i] := s[i];
    }
  }

  class KStringArena {
    const wide: bool
    var m_Head: Slab?
    var m_Tail: Slab?
    ghost var state: State
    ghost var freed: seq<Slab>
    /** Every slab there has been, with its buffer. */
    ghost var Repr: set<object>

    /** The slabs are linked in the order of state.chain and agree with state.usage. */
    ghost predicate Linked()
      reads this`m_Head, this`m_Tail, this`state, this`Repr, state.chain
    {
      var c := state.chain;
      && |state.usage| == |c|
      && m_Head == (if c == [] then null else c[0])
      && m_Tail == (if c == [] then null else c[|c| - 1])
      && Shape(c, Repr)
      && (forall i, j :: 0 <= i < |c| && j == i + 1 < |c| ==> c[i].Next == c[j])
      && (m_Tail != null ==> m_Tail.Next == null)
      && (forall i :: 0 <= i < |c| ==> c[i].Used == state.usage[i] <= c[i].Capacity)
    }

    ghost predicate Valid()
      reads this`m_Head, this`m_Tail, this`state, this`Repr, state.chain
    {
      Linked() && Layout(wide, state.usage, state.live)
    }

    ghost predicate Owns()
      reads this`state, this`Repr
    {
      forall x :: x in state.chain ==> x in Repr && x.Buffer in Repr
    }

    lemma Owned()
      requires Linked()
      ensures Owns()
    {
    }

    lemma LastSlab()
      requires Linked()
      ensures |state.usage| == |state.chain|
      ensures m_Tail == if state.chain == [] then null else state.chain[|state.chain| - 1]
      ensures m_Tail != null ==> m_Tail.Used == state.usage[|state.chain| - 1]
    {
    }

    constructor (wide: bool)
      ensures Valid() && state == State([], [], []) && freed == [] && Repr == {} && this.wide == wide
    {
      this.wide := wide;
      m_Head, m_Tail, state, freed, Repr := null, null, State([], [], []), [], {};
    }

    /** The characters free in the last slab. */
    function Room(): int
      reads this`m_Tail, if m_Tail == null then {} else {m_Tail}
    {
      if m_Tail == null then 0 else m_Tail.Capacity - m_Tail.Used
    }

    method GetBookmark() returns (mark: Bookmark)
      requires Valid()
      ensures mark == Mark(state) && Extends(state, state)
    {
      mark := Bookmark(m_Tail, if m_Tail != null then m_Tail.Used else 0);
    }

    /** Carves a block, in a new slab if the last one has no room; on failure nothing changes. */
    method Allocate(length: nat, pool: bool) returns (slab: Slab?, offset: nat)
      requires Valid()
      modifies this`m_Head, this`m_Tail, this`state, this`Repr, state.chain
      ensures Valid() && Extends(state, old(state))
      ensures slab == null ==> state == old(state)
      ensures slab != null && RoundUp(wide, length) <= old(Room()) ==>
                old(|state.usage| == |state.chain| > 0) && state == Carved(wide, old(state), length)
      ensures slab != null && RoundUp(wide, length) > old(Room()) ==>
                && state == Carved(wide, Appended(old(state), slab), length)
                && fresh(slab) && slab.Capacity == SlabCapacity(wide, length)
      ensures slab != null <==> Carves(wide, old(Room()), length, pool)
      ensures Room() == if slab != null then RoomLeft(wide, old(Room()), length) else old(Room())
      ensures slab != null ==>
                var last := |state.chain| - 1;
                state.chain != [] && slab == state.chain[last] &&
                state.live == old(state.live) + [Block(last, offset, length)]
      ensures old(Repr) <= Repr && fresh(Repr - old(Repr))
      ensures forall b, from, t :: old(Holds(state.chain, b, from, t)) ==> Holds(state.chain, b, from, t)
    {
      hide Layout, RoundUp, Linked, Extends, SlabCapacity;
      LastSlab();
      ExtendsItself(state);
      if !CanCarve(wide, length) {
        return null, 0;
      }
      var room := EnsureRoom(length, pool);
      LastSlab();
      if !room {
        return null, 0;
      }
      slab, offset := Carve(length, old(state));
    }

    /** Makes sure the last slab can take the footprint, by adding a slab if it must. */
    method EnsureRoom(length: nat, pool: bool) returns (ok: bool)
      requires Valid() && length > 0
      modifies this`m_Head, this`m_Tail, this`state, this`Repr, state.chain
      ensures Valid() && Extends(state, old(state))
      ensures ok ==> m_Tail != null && RoundUp(wide, length) <= Room()
      ensures ok <==> RoundUp(wide, length) <= old(Room()) || pool
      ensures RoundUp(wide, length) <= old(Room()) || !ok ==> state == old(state) && Room() == old(Room())
      ensures ok && RoundUp(wide, length) > old(Room()) ==>
                && state == Appended(old(state), m_Tail) && fresh(m_Tail)
                && m_Tail.Capacity == Room() == SlabCapacity(wide, length)
      ensures old(Repr) <= Repr && fresh(Repr - old(Repr))
      ensures m_Tail == old(m_Tail) || fresh(m_Tail)
    {
      hide Layout;
      var alignedLength := RoundUp(wide, length);
      RoundUpIsLeast(wide, length);
      if m_Tail == null || m_Tail.Capacity - m_Tail.Used < alignedLength {
        if !pool {
          return false;
        }
        var allocSize := HEADER + alignedLength * CharSize(wide);
        if allocSize < MIN_SLAB {
          allocSize := MIN_SLAB;
        }
        AppendSlab((allocSize - HEADER) / CharSize(wide));
        AppendedExtends(old(state), m_Tail);
      }
      return true;
    }

    method AppendSlab(capacity: nat)
      requires Valid()
      modifies this`m_Head, this`m_Tail, this`state, this`Repr, state.chain
      ensures Valid() && m_Tail != null && fresh(m_Tail) && fresh(m_Tail.Buffer)
      ensures m_Tail.Capacity == capacity && m_Tail.Used == 0
      ensures state == Appended(old(state), m_Tail) && Repr == old(Repr) + {m_Tail, m_Tail.Buffer}
    {
      var pNewSlab := new Slab(capacity);
      hide Layout, Shape;
      AppendedKeepsLayout(wide, state, pNewSlab);
      ShapeAppended(state.chain, Repr, pNewSlab);
      if m_Tail != null {
        m_Tail.Next := pNewSlab;
      } else {
        m_Head := pNewSlab;
      }
      m_Tail := pNewSlab;
      state := Appended(state, pNewSlab);
      Repr := Repr + {pNewSlab, pNewSlab.Buffer};
    }

    method Carve(length: nat, ghost base: State) returns (slab: Slab, offset: nat)
      requires Valid() && length > 0 && |base.usage| == |base.chain| && Extends(state, base)
      requires m_Tail != null && RoundUp(wide, length) <= Room()
      modifies this`state, m_Tail`Used
      ensures Valid() && state == Carved(wide, old(state), length) && Extends(state, base)
      ensures slab == m_Tail && offset == old(m_Tail.Used) && Room() == old(Room()) - RoundUp(wide, length)
    {
      hide Layout, RoundUp, Extends, Shape;
      LastApart(state.chain, Repr);
      CarvedKeepsLayout(wide, state, length);
      CarvedExtends(wide, state, length);
      ExtendsTransitive(Carved(wide, state, length), state, base);
      slab, offset := m_Tail, m_Tail.Used;
      m_Tail.Used := m_Tail.Used + RoundUp(wide, length);
      state := Carved(wide, state, length);
    }
  
    lemma BlockInside(b: Block)
      requires Valid() && b in state.live
      ensures b.slab < |state.chain| && b.offset + b.length <= state.chain[b.slab].Buffer.Length
    {
    }

    /** Blocks carved before the last one lie below it, or in another slab. */
    lemma BlockApart(i: nat)
      requires Valid() && i + 1 < |state.live|
      ensures var (a, b) := (state.live[i], state.live[|state.live| - 1]);
              && a.slab < |state.chain| && b.slab < |state.chain|
              && (state.chain[a.slab].Buffer == state.chain[b.slab].Buffer ==> a.offset + a.length <= b.offset)
    {
      BlockInside(state.live[i]);
      BlockInside(state.live[|state.live| - 1]);
    }

    /** Writes the text of the block carved last; no other block changes. */
    method Fill(offset: nat, s: seq<Char>)
      requires Valid() && m_Tail != null
      requires state.live != [] && state.live[|state.live| - 1] == Block(|state.chain| - 1, offset, |s|)
      modifies m_Tail.Buffer
      ensures Valid() && Holds(state.chain, state.live[|state.live| - 1], 0, s)
      ensures forall b, from, t :: b in state.live[..|state.live| - 1] && old(Holds(state.chain, b, from, t)) ==>
                Holds(state.chain, b, from, t)
    {
      hide Layout, Shape;
      BlockInside(state.live[|state.live| - 1]);
      LastSlab();
      CopyTo(m_Tail.Buffer, offset, s);
      forall b, from, t | b in state.live[..|state.live| - 1] && old(Holds(state.chain, b, from, t))
        ensures Holds(state.chain, b, from, t)
      {
        var i :| 0 <= i < |state.live| - 1 && state.live[i] == b;
        BlockApart(i);
      }
    }

    /** Returns to the state of the bookmark: exactly the slabs added since are freed. */
    method RevertBookmark(mark: Bookmark, ghost s: State)
      requires Valid() && |s.usage| == |s.chain| && Extends(state, s) && mark == Mark(s)
      requires Layout(wide, s.usage, s.live)
      modifies this`m_Head, this`m_Tail, this`state, this`freed, state.chain
      ensures Valid() && state == s
      ensures freed == old(freed) + old(state.chain)[|s.chain|..]
    {
      hide Layout, Shape;
      if m_Tail == mark.tailSlab {
        SameTail(s);
        RewindTail(mark.usedChars, s);
      } else {
        DropSlabs(mark, s);
      }
    }

    method RewindTail(usedChars: nat, ghost s: State)
      requires Linked() && |s.usage| == |s.chain| && Extends(state, s) && s.chain == state.chain
      requires s.chain != [] ==> usedChars == s.usage[|s.chain| - 1]
      modifies this`state, state.chain
      ensures Linked() && state == s
    {
      hide Shape;
      if m_Tail != null {
        LastApart(state.chain, Repr);
        m_Tail.Used := usedChars;
      }
      state := s;
    }

    method DropSlabs(mark: Bookmark, ghost s: State)
      requires Linked() && |s.usage| == |s.chain| && Extends(state, s) && mark == Mark(s) && m_Tail != mark.tailSlab
      modifies this`m_Head, this`m_Tail, this`state, this`freed, state.chain
      ensures Linked() && state == s
      ensures freed == old(freed) + old(state.chain)[|s.chain|..]
    {
      hide Shape;
      ShapePrefix(state.chain, Repr, |s.chain|);
      assert state.chain[..|s.chain|] == s.chain;
      var pCurrent := if mark.tailSlab != null then mark.tailSlab.Next else m_Head;
      FreeFrom(pCurrent, |s.chain|);
      m_Tail := mark.tailSlab;
      if m_Tail != null {
        m_Tail.Next := null;
        m_Tail.Used := mark.usedChars;
      } else {
        m_Head := null;
      }
      state := s;
    }

    lemma SameTail(s: State)
      requires Linked() && |s.usage| == |s.chain| && Extends(state, s) && m_Tail == Mark(s).tailSlab
      ensures s.chain == state.chain
    {
    }

    /** Frees the chain from slab number n on. */
    method FreeFrom(start: Slab?, ghost n: nat)
      requires Linked() && n <= |state.chain| && start == if n < |state.chain| then state.chain[n] else null
      modifies this`freed
      ensures freed == old(freed) + state.chain[n..]
    {
      var pCurrent := start;
      ghost var c, j := state.chain, n;
      while pCurrent != null
        invariant n <= j <= |c| && pCurrent == if j < |c| then c[j] else null
        invariant freed == old(freed) + c[n..j]
        decreases |c| - j
      {
        assert c[n..j + 1] == c[n..j] + [c[j]];
        freed := freed + [pCurrent];
        pCurrent := pCurrent.Next;
        j := j + 1;
      }
      assert c[n..j] == c[n..];
    }

    method Clear()
      requires Valid()
      modifies this
      ensures Valid() && state == State([], [], []) && freed == old(freed) + old(state.chain) && Repr == {}
    {
      FreeFrom(m_Head, 0);
      m_Head, m_Tail, state, Repr := null, null, State([], [], []), {};
    }
  }
}
