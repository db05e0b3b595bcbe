/** The word operations for either character type, related to the characters a word holds. */
module Blocks {
  import opened Bits
  import opened Characters
  import NarrowLanes
  import WideLanes

  /** kCharsPerBlock. */
  function BlockLength(m: Mode): nat {
    if m.wide then WideLanes.LANES else NarrowLanes.LANES
  }

  function LaneOf(m: Mode, w: bv64, i: nat): Char
    requires i < BlockLength(m)
  {
    if m.wide then WideLanes.Lane(w, i) else NarrowLanes.Lane(w, i)
  }

  ghost predicate Holds(m: Mode, w: bv64, b: seq<Char>) {
    |b| == BlockLength(m) && forall i :: 0 <= i < |b| ==> LaneOf(m, w, i) == b[i]
  }

  /** Read64Safe: an unaligned load of one block. */
  function Load(m: Mode, text: seq<Char>, s: nat): bv64
    requires s + BlockLength(m) <= |text|
  {
    if m.wide then WideLanes.Load(text, s) else NarrowLanes.Load(text, s)
  }

  predicate IsAsciiSwar(m: Mode, w: bv64) {
    if m.wide then WideLanes.IsAsciiSwar(w) else NarrowLanes.IsAsciiSwar(w)
  }

  function ToUpperSwar(m: Mode, w: bv64): bv64 {
    if m.wide then WideLanes.ToUpperSwar(w) else NarrowLanes.ToUpperSwar(w)
  }

  function Broadcast(m: Mode, c: Char): bv64 {
    if m.wide then WideLanes.Broadcast(c) else NarrowLanes.Broadcast(c)
  }

  function ScanBlock(m: Mode, w: bv64, targetMask: bv64, segment: bool): Verdict {
    if m.wide then WideLanes.ScanBlock(w, targetMask, segment) else NarrowLanes.ScanBlock(w, targetMask, segment)
  }

  lemma LoadHolds(m: Mode, text: seq<Char>, s: nat)
    requires s + BlockLength(m) <= |text| && IsText(m, text)
    ensures Holds(m, Load(m, text, s), text[s..s + BlockLength(m)])
  {
    hide WideLanes.Lane, NarrowLanes.Lane, WideLanes.Load, NarrowLanes.Load;
    forall i | 0 <= i < BlockLength(m)
      ensures LaneOf(m, Load(m, text, s), i) == text[s + i]
    {
      if m.wide {
        WideLanes.LoadLane(text, s, i);
      } else {
        NarrowLanes.LoadLane(text, s, i);
      }
    }
  }

  /** Two words are equal exactly when they hold the same characters. */
  lemma SameBlock(m: Mode, v: bv64, b: seq<Char>, w: bv64, c: seq<Char>)
    requires Holds(m, v, b) && Holds(m, w, c)
    ensures v == w <==> b == c
  {
    hide WideLanes.Lane, NarrowLanes.Lane;
    if b == c {
      assert forall i :: 0 <= i < |b| ==> LaneOf(m, v, i) == LaneOf(m, w, i);
      if m.wide {
        assert forall i {:trigger WideLanes.Lane(v, i)} :: 0 <= i < |b| ==> WideLanes.Lane(v, i) == LaneOf(m, v, i);
        WideLanes.SameLanes(v, w);
      } else {
        assert forall i {:trigger NarrowLanes.Lane(v, i)} :: 0 <= i < |b| ==> NarrowLanes.Lane(v, i) == LaneOf(m, v, i);
        NarrowLanes.SameLanes(v, w);
      }
    }
    if v == w {
      forall i | 0 <= i < |b|
        ensures b[i] == c[i]
      {
        assert b[i] == LaneOf(m, v, i);
      }
    }
  }

  lemma AsciiHolds(m: Mode, w: bv64, b: seq<Char>)
    requires Holds(m, w, b)
    ensures IsAsciiSwar(m, w) <==> forall i :: 0 <= i < |b| ==> b[i] <= 127
  {
    hide WideLanes.Lane, NarrowLanes.Lane, WideLanes.IsAsciiSwar, NarrowLanes.IsAsciiSwar;
    if m.wide {
      WideLanes.AsciiLanes(w);
      assert forall i :: 0 <= i < |b| ==> LaneOf(m, w, i) == WideLanes.Lane(w, i);
    } else {
      NarrowLanes.AsciiLanes(w);
      assert forall i :: 0 <= i < |b| ==> LaneOf(m, w, i) == NarrowLanes.Lane(w, i);
    }
  }

  /** Folding an ASCII word at once folds every character in it. */
  lemma ToUpperHolds(m: Mode, w: bv64, b: seq<Char>)
    requires m.insensitive && Holds(m, w, b) && IsAsciiSwar(m, w)
    ensures Holds(m, ToUpperSwar(m, w), FoldAll(m, b))
  {
    AsciiHolds(m, w, b);
    hide WideLanes.Lane, NarrowLanes.Lane, WideLanes.IsAsciiSwar, NarrowLanes.IsAsciiSwar,
         WideLanes.ToUpperSwar, NarrowLanes.ToUpperSwar, ToUpperAscii;
    forall i | 0 <= i < |b|
      ensures LaneOf(m, ToUpperSwar(m, w), i) == ToUpperFast(m, b[i])
    {
      assert LaneOf(m, w, i) == b[i];
      if m.wide {
        WideLanes.ToUpperLane(w, i);
      } else {
        NarrowLanes.ToUpperLane(w, i);
      }
    }
  }

  lemma ScanBlockExact(m: Mode, w: bv64, b: seq<Char>, target: Char, segment: bool)
    requires Holds(m, w, b) && (!m.wide ==> target < 256)
    ensures ScanBlock(m, w, Broadcast(m, target), segment) == FirstOf(b, target, segment, 0)
  {
    hide WideLanes.Lane, NarrowLanes.Lane, WideLanes.ScanBlock, NarrowLanes.ScanBlock,
         WideLanes.Broadcast, NarrowLanes.Broadcast;
    if m.wide {
      assert forall i :: 0 <= i < |b| ==> WideLanes.Lane(w, i) == LaneOf(m, w, i);
      WideLanes.ScanBlockExact(w, b, target, segment);
    } else {
      assert forall i :: 0 <= i < |b| ==> NarrowLanes.Lane(w, i) == LaneOf(m, w, i);
      NarrowLanes.ScanBlockExact(w, b, target, segment);
    }
  }
}
