/**
  SIMD within a register for WCHAR: a 64-bit word as four 16-bit lanes.
  Lane 0 is the lowest. Every lemma says what a word operation does in each lane.
 */
module WideLanes {
  import opened Bits
  import opened Characters
  import opened Flags

  const LANES: nat := 4
  const BYTES: nat := 2
  const SEPARATORS: bv64 := 0x005C005C005C005C

  function Lane(w: bv64, i: nat): Char
    requires i < LANES
  {
    if i == 0 then (w & 0xFFFF) as Char
    else if i == 1 then ((w >> 16) & 0xFFFF) as Char
    else if i == 2 then ((w >> 32) & 0xFFFF) as Char
    else ((w >> 48) & 0xFFFF) as Char
  }

  /** The character moved to lane i. */
  function Place(c: Char, i: nat): bv64
    requires i < LANES
  {
    if i == 0 then c as bv64
    else if i == 1 then c as bv64 << 16
    else if i == 2 then c as bv64 << 32
    else c as bv64 << 48
  }

  /** The unaligned 64-bit load at position s. */
  function Load(text: seq<Char>, s: nat): bv64
    requires s + LANES <= |text|
  {
    Or(Or(Or(Place(text[s], 0), Place(text[s + 1], 1)), Place(text[s + 2], 2)), Place(text[s + 3], 3))
  }

  lemma LoadLane(text: seq<Char>, s: nat, i: nat)
    requires s + LANES <= |text| && i < LANES
    ensures Lane(Load(text, s), i) == text[s + i]
  {
    if i == 0 {
    } else if i == 1 {
    } else if i == 2 {
    }
  }

  predicate IsAsciiSwar(w: bv64) {
    w & 0xFF80FF80FF80FF80 == 0
  }

  function ToUpperSwar(w: bv64): bv64 {
    var notUnderA := w + 0x7F9F7F9F7F9F7F9F;
    var notOverZ := 0x807A807A807A807A - w;
    var isLower := notUnderA & notOverZ & 0x8000800080008000;
    w - ((isLower >> 10) & 0x0020002000200020)
  }

  lemma AsciiLanes(w: bv64)
    ensures IsAsciiSwar(w) <==> forall i :: 0 <= i < LANES ==> Lane(w, i) <= 127
  {
    if forall i :: 0 <= i < LANES ==> Lane(w, i) <= 127 {
      assert Lane(w, 0) <= 127 && Lane(w, 1) <= 127 && Lane(w, 2) <= 127 && Lane(w, 3) <= 127;
    }
  }

  /** No carry or borrow crosses a lane of an ASCII word: each lane is uppercased on its own. */
  lemma ToUpperLane(w: bv64, i: nat)
    requires IsAsciiSwar(w) && i < LANES
    ensures Lane(ToUpperSwar(w), i) == ToUpperAscii(Lane(w, i))
  {
    hide ToUpperSwar, ToUpperAscii, IsAsciiSwar, Lane;
    if i < 2 {
      ToUpperLane01(w);
    } else {
      ToUpperLane23(w);
    }
  }

  lemma ToUpperLane01(w: bv64)
    requires IsAsciiSwar(w)
    ensures Lane(ToUpperSwar(w), 0) == ToUpperAscii(Lane(w, 0))
    ensures Lane(ToUpperSwar(w), 1) == ToUpperAscii(Lane(w, 1))
  {
  }

  lemma ToUpperLane23(w: bv64)
    requires IsAsciiSwar(w)
    ensures Lane(ToUpperSwar(w), 2) == ToUpperAscii(Lane(w, 2))
    ensures Lane(ToUpperSwar(w), 3) == ToUpperAscii(Lane(w, 3))
  {
  }

  /** A word is its lanes. */
  lemma SameLanes(v: bv64, w: bv64)
    requires forall i :: 0 <= i < LANES ==> Lane(v, i) == Lane(w, i)
    ensures v == w
  {
    assert Lane(v, 0) == Lane(w, 0) && Lane(v, 1) == Lane(w, 1);
    assert Lane(v, 2) == Lane(w, 2) && Lane(v, 3) == Lane(w, 3);
  }

  /** The character in every lane. */
  function Broadcast(c: Char): bv64 {
    0x0001000100010001 * (c as bv64)
  }

  lemma BroadcastLane(c: Char, i: nat)
    requires i < LANES
    ensures Lane(Broadcast(c), i) == c
  {
    hide Lane;
    Spread(c as bv64);
    SpreadLane(c, i);
  }

  lemma SpreadLane(c: Char, i: nat)
    requires i < LANES
    ensures Lane((c as bv64) | (c as bv64 << 16) | (c as bv64 << 32) | (c as bv64 << 48), i) == c
  {
    if i == 0 {
    } else if i == 1 {
    } else if i == 2 {
    }
  }

  lemma Spread(x: bv64)
    requires x < 0x10000
    ensures 0x0001000100010001 * x == x | (x << 16) | (x << 32) | (x << 48)
  {
  }

  lemma XorLane(v: bv64, w: bv64, i: nat)
    requires i < LANES
    ensures Lane(Xor(v, w), i) == XorChar(Lane(v, i), Lane(w, i))
  {
    if i == 0 {
    } else if i == 1 {
    } else if i == 2 {
    }
  }

  /** The borrow trick: flags the zero lanes, and possibly lanes above a zero lane. */
  function ZeroLanes(d: bv64): bv64 {
    (d - 0x0001000100010001) & !d & 0x8000800080008000
  }

  /** With no flag below lane i and lane i - 1 not zero, no borrow reaches lane i. */
  lemma NextFlag(d: bv64, i: nat)
    requires i < LANES && (i > 0 ==> Unflagged(ZeroLanes(d), LastByte(i - 1, BYTES)) && Lane(d, i - 1) != 0)
    ensures And(ZeroLanes(d), Through(LastByte(i, BYTES))) == if Lane(d, i) == 0 then Top(LastByte(i, BYTES)) else 0
  {
    if i == 0 {
    } else if i == 1 {
    } else if i == 2 {
    }
  }

  /** Up to and including the first zero lane the flags are exact. */
  lemma {:induction false} FlagsExact(d: bv64, i: nat)
    requires i < LANES && forall k :: 0 <= k < i ==> Lane(d, k) != 0
    ensures if Lane(d, i) == 0 then Flagged(ZeroLanes(d), LastByte(i, BYTES))
            else Unflagged(ZeroLanes(d), LastByte(i, BYTES))
  {
    hide ZeroLanes, Lane, Top, Through, And;
    if i > 0 {
      FlagsExact(d, i - 1);
    }
    NextFlag(d, i);
  }

  /** One block of fastForward: looks for the target and, in a path segment, for a separator before it. */
  function ScanBlock(w: bv64, targetMask: bv64, segment: bool): Verdict {
    var hasMatch := ZeroLanes(Xor(w, targetMask));
    var hasSep := if segment then ZeroLanes(Xor(w, SEPARATORS)) else 0;
    Judge(hasMatch, Or(hasMatch, hasSep), BYTES)
  }

  lemma DiffLane(w: bv64, c: Char, i: nat)
    requires i < LANES
    ensures Lane(Xor(w, Broadcast(c)), i) == 0 <==> Lane(w, i) == c
  {
    hide Lane, Broadcast, Xor, XorChar;
    XorLane(w, Broadcast(c), i);
    XorZero(Lane(w, i), Lane(Broadcast(c), i));
    BroadcastLane(c, i);
  }

  /** The zero lanes of the difference flag the lanes that hold c. */
  lemma FlagsOf(w: bv64, b: seq<Char>, c: Char)
    requires |b| == LANES && forall k :: 0 <= k < LANES ==> Lane(w, k) == b[k]
    ensures Exact(ZeroLanes(Xor(w, Broadcast(c))), b, c, BYTES)
  {
    hide Lane, Broadcast, Xor, ZeroLanes, Flagged, Unflagged;
    forall i | 0 <= i < |b| && c !in b[..i]
      ensures var x := ZeroLanes(Xor(w, Broadcast(c)));
              if b[i] == c then Flagged(x, LastByte(i, BYTES)) else Unflagged(x, LastByte(i, BYTES))
    {
      forall k | 0 <= k <= i
        ensures Lane(Xor(w, Broadcast(c)), k) == 0 <==> b[k] == c
      {
        DiffLane(w, c, k);
      }
      assert forall k :: 0 <= k < i ==> b[..i][k] == b[k];
      FlagsExact(Xor(w, Broadcast(c)), i);
    }
  }

  /** False flags never decide: the block verdict is that of the scalar scan. */
  lemma ScanBlockExact(w: bv64, b: seq<Char>, target: Char, segment: bool)
    requires |b| == LANES && forall k :: 0 <= k < LANES ==> Lane(w, k) == b[k]
    ensures ScanBlock(w, Broadcast(target), segment) == FirstOf(b, target, segment, 0)
  {
    hide Lane, Broadcast, Xor, ZeroLanes, Judge, Exact, Or;
    FlagsOf(w, b, target);
    SeparatorMask();
    FlagsOf(w, b, SEPARATOR);
    var hasSep := if segment then ZeroLanes(Xor(w, SEPARATORS)) else 0;
    JudgeExact(ZeroLanes(Xor(w, Broadcast(target))), hasSep, b, target, segment, BYTES, 0);
  }

  lemma SeparatorMask()
    ensures SEPARATORS == Broadcast(SEPARATOR)
  {
  }
}
