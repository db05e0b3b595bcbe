/**
  SIMD within a register for CHAR: a 64-bit word as eight 8-bit lanes.
  Lane 0 is the lowest. Every lemma says what a word operation does in each lane.
 */
module NarrowLanes {
  import opened Bits
  import opened Characters
  import opened Flags

  const LANES: nat := 8
  const BYTES: nat := 1
  const SEPARATORS: bv64 := 0x5C5C5C5C5C5C5C5C

  ghost predicate Narrow(text: seq<Char>) {
    forall i :: 0 <= i < |text| ==> text[i] < 256
  }

  function Lane(w: bv64, i: nat): Char
    requires i < LANES
  {
    if i == 0 then (w & 0xFF) as Char
    else if i == 1 then ((w >> 8) & 0xFF) as Char
    else if i == 2 then ((w >> 16) & 0xFF) as Char
    else if i == 3 then ((w >> 24) & 0xFF) as Char
    else if i == 4 then ((w >> 32) & 0xFF) as Char
    else if i == 5 then ((w >> 40) & 0xFF) as Char
    else if i == 6 then ((w >> 48) & 0xFF) as Char
    else ((w >> 56) & 0xFF) as Char
  }

  /** The character moved to lane i. */
  function Place(c: Char, i: nat): bv64
    requires i < LANES
  {
    if i == 0 then c as bv64
    else if i == 1 then c as bv64 << 8
    else if i == 2 then c as bv64 << 16
    else if i == 3 then c as bv64 << 24
    else if i == 4 then c as bv64 << 32
    else if i == 5 then c as bv64 << 40
    else if i == 6 then c as bv64 << 48
    else c as bv64 << 56
  }

  /** The unaligned 64-bit load at position s. */
  function Load(text: seq<Char>, s: nat): bv64
    requires s + LANES <= |text|
  {
    Or(Or(Or(Or(Or(Or(Or(Place(text[s], 0), Place(text[s + 1], 1)), Place(text[s + 2], 2)), Place(text[s + 3], 3)),
        Place(text[s + 4], 4)), Place(text[s + 5], 5)), Place(text[s + 6], 6)), Place(text[s + 7], 7))
  }

  lemma LoadLane(text: seq<Char>, s: nat, i: nat)
    requires s + LANES <= |text| && i < LANES && Narrow(text)
    ensures Lane(Load(text, s), i) == text[s + i]
  {
    if i == 0 {
    } else if i == 1 {
    } else if i == 2 {
    } else if i == 3 {
    } else if i == 4 {
    } else if i == 5 {
    } else if i == 6 {
    }
  }

  predicate IsAsciiSwar(w: bv64) {
    w & 0x8080808080808080 == 0
  }

  function ToUpperSwar(w: bv64): bv64 {
    var notUnderA := w + 0x1F1F1F1F1F1F1F1F;
    var notOverZ := 0xFAFAFAFAFAFAFAFA - w;
    var isLower := notUnderA & notOverZ & 0x8080808080808080;
    w - ((isLower >> 2) & 0x2020202020202020)
  }

  lemma AsciiLanes(w: bv64)
    ensures IsAsciiSwar(w) <==> forall i :: 0 <= i < LANES ==> Lane(w, i) <= 127
  {
    if forall i :: 0 <= i < LANES ==> Lane(w, i) <= 127 {
      assert Lane(w, 0) <= 127 && Lane(w, 1) <= 127 && Lane(w, 2) <= 127 && Lane(w, 3) <= 127;
      assert Lane(w, 4) <= 127 && Lane(w, 5) <= 127 && Lane(w, 6) <= 127 && Lane(w, 7) <= 127;
    }
  }

  /** No carry or borrow crosses a lane of an ASCII word: each lane is uppercased on its own. */
  lemma ToUpperLane(w: bv64, i: nat)
    requires IsAsciiSwar(w) && i < LANES
    ensures Lane(ToUpperSwar(w), i) == ToUpperAscii(Lane(w, i))
  {
    hide ToUpperSwar, ToUpperAscii, IsAsciiSwar, Lane;
    if i < 4 {
      ToUpperLane0123(w);
    } else if i < 6 {
      ToUpperLane45(w);
    } else {
      ToUpperLane67(w);
    }
  }

  lemma ToUpperLane0123(w: bv64)
    requires IsAsciiSwar(w)
    ensures Lane(ToUpperSwar(w), 0) == ToUpperAscii(Lane(w, 0))
    ensures Lane(ToUpperSwar(w), 1) == ToUpperAscii(Lane(w, 1))
    ensures Lane(ToUpperSwar(w), 2) == ToUpperAscii(Lane(w, 2))
    ensures Lane(ToUpperSwar(w), 3) == ToUpperAscii(Lane(w, 3))
  {
  }

  lemma ToUpperLane45(w: bv64)
    requires IsAsciiSwar(w)
    ensures Lane(ToUpperSwar(w), 4) == ToUpperAscii(Lane(w, 4))
    ensures Lane(ToUpperSwar(w), 5) == ToUpperAscii(Lane(w, 5))
  {
  }

  lemma ToUpperLane67(w: bv64)
    requires IsAsciiSwar(w)
    ensures Lane(ToUpperSwar(w), 6) == ToUpperAscii(Lane(w, 6))
    ensures Lane(ToUpperSwar(w), 7) == ToUpperAscii(Lane(w, 7))
  {
  }

  /** A word is its lanes. */
  lemma SameLanes(v: bv64, w: bv64)
    requires forall i :: 0 <= i < LANES ==> Lane(v, i) == Lane(w, i)
    ensures v == w
  {
    assert Lane(v, 0) == Lane(w, 0) && Lane(v, 1) == Lane(w, 1);
    assert Lane(v, 2) == Lane(w, 2) && Lane(v, 3) == Lane(w, 3);
    assert Lane(v, 4) == Lane(w, 4) && Lane(v, 5) == Lane(w, 5);
    assert Lane(v, 6) == Lane(w, 6) && Lane(v, 7) == Lane(w, 7);
  }

  /** The character in every lane. */
  function Broadcast(c: Char): bv64 {
    0x0101010101010101 * ((c & 0xFF) as bv64)
  }

  lemma BroadcastLane(c: Char, i: nat)
    requires i < LANES && c < 256
    ensures Lane(Broadcast(c), i) == c
  {
    hide Lane;
    Spread(c as bv64);
    SpreadLane(c, i);
  }

  lemma SpreadLane(c: Char, i: nat)
    requires i < LANES && c < 256
    ensures Lane((c as bv64) | (c as bv64 << 8) | (c as bv64 << 16) | (c as bv64 << 24) | (c as bv64 << 32) |
                 (c as bv64 << 40) | (c as bv64 << 48) | (c as bv64 << 56), i) == c
  {
    if i == 0 {
    } else if i == 1 {
    } else if i == 2 {
    } else if i == 3 {
    } else if i == 4 {
    } else if i == 5 {
    } else if i == 6 {
    }
  }

  lemma Spread(x: bv64)
    requires x < 0x100
    ensures 0x0101010101010101 * x ==
            x | (x << 8) | (x << 16) | (x << 24) | (x << 32) | (x << 40) | (x << 48) | (x << 56)
  {
  }

  lemma XorLane(v: bv64, w: bv64, i: nat)
    requires i < LANES
    ensures Lane(Xor(v, w), i) == XorChar(Lane(v, i), Lane(w, i))
  {
    hide Lane, Xor, XorChar;
    if i < 2 {
      XorLane01(v, w);
    } else if i < 4 {
      XorLane23(v, w);
    } else if i < 6 {
      XorLane45(v, w);
    } else {
      XorLane67(v, w);
    }
  }

  lemma XorLane01(v: bv64, w: bv64)
    ensures Lane(Xor(v, w), 0) == XorChar(Lane(v, 0), Lane(w, 0))
    ensures Lane(Xor(v, w), 1) == XorChar(Lane(v, 1), Lane(w, 1))
  {
  }

  lemma XorLane23(v: bv64, w: bv64)
    ensures Lane(Xor(v, w), 2) == XorChar(Lane(v, 2), Lane(w, 2))
    ensures Lane(Xor(v, w), 3) == XorChar(Lane(v, 3), Lane(w, 3))
  {
  }

  lemma XorLane45(v: bv64, w: bv64)
    ensures Lane(Xor(v, w), 4) == XorChar(Lane(v, 4), Lane(w, 4))
    ensures Lane(Xor(v, w), 5) == XorChar(Lane(v, 5), Lane(w, 5))
  {
  }

  lemma XorLane67(v: bv64, w: bv64)
    ensures Lane(Xor(v, w), 6) == XorChar(Lane(v, 6), Lane(w, 6))
    ensures Lane(Xor(v, w), 7) == XorChar(Lane(v, 7), Lane(w, 7))
  {
  }

  /** The borrow trick: flags the zero lanes, and possibly lanes above a zero lane. */
  function ZeroLanes(d: bv64): bv64 {
    (d - 0x0101010101010101) & !d & 0x8080808080808080
  }

  /** With no flag below lane i and lane i - 1 not zero, no borrow reaches lane i. */
  lemma NextFlag(d: bv64, i: nat)
    requires i < LANES && (i > 0 ==> Unflagged(ZeroLanes(d), LastByte(i - 1, BYTES)) && Lane(d, i - 1) != 0)
    ensures And(ZeroLanes(d), Through(LastByte(i, BYTES))) == if Lane(d, i) == 0 then Top(LastByte(i, BYTES)) else 0
  {
    if i == 0 {
    } else if i == 1 {
    } else if i == 2 {
    } else if i == 3 {
    } else if i == 4 {
    } else if i == 5 {
    } else if i == 6 {
    }
  }

  /** Up to and including the first zero lane the flags are exact. */
  lemma {:induction false} FlagsExact(d: bv64, i: nat)
    requires i < LANES && forall k :: 0 <= k < i ==> Lane(d, k) != 0
    ensures if Lane(d, i) == 0 then Flagged(ZeroLanes(d), LastByte(i, BYTES))
            else Unflagged(ZeroLanes(d), LastByte(i, BYTES))
  {
    hide ZeroLanes, Lane, Top, Through, And;
    if i > 0 {
      FlagsExact(d, i - 1);
    }
    NextFlag(d, i);
  }

  /** One block of fastForward: looks for the target and, in a path segment, for a separator before it. */
  function ScanBlock(w: bv64, targetMask: bv64, segment: bool): Verdict {
    var hasMatch := ZeroLanes(Xor(w, targetMask));
    var hasSep := if segment then ZeroLanes(Xor(w, SEPARATORS)) else 0;
    Judge(hasMatch, Or(hasMatch, hasSep), BYTES)
  }

  lemma DiffLane(w: bv64, c: Char, i: nat)
    requires i < LANES && c < 256
    ensures Lane(Xor(w, Broadcast(c)), i) == 0 <==> Lane(w, i) == c
  {
    hide Lane, Broadcast, Xor, XorChar;
    XorLane(w, Broadcast(c), i);
    XorZero(Lane(w, i), Lane(Broadcast(c), i));
    BroadcastLane(c, i);
  }

  /** The zero lanes of the difference flag the lanes that hold c. */
  lemma FlagsOf(w: bv64, b: seq<Char>, c: Char)
    requires |b| == LANES && c < 256 && forall k :: 0 <= k < LANES ==> Lane(w, k) == b[k]
    ensures Exact(ZeroLanes(Xor(w, Broadcast(c))), b, c, BYTES)
  {
    hide Lane, Broadcast, Xor, ZeroLanes, Flagged, Unflagged;
    forall i | 0 <= i < |b| && c !in b[..i]
      ensures var x := ZeroLanes(Xor(w, Broadcast(c)));
              if b[i] == c then Flagged(x, LastByte(i, BYTES)) else Unflagged(x, LastByte(i, BYTES))
    {
      forall k | 0 <= k <= i
        ensures Lane(Xor(w, Broadcast(c)), k) == 0 <==> b[k] == c
      {
        DiffLane(w, c, k);
      }
      assert forall k :: 0 <= k < i ==> b[..i][k] == b[k];
      FlagsExact(Xor(w, Broadcast(c)), i);
    }
  }

  /** False flags never decide: the block verdict is that of the scalar scan. */
  lemma ScanBlockExact(w: bv64, b: seq<Char>, target: Char, segment: bool)
    requires |b| == LANES && target < 256 && forall k :: 0 <= k < LANES ==> Lane(w, k) == b[k]
    ensures ScanBlock(w, Broadcast(target), segment) == FirstOf(b, target, segment, 0)
  {
    hide Lane, Broadcast, Xor, ZeroLanes, Judge, Exact, Or;
    FlagsOf(w, b, target);
    SeparatorMask();
    FlagsOf(w, b, SEPARATOR);
    var hasSep := if segment then ZeroLanes(Xor(w, SEPARATORS)) else 0;
    JudgeExact(ZeroLanes(Xor(w, Broadcast(target))), hasSep, b, target, segment, BYTES, 0);
  }

  lemma SeparatorMask()
    ensures SEPARATORS == Broadcast(SEPARATOR)
  {
  }
}
