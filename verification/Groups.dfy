/** Eight control bytes as one word: matching a byte, finding empties, and walking the marked lanes. */
module Groups {
  import opened Bits
  import opened Characters
  import opened Flags
  import opened NarrowLanes

  /** kEmptyCtrl; a used control byte holds seven hash bits and is below 128. */
  const EMPTY: Char := 0xFF

  predicate IsControl(c: Char) {
    c == EMPTY || c < 128
  }

  /** SwarMatch: marks the lanes equal to a seven-bit byte. */
  function SwarMatch(block: bv64, h2: bv64): bv64 {
    var x := block ^ (0x0101010101010101 * h2);
    ((!x & 0x7F7F7F7F7F7F7F7F) + 0x0101010101010101) & !x & 0x8080808080808080
  }

  function EmptyBits(block: bv64): bv64 {
    block & 0x8080808080808080
  }

  function OccupiedBits(block: bv64): bv64 {
    !block & 0x8080808080808080
  }

  /** match &= match - 1. */
  function ClearLowest(x: bv64): bv64
  {
    x & (x - 1)
  }

  /** Every lane is exact: the addition never carries out of a lane, and an empty lane never matches. */
  lemma SwarMatchLane(block: bv64, h2: bv64, i: nat)
    requires i < 8 && h2 < 128
    ensures Lane(SwarMatch(block, h2), i) == if Lane(block, i) == h2 as Char then 0x80 else 0
  {
    hide Lane, SwarMatch;
    if i < 4 {
      SwarMatchLanes0123(block, h2);
    } else {
      SwarMatchLanes4567(block, h2);
    }
  }

  lemma SwarMatchLanes0123(block: bv64, h2: bv64)
    requires h2 < 128
    ensures Lane(SwarMatch(block, h2), 0) == if Lane(block, 0) == h2 as Char then 0x80 else 0
    ensures Lane(SwarMatch(block, h2), 1) == if Lane(block, 1) == h2 as Char then 0x80 else 0
    ensures Lane(SwarMatch(block, h2), 2) == if Lane(block, 2) == h2 as Char then 0x80 else 0
    ensures Lane(SwarMatch(block, h2), 3) == if Lane(block, 3) == h2 as Char then 0x80 else 0
  {
  }

  lemma SwarMatchLanes4567(block: bv64, h2: bv64)
    requires h2 < 128
    ensures Lane(SwarMatch(block, h2), 4) == if Lane(block, 4) == h2 as Char then 0x80 else 0
    ensures Lane(SwarMatch(block, h2), 5) == if Lane(block, 5) == h2 as Char then 0x80 else 0
    ensures Lane(SwarMatch(block, h2), 6) == if Lane(block, 6) == h2 as Char then 0x80 else 0
    ensures Lane(SwarMatch(block, h2), 7) == if Lane(block, 7) == h2 as Char then 0x80 else 0
  {
  }

  lemma EmptyLane(block: bv64, i: nat)
    requires i < 8
    ensures Lane(EmptyBits(block), i) == if Lane(block, i) >= 128 then 0x80 else 0
    ensures Lane(OccupiedBits(block), i) == if Lane(block, i) < 128 then 0x80 else 0
  {
    if i == 0 {
    } else if i == 1 {
    } else if i == 2 {
    } else if i == 3 {
    } else if i == 4 {
    } else if i == 5 {
    } else if i == 6 {
    }
  }

  lemma ClearTop(x: bv64, i: nat)
    requires i < 8 && And(x, Through(i)) == Top(i)
    ensures ClearLowest(x) == And(x, !Top(i))
  {
    if i == 0 {
    } else if i == 1 {
    } else if i == 2 {
    } else if i == 3 {
    } else if i == 4 {
    } else if i == 5 {
    } else if i == 6 {
    }
  }

  lemma LaneWithout(x: bv64, k: nat, i: nat)
    requires k < 8 && i < 8 && Lane(x, k) == 0x80
    ensures Lane(And(x, !Top(k)), i) == if i == k then 0 else Lane(x, i)
  {
    hide Lane, Top, And;
    AndLane(x, !Top(k), i);
    NotTopLane(k, i);
    LaneBelow(x, i);
  }

  lemma AndLane(v: bv64, w: bv64, i: nat)
    requires i < 8
    ensures Lane(And(v, w), i) == AndChar(Lane(v, i), Lane(w, i))
  {
    hide Lane, And, AndChar;
    if i < 2 {
      AndLane01(v, w);
    } else if i < 4 {
      AndLane23(v, w);
    } else if i < 6 {
      AndLane45(v, w);
    } else {
      AndLane67(v, w);
    }
  }

  lemma AndLane01(v: bv64, w: bv64)
    ensures Lane(And(v, w), 0) == AndChar(Lane(v, 0), Lane(w, 0))
    ensures Lane(And(v, w), 1) == AndChar(Lane(v, 1), Lane(w, 1))
  {
  }

  lemma AndLane23(v: bv64, w: bv64)
    ensures Lane(And(v, w), 2) == AndChar(Lane(v, 2), Lane(w, 2))
    ensures Lane(And(v, w), 3) == AndChar(Lane(v, 3), Lane(w, 3))
  {
  }

  lemma AndLane45(v: bv64, w: bv64)
    ensures Lane(And(v, w), 4) == AndChar(Lane(v, 4), Lane(w, 4))
    ensures Lane(And(v, w), 5) == AndChar(Lane(v, 5), Lane(w, 5))
  {
  }

  lemma AndLane67(v: bv64, w: bv64)
    ensures Lane(And(v, w), 6) == AndChar(Lane(v, 6), Lane(w, 6))
    ensures Lane(And(v, w), 7) == AndChar(Lane(v, 7), Lane(w, 7))
  {
  }

  lemma LaneBelow(x: bv64, i: nat)
    requires i < 8
    ensures AndChar(Lane(x, i), 0xFF) == Lane(x, i) && AndChar(0x80, 0x7F) == 0
  {
    hide Lane, AndChar;
    NarrowLane(x, i);
    AndByte(Lane(x, i));
  }

  lemma AndByte(c: Char)
    requires c < 256
    ensures AndChar(c, 0xFF) == c && AndChar(0x80, 0x7F) == 0
  {
  }

  lemma NarrowLane(x: bv64, i: nat)
    requires i < 8
    ensures Lane(x, i) < 256
  {
    if i == 0 {
    } else if i == 1 {
    } else if i == 2 {
    } else if i == 3 {
    } else if i == 4 {
    } else if i == 5 {
    } else if i == 6 {
    }
  }

  lemma NotTopLane(k: nat, i: nat)
    requires k < 8 && i < 8
    ensures Lane(!Top(k), i) == if i == k then 0x7F else 0xFF
  {
    if k == 0 {
    } else if k == 1 {
    } else if k == 2 {
    } else if k == 3 {
    } else if k == 4 {
    } else if k == 5 {
    } else if k == 6 {
    }
  }

  /** With nothing in the lanes below i, the bits up to lane i are those of lane i. */
  lemma LowLanes(x: bv64, i: nat)
    requires i < 8 && (i > 0 ==> And(x, Through(i - 1)) == 0)
    ensures Lane(x, i) == 0 ==> And(x, Through(i)) == 0
    ensures Lane(x, i) == 0x80 ==> And(x, Through(i)) == Top(i)
  {
    if i == 0 {
    } else if i == 1 {
    } else if i == 2 {
    } else if i == 3 {
    } else if i == 4 {
    } else if i == 5 {
    } else if i == 6 {
    }
  }

  /** x has the top bit of exactly the marked lanes. */
  ghost predicate Marks(x: bv64, b: seq<bool>) {
    |b| == 8 && forall i :: 0 <= i < 8 ==> Lane(x, i) == if b[i] then 0x80 else 0
  }

  lemma {:induction false} NothingBelow(x: bv64, b: seq<bool>, i: nat)
    requires i < 8 && Marks(x, b) && forall k :: 0 <= k < i ==> !b[k]
    ensures And(x, Through(i)) == if b[i] then Top(i) else 0
  {
    hide Lane, And, Through, Top;
    if i > 0 {
      NothingBelow(x, b, i - 1);
    }
    assert Lane(x, i) == if b[i] then 0x80 else 0;
    LowLanes(x, i);
  }

  lemma NoMarks(x: bv64, b: seq<bool>)
    requires Marks(x, b)
    ensures x == 0 <==> forall i :: 0 <= i < 8 ==> !b[i]
  {
    ZeroWord();
    hide Lane;
    if forall i :: 0 <= i < 8 ==> !b[i] {
      forall i | 0 <= i < 8
        ensures Lane(x, i) == Lane(0, i)
      {
        assert !b[i];
      }
      SameLanes(x, 0);
    }
    if x == 0 {
      forall i | 0 <= i < 8
        ensures !b[i]
      {
        assert Lane(x, i) == 0;
      }
    }
  }

  lemma ZeroWord()
    ensures forall i :: 0 <= i < 8 ==> Lane(0, i) == 0
  {
  }

  /** The scan finds the first marked lane, and clearing the lowest bit removes exactly that mark. */
  lemma LowestMark(x: bv64, b: seq<bool>) returns (k: nat)
    requires Marks(x, b) && x != 0
    ensures k == BitScanForward64(x) / 8 && k < 8 && b[k] && forall i :: 0 <= i < k ==> !b[i]
    ensures Marks(ClearLowest(x), b[k := false])
  {
    NoMarks(x, b);
    hide Lane, And, Through, Top, BitScanForward64, BitTest64, ClearLowest;
    k := 0;
    while !b[k]
      invariant k < 8 && exists i :: k <= i < 8 && b[i]
      invariant forall i :: 0 <= i < k ==> !b[i]
      decreases 8 - k
    {
      k := k + 1;
    }
    NothingBelow(x, b, k);
    ScanFindsByte(x, x, k);
    ClearTop(x, k);
    forall i | 0 <= i < 8
      ensures Lane(ClearLowest(x), i) == if b[k := false][i] then 0x80 else 0
    {
      assert Lane(x, k) == 0x80;
      LaneWithout(x, k, i);
    }
  }

  /** The marks of b at lane from and above. */
  ghost function From(b: seq<bool>, from: nat): (r: seq<bool>)
    ensures |r| == |b|
  {
    seq(|b|, i requires 0 <= i < |b| => i >= from && b[i])
  }

  /** One round of a marked-lane walk: the next mark at or after from, and the walk state behind it. */
  lemma NextMark(x: bv64, b: seq<bool>, from: nat) returns (k: nat)
    requires Marks(x, From(b, from)) && x != 0
    ensures k == BitScanForward64(x) / 8 && from <= k < |b| == 8 && b[k] && forall i :: from <= i < k ==> !b[i]
    ensures Marks(ClearLowest(x), From(b, k + 1))
  {
    hide Lane, BitScanForward64, ClearLowest;
    k := LowestMark(x, From(b, from));
    forall i | from <= i < k
      ensures !b[i]
    {
      assert !From(b, from)[i];
    }
    assert From(b, from)[k := false] == From(b, k + 1);
  }

  lemma LastMark(b: seq<bool>, from: nat, x: bv64)
    requires Marks(x, From(b, from)) && x == 0
    ensures |b| == 8 && forall i :: from <= i < 8 ==> !b[i]
  {
    hide Lane;
    NoMarks(x, From(b, from));
    forall i | from <= i < 8
      ensures !b[i]
    {
      assert !From(b, from)[i];
    }
  }

  lemma AllMarks(b: seq<bool>)
    ensures From(b, 0) == b
  {
  }

  function EqualTo(c: seq<Char>, at: nat, h2: Char): seq<bool>
    requires at + 8 <= |c|
  {
    seq(8, i requires 0 <= i < 8 => c[at + i] == h2)
  }

  function Empties(c: seq<Char>, at: nat): seq<bool>
    requires at + 8 <= |c|
  {
    EqualTo(c, at, EMPTY)
  }

  function Used(c: seq<Char>, at: nat): seq<bool>
    requires at + 8 <= |c|
  {
    seq(8, i requires 0 <= i < 8 => c[at + i] != EMPTY)
  }

  ghost predicate Controls(c: seq<Char>) {
    forall i :: 0 <= i < |c| ==> IsControl(c[i])
  }

  lemma MatchMarks(c: seq<Char>, at: nat, h2: Char)
    requires at + 8 <= |c| && Controls(c) && h2 < 128
    ensures Marks(SwarMatch(Load(c, at), h2 as bv64), EqualTo(c, at, h2))
  {
    hide Lane, Load, SwarMatch;
    forall i | 0 <= i < 8
      ensures Lane(SwarMatch(Load(c, at), h2 as bv64), i) == if EqualTo(c, at, h2)[i] then 0x80 else 0
    {
      LoadLane(c, at, i);
      SwarMatchLane(Load(c, at), h2 as bv64, i);
    }
  }

  lemma EmptyMarks(c: seq<Char>, at: nat)
    requires at + 8 <= |c| && Controls(c)
    ensures Marks(EmptyBits(Load(c, at)), Empties(c, at))
    ensures Marks(OccupiedBits(Load(c, at)), Used(c, at))
  {
    hide Lane, Load, EmptyBits, OccupiedBits;
    forall i | 0 <= i < 8
      ensures Lane(EmptyBits(Load(c, at)), i) == if Empties(c, at)[i] then 0x80 else 0
      ensures Lane(OccupiedBits(Load(c, at)), i) == if Used(c, at)[i] then 0x80 else 0
    {
      LoadLane(c, at, i);
      assert IsControl(c[at + i]);
      EmptyLane(Load(c, at), i);
    }
  }
}
