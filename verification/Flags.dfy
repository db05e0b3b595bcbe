/** Flag words: what the lowest set flag of a 64-bit word says, for lanes of one or two bytes. */
module Flags {
  import opened Bits
  import opened Characters

  /** Every bit of the bytes 0 to k. */
  function Through(k: nat): bv64
    requires k < 8
  {
    if k == 0 then 0xFF
    else if k == 1 then 0xFFFF
    else if k == 2 then 0xFFFFFF
    else if k == 3 then 0xFFFFFFFF
    else if k == 4 then 0xFFFFFFFFFF
    else if k == 5 then 0xFFFFFFFFFFFF
    else if k == 6 then 0xFFFFFFFFFFFFFF
    else 0xFFFFFFFFFFFFFFFF
  }

  /** The top bit of byte k. */
  function Top(k: nat): bv64
    requires k < 8
  {
    if k == 0 then 0x80
    else if k == 1 then 0x8000
    else if k == 2 then 0x800000
    else if k == 3 then 0x80000000
    else if k == 4 then 0x8000000000
    else if k == 5 then 0x800000000000
    else if k == 6 then 0x80000000000000
    else 0x8000000000000000
  }

  /** Within the bytes 0 to k, byte k alone is flagged. */
  predicate Flagged(x: bv64, k: nat)
    requires k < 8
  {
    And(x, Through(k)) == Top(k)
  }

  predicate Unflagged(x: bv64, k: nat)
    requires k < 8
  {
    And(x, Through(k)) == 0
  }

  /** The bit scan and the bit test agree with the lowest flag. */
  lemma ScanFindsByte(x: bv64, y: bv64, k: nat)
    requires k < 8 && Flagged(x, k)
    ensures x != 0 && BitScanForward64(x) == 8 * k + 7
    ensures BitTest64(y, BitScanForward64(x)) == (And(y, Top(k)) != 0)
  {
    hide BitScanForward64, BitTest64;
    LowestBit(x);
    TopBits(y);
    if k == 0 {
    } else if k == 1 {
    } else if k == 2 {
    } else if k == 3 {
    } else if k == 4 {
    } else if k == 5 {
    } else if k == 6 {
    }
  }

  /** The byte that holds the top bit of lane i. */
  function LastByte(i: nat, bytes: nat): nat {
    if bytes == 1 then i else 2 * i + 1
  }

  /** The lowest flag of either kind decides. */
  function Judge(hasMatch: bv64, combined: bv64, bytes: nat): Verdict {
    if combined == 0 then
      NoneHere
    else
      var bitIndex := BitScanForward64(combined);
      if BitTest64(hasMatch, bitIndex) then TargetAt(if bytes == 1 then bitIndex / 8 else bitIndex / 16)
      else SeparatorFirst
  }

  lemma TopWithin(k: nat)
    requires k < 8
    ensures And(Top(k), Through(k)) == Top(k) && Top(k) != 0
  {
  }

  lemma Combine(hasMatch: bv64, hasSep: bv64, k: nat)
    requires k < 8 && (Flagged(hasMatch, k) || Unflagged(hasMatch, k))
    requires Flagged(hasSep, k) || (Unflagged(hasSep, k) && Flagged(hasMatch, k))
    ensures Flagged(Or(hasMatch, hasSep), k)
    ensures And(hasMatch, Top(k)) != 0 <==> Flagged(hasMatch, k)
  {
    hide Through, Top, And, Or;
    TopWithin(k);
    OrUnderMask(hasMatch, hasSep, Through(k), Top(k));
    TestUnderMask(hasMatch, Through(k), Top(k));
  }

  lemma Decide(hasMatch: bv64, hasSep: bv64, i: nat, bytes: nat)
    requires (bytes == 1 || bytes == 2) && bytes * i + bytes <= 8
    requires var k := LastByte(i, bytes);
             && (Flagged(hasMatch, k) || Unflagged(hasMatch, k))
             && (Flagged(hasSep, k) || (Unflagged(hasSep, k) && Flagged(hasMatch, k)))
    ensures Judge(hasMatch, Or(hasMatch, hasSep), bytes) ==
            if Flagged(hasMatch, LastByte(i, bytes)) then TargetAt(i) else SeparatorFirst
  {
    hide BitScanForward64, BitTest64, Flagged, Unflagged, Top, And, Or;
    Combine(hasMatch, hasSep, LastByte(i, bytes));
    ScanFindsByte(Or(hasMatch, hasSep), hasMatch, LastByte(i, bytes));
  }

  lemma DecideNone(hasMatch: bv64, hasSep: bv64, bytes: nat)
    requires Unflagged(hasMatch, 7) && Unflagged(hasSep, 7)
    ensures Judge(hasMatch, Or(hasMatch, hasSep), bytes) == NoneHere
  {
  }

  lemma NoFlags(k: nat)
    requires k < 8
    ensures Unflagged(0, k)
  {
  }

  lemma NotBoth(x: bv64, k: nat)
    requires k < 8
    ensures !(Flagged(x, k) && Unflagged(x, k))
  {
    TopWithin(k);
  }

  /** Up to and including the first lane of b that holds c, the flags of x are exact. */
  ghost predicate Exact(x: bv64, b: seq<Char>, c: Char, bytes: nat)
    requires (bytes == 1 || bytes == 2) && bytes * |b| == 8
  {
    forall i :: 0 <= i < |b| && c !in b[..i] ==>
      if b[i] == c then Flagged(x, LastByte(i, bytes)) else Unflagged(x, LastByte(i, bytes))
  }

  /** False flags never decide: the verdict is that of the scalar scan. */
  lemma {:induction false} JudgeExact(hasMatch: bv64, hasSep: bv64, b: seq<Char>, target: Char, segment: bool,
                                      bytes: nat, i: nat)
    requires (bytes == 1 || bytes == 2) && bytes * |b| == 8 && i <= |b| && Exact(hasMatch, b, target, bytes)
    requires if segment then Exact(hasSep, b, SEPARATOR, bytes) else hasSep == 0
    requires target !in b[..i] && (segment ==> SEPARATOR !in b[..i])
    ensures Judge(hasMatch, Or(hasMatch, hasSep), bytes) == FirstOf(b, target, segment, i)
    decreases |b| - i
  {
    hide Judge, Flagged, Unflagged, Or;
    if i < |b| && b[i] != target && !(segment && IsPathSeparator(b[i])) {
      assert b[..i + 1] == b[..i] + [b[i]];
      JudgeExact(hasMatch, hasSep, b, target, segment, bytes, i + 1);
    } else if i < |b| {
      NoFlags(LastByte(i, bytes));
      NotBoth(hasMatch, LastByte(i, bytes));
      Decide(hasMatch, hasSep, i, bytes);
    } else {
      var last := |b| - 1;
      assert b[..i] == b[..last] + [b[last]];
      NoFlags(7);
      DecideNone(hasMatch, hasSep, bytes);
    }
  }
}
