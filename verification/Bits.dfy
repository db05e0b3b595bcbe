/** The bit instructions the engine uses on 64-bit words, and the verdict of scanning one block. */
module Bits {
  import opened Characters

  /** _BitScanForward64: the index of the lowest set bit. */
  function BitScanForward64(x: bv64): (n: nat)
    requires x != 0
    ensures n < 64
  {
    var (x, n) := if x & 0xFFFFFFFF == 0 then (x >> 32, 32) else (x, 0);
    var (x, n) := if x & 0xFFFF == 0 then (x >> 16, n + 16) else (x, n);
    var (x, n) := if x & 0xFF == 0 then (x >> 8, n + 8) else (x, n);
    var (x, n) := if x & 0xF == 0 then (x >> 4, n + 4) else (x, n);
    var (x, n) := if x & 0x3 == 0 then (x >> 2, n + 2) else (x, n);
    if x & 0x1 == 0 then n + 1 else n
  }

  /** _bittest64: whether bit n is set. */
  predicate BitTest64(x: bv64, n: nat)
    requires n < 64
  {
    (x >> n) & 1 != 0
  }

  /** What may follow the lowest set bit does not matter. */
  lemma LowestBit(x: bv64)
    requires x != 0
    ensures x & 0xFF == 0x80 ==> BitScanForward64(x) == 7
    ensures x & 0xFFFF == 0x8000 ==> BitScanForward64(x) == 15
    ensures x & 0xFFFFFF == 0x800000 ==> BitScanForward64(x) == 23
    ensures x & 0xFFFFFFFF == 0x80000000 ==> BitScanForward64(x) == 31
    ensures x & 0xFFFFFFFFFF == 0x8000000000 ==> BitScanForward64(x) == 39
    ensures x & 0xFFFFFFFFFFFF == 0x800000000000 ==> BitScanForward64(x) == 47
    ensures x & 0xFFFFFFFFFFFFFF == 0x80000000000000 ==> BitScanForward64(x) == 55
    ensures x & 0xFFFFFFFFFFFFFFFF == 0x8000000000000000 ==> BitScanForward64(x) == 63
  {
  }

  lemma TopBits(x: bv64)
    ensures BitTest64(x, 7) == (x & 0x80 != 0)
    ensures BitTest64(x, 15) == (x & 0x8000 != 0)
    ensures BitTest64(x, 23) == (x & 0x800000 != 0)
    ensures BitTest64(x, 31) == (x & 0x80000000 != 0)
    ensures BitTest64(x, 39) == (x & 0x8000000000 != 0)
    ensures BitTest64(x, 47) == (x & 0x800000000000 != 0)
    ensures BitTest64(x, 55) == (x & 0x80000000000000 != 0)
    ensures BitTest64(x, 63) == (x & 0x8000000000000000 != 0)
  {
  }

  // The word operators under names a proof can hide, so that it reasons about words without their bits.

  function And(x: bv64, y: bv64): bv64 {
    x & y
  }

  function Or(x: bv64, y: bv64): bv64 {
    x | y
  }

  function Xor(x: bv64, y: bv64): bv64 {
    x ^ y
  }

  function XorChar(x: Char, y: Char): Char {
    x ^ y
  }

  function AndChar(x: Char, y: Char): Char {
    x & y
  }

  lemma XorZero(x: Char, y: Char)
    ensures XorChar(x, y) == 0 <==> x == y
  {
  }

  lemma AndOr(m: bv64, s: bv64, t: bv64)
    ensures And(Or(m, s), t) == Or(And(m, t), And(s, t))
  {
    assert (m | s) & t == (m & t) | (s & t);
  }

  lemma OrIdentities(p: bv64)
    ensures Or(p, p) == p && Or(p, 0) == p && Or(0, p) == p
  {
  }

  lemma AndWithin(m: bv64, t: bv64, p: bv64)
    requires And(p, t) == p
    ensures And(m, p) == And(And(m, t), p)
  {
  }

  lemma AndIdentities(p: bv64)
    ensures And(p, p) == p && And(0, p) == 0
  {
  }

  /** Flags p under a mask t survive an or with flags that show nothing else under the mask. */
  lemma OrUnderMask(m: bv64, s: bv64, t: bv64, p: bv64)
    requires And(m, t) == p || And(m, t) == 0
    requires And(s, t) == p || (And(s, t) == 0 && And(m, t) == p)
    ensures And(Or(m, s), t) == p
  {
    hide And, Or;
    AndOr(m, s, t);
    OrIdentities(p);
  }

  lemma TestUnderMask(m: bv64, t: bv64, p: bv64)
    requires And(p, t) == p && p != 0 && (And(m, t) == p || And(m, t) == 0)
    ensures And(m, p) != 0 <==> And(m, t) == p
  {
    hide And;
    AndWithin(m, t, p);
    AndIdentities(p);
  }

  /** One block has neither character, or the target at some lane first, or a separator first. */
  datatype Verdict = NoneHere | TargetAt(lane: nat) | SeparatorFirst

  /** The scalar scan of a block's characters. */
  function FirstOf(b: seq<Char>, target: Char, segment: bool, i: nat): Verdict
    requires i <= |b|
    decreases |b| - i
  {
    if i == |b| then
      NoneHere
    else if b[i] == target then
      TargetAt(i)
    else if segment && IsPathSeparator(b[i]) then
      SeparatorFirst
    else
      FirstOf(b, target, segment, i + 1)
  }
}
