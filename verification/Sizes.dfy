/** SIZE_T arithmetic: overflow-checked products and sums, powers of two, and masking as remainders. */
module Sizes {

  const SIZE_LIMIT: nat := 0x1_0000_0000_0000_0000

  /** What the operations report. Failures leave the abstract state as it was. */
  datatype Status =
    Success | ObjectNameExists | InvalidParameter | IntegerOverflow | InsufficientResources | QuotaExceeded

  /** NT_SUCCESS: STATUS_OBJECT_NAME_EXISTS is informational. */
  predicate NtSuccess(s: Status) {
    s.Success? || s.ObjectNameExists?
  }

  function Pow2(k: nat): (p: nat)
    ensures p >= 1
  {
    if k == 0 then 1 else 2 * Pow2(k - 1)
  }

  /** The bitwise and of two unsigned numbers. */
  function BitAnd(x: nat, y: nat): nat {
    if x == 0 || y == 0 then 0
    else 2 * BitAnd(x / 2, y / 2) + (if x % 2 == 1 && y % 2 == 1 then 1 else 0)
  }

  lemma SmallMultiple(m: int, d: int)
    requires 0 < m && -m < m * d < m
    ensures d == 0
  {
  }

  lemma DivModUnique(x: nat, m: nat, q: nat, r: nat)
    requires 0 < m && x == m * q + r && r < m
    ensures x / m == q && x % m == r
  {
    var d := x / m - q;
    assert m * d == m * (x / m) - m * q;
    SmallMultiple(m, d);
  }

  lemma OddMask(x: nat, y: nat)
    ensures BitAnd(x, 2 * y + 1) == 2 * BitAnd(x / 2, y) + x % 2
  {
    assert (2 * y + 1) / 2 == y && (2 * y + 1) % 2 == 1;
  }

  lemma PowerStep(k: nat)
    ensures Pow2(0) == 1 && Pow2(k + 1) == 2 * Pow2(k)
  {
  }

  /** Masking with 2^k - 1 is the remainder by 2^k. */
  lemma {:induction false} MaskIsMod(x: nat, k: nat)
    ensures BitAnd(x, Pow2(k) - 1) == x % Pow2(k)
    decreases k
  {
    hide BitAnd, Pow2;
    if k == 0 {
      PowerStep(0);
      MaskNothing(x);
    } else {
      PowerStep(k - 1);
      MaskIsMod(x / 2, k - 1);
      MaskStep(x, Pow2(k - 1));
    }
  }

  lemma MaskNothing(x: nat)
    ensures BitAnd(x, 0) == 0 && x % 1 == 0
  {
  }

  lemma MaskStep(x: nat, p: nat)
    requires p > 0 && BitAnd(x / 2, p - 1) == x / 2 % p
    ensures BitAnd(x, 2 * p - 1) == x % (2 * p)
  {
    hide BitAnd;
    DoubleMod(x, p);
    OddMask(x, p - 1);
    assert 2 * (p - 1) + 1 == 2 * p - 1;
  }

  lemma DoubleMod(x: nat, p: nat)
    requires p > 0
    ensures x % (2 * p) == 2 * (x / 2 % p) + x % 2
  {
    var (q, r) := (x / 2 / p, x / 2 % p);
    assert 2 * p * q == 2 * (p * q);
    DivModUnique(x, 2 * p, q, 2 * r + x % 2);
  }

  lemma PowerOf8(k: nat)
    requires k >= 3
    ensures Pow2(k) == 8 * Pow2(k - 3)
  {
    assert Pow2(k) == 2 * Pow2(k - 1) && Pow2(k - 1) == 2 * Pow2(k - 2) && Pow2(k - 2) == 2 * Pow2(k - 3);
  }

  lemma EvenMask(x: nat, y: nat)
    ensures BitAnd(x, 2 * y) == 2 * BitAnd(x / 2, y)
  {
  }

  lemma EightMask(x: nat, y: nat)
    ensures BitAnd(x, 8 * y) == 8 * BitAnd(x / 8, y)
  {
    hide BitAnd;
    EvenMask(x, 4 * y);
    EvenMask(x / 2, 2 * y);
    EvenMask(x / 4, y);
    assert x / 2 / 2 / 2 == x / 8;
  }

  /** Masking with 2^k - 8 picks a group of eight: the remainder of x / 8 by the number of groups. */
  lemma GroupMask(x: nat, k: nat)
    requires k >= 3
    ensures Pow2(k) >= 8 && BitAnd(x, Pow2(k) - 8) == 8 * (x / 8 % Pow2(k - 3))
  {
    hide BitAnd, Pow2;
    PowerOf8(k);
    var p := Pow2(k - 3);
    EightMask(x, p - 1);
    MaskIsMod(x / 8, k - 3);
  }
}
