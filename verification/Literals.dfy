/** Prefix and tail comparison by full blocks and one overlapping block. */
module Literals {
  import opened Blocks
  import opened Characters

  /** Character by character: the folded text from position s on is the stored literal. */
  ghost predicate Agrees(m: Mode, literal: seq<Char>, text: seq<Char>, s: nat) {
    s + |literal| <= |text| && forall i :: 0 <= i < |literal| ==> literal[i] == Fold(m, text[s + i])
  }

  /** One block of literal and text at the same offset. */
  method SameFoldedBlock(m: Mode, literal: seq<Char>, text: seq<Char>, s: nat, at: nat) returns (same: bool)
    requires IsText(m, literal) && IsText(m, text) && s + |literal| <= |text| && at + BlockLength(m) <= |literal|
    ensures same <==> forall i :: at <= i < at + BlockLength(m) ==> literal[i] == Fold(m, text[s + i])
  {
    hide Blocks.Load, Blocks.IsAsciiSwar, Blocks.ToUpperSwar, Blocks.Holds;
    var n := BlockLength(m);
    var wPat, wTxt := Load(m, literal, at), Load(m, text, s + at);
    ghost var b, c := literal[at..at + n], text[s + at..s + at + n];
    LoadHolds(m, literal, at);
    LoadHolds(m, text, s + at);
    if m.insensitive && !IsAsciiSwar(m, wTxt) {
      for k := 0 to n
        invariant forall i :: at <= i < at + k ==> literal[i] == Fold(m, text[s + i])
      {
        if literal[at + k] != ToUpperFast(m, text[s + at + k]) {
          return false;
        }
      }
      return true;
    }
    if m.insensitive {
      ToUpperHolds(m, wTxt, c);
      wTxt := ToUpperSwar(m, wTxt);
    } else {
      assert FoldAll(m, c) == c;
    }
    SameBlock(m, wPat, b, wTxt, FoldAll(m, c));
    same := wPat == wTxt;
    if b == FoldAll(m, c) {
      forall i | at <= i < at + n
        ensures literal[i] == Fold(m, text[s + i])
      {
        assert b[i - at] == FoldAll(m, c)[i - at];
      }
    }
  }

  /** The shared body of EvaluatePrefixMatch and EvaluateTailMatch, the text starting at s. */
  method CompareLiteral(m: Mode, literal: seq<Char>, text: seq<Char>, s: nat) returns (same: bool)
    requires IsText(m, literal) && IsText(m, text) && s + |literal| <= |text|
    ensures same <==> Agrees(m, literal, text, s)
  {
    var n := BlockLength(m);
    if |literal| >= n {
      var chunks := |literal| / n;
      for i := 0 to chunks
        invariant i * n <= |literal|
        invariant forall k :: 0 <= k < i * n ==> literal[k] == Fold(m, text[s + k])
      {
        var sameBlock := SameFoldedBlock(m, literal, text, s, i * n);
        if !sameBlock {
          return false;
        }
      }
      if |literal| % n != 0 {
        same := SameFoldedBlock(m, literal, text, s, |literal| - n);
        return;
      }
      return true;
    }
    for i := 0 to |literal|
      invariant forall k :: 0 <= k < i ==> literal[k] == Fold(m, text[s + k])
    {
      if literal[i] != Fold(m, text[s + i]) {
        return false;
      }
    }
    return true;
  }
}
