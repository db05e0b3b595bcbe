/** The checks one candidate pattern goes through, proved to accept exactly what the pattern means. */
module Candidates {
  import opened Characters
  import opened Globs
  import Literals
  import opened Meaning
  import opened Registration
  import opened Registry
  import WildCards

  method EvaluateTailMatch(m: Mode, e: PatternEntry, text: seq<Char>, ghost tail: seq<Char>) returns (same: bool)
    requires Points(e.tailAnchor, tail) && IsText(m, tail) && IsText(m, text) && |tail| <= |text|
    ensures same <==> Literals.Agrees(m, tail, text, |text| - |tail|)
  {
    if e.tailAnchor.length == 0 {
      return true;
    }
    same := Literals.CompareLiteral(m, Read(e.tailAnchor, tail), text, |text| - e.tailAnchor.length);
  }

  method EvaluatePrefixMatch(m: Mode, e: PatternEntry, text: seq<Char>, ghost prefix: seq<Char>) returns (same: bool)
    requires Points(e.literalPrefix, prefix) && IsText(m, prefix) && IsText(m, text) && |prefix| <= |text|
    ensures same <==> Literals.Agrees(m, prefix, text, 0)
  {
    same := Literals.CompareLiteral(m, Read(e.literalPrefix, prefix), text, 0);
  }

  method EvaluatePatternSuffix(m: Mode, e: PatternEntry, rest: seq<Char>, ghost suffix: seq<Char>)
    returns (matched: bool)
    requires Sound(m) && Points(e.wildcardSuffix, suffix) && IsText(m, suffix) && IsText(m, rest)
    requires e.tailAnchor.length <= |rest|
    requires e.minWildcardMatchLength == MinLen(Parse(suffix, 0)) + e.tailAnchor.length
    ensures matched == Match(Rules(m, e.segment), Parse(suffix, 0), rest[..|rest| - e.tailAnchor.length], 0)
  {
    ghost var steps, looked;
    matched, steps, looked := WildCards.WildCardMatch(Rules(m, e.segment), Read(e.wildcardSuffix, suffix),
                                              rest[..|rest| - e.tailAnchor.length],
                                              e.minWildcardMatchLength - e.tailAnchor.length);
  }

  /** A candidate from a hash bucket whose prefix has the length being probed. */
  method MatchFast(m: Mode, e: PatternEntry, text: seq<Char>, ghost g: Rule) returns (matched: bool)
    requires Sound(m) && IsText(m, text) && Stored(m, g) && Legible(g) && g.entry == e
    requires e.literalPrefix.length <= |text|
    ensures matched == Accepts(m, g.raw, g.segment, text)
  {
    hide Accepts, Match, HasLiteral, Literals.Agrees, Points;
    CompiledMeaning(m, g.raw, g.segment, g.parts, text);
    var cchLength := e.literalPrefix.length;
    if |text| < cchLength + e.minWildcardMatchLength {
      NotLongEnough(m, g, text);
      return false;
    }
    if cchLength < |text| {
      if e.wildcardSuffix.length == 0 {
        NoSuffix(m, g, text);
        return false;
      }
      var tailSame := EvaluateTailMatch(m, e, text, g.parts.tail);
      if !tailSame {
        return false;
      }
    }
    var prefixSame := EvaluatePrefixMatch(m, e, text, g.parts.prefix);
    if !prefixSame {
      return false;
    }
    if cchLength == |text| {
      WholeText(m, g, text);
      return true;
    }
    matched := EvaluatePatternSuffix(m, e, text[cchLength..], g.parts.suffix);
    assert text[cchLength..][..|text| - cchLength - e.tailAnchor.length] == Middle(g.parts, text);
  }

  /** A text that is just the prefix is accepted when nothing more is required. */
  lemma WholeText(m: Mode, g: Rule, text: seq<Char>)
    requires Stored(m, g) && |text| == |g.parts.prefix| && g.parts.minLength == 0
    requires Literals.Agrees(m, g.parts.prefix, text, 0)
    ensures Accepts(m, g.raw, g.segment, text)
  {
    hide Match, Parse;
    CompiledMeaning(m, g.raw, g.segment, g.parts, text);
    WildCards.OnlyStarsMatchNothing(Rules(m, g.segment), Parse(g.parts.suffix, 0), []);
    assert Middle(g.parts, text) == [];
  }

  lemma NotLongEnough(m: Mode, g: Rule, text: seq<Char>)
    requires Stored(m, g) && |text| < |g.parts.prefix| + g.parts.minLength
    ensures !Accepts(m, g.raw, g.segment, text)
  {
    if Accepts(m, g.raw, g.segment, text) {
      AcceptedIsLong(m, g.raw, g.segment, g.parts, text);
    }
  }

  lemma NoSuffix(m: Mode, g: Rule, text: seq<Char>)
    requires Stored(m, g) && |g.parts.prefix| < |text| && g.parts.suffix == []
    ensures !Accepts(m, g.raw, g.segment, text)
  {
    CompiledMeaning(m, g.raw, g.segment, g.parts, text);
  }

  /** The first-literal scan of the slow path. */
  method Contains(m: Mode, text: seq<Char>, stop: nat, c: Char) returns (found: bool)
    requires stop <= |text|
    ensures found <==> exists i :: 0 <= i < stop && Fold(m, text[i]) == c
  {
    for i := 0 to stop
      invariant forall k :: 0 <= k < i ==> Fold(m, text[k]) != c
    {
      if Fold(m, text[i]) == c {
        return true;
      }
    }
    return false;
  }

  /** A candidate from the slow path. */
  method MatchSlow(m: Mode, e: PatternEntry, text: seq<Char>, ghost g: Rule) returns (matched: bool)
    requires Sound(m) && IsText(m, text) && Stored(m, g) && Legible(g) && g.entry == e && IsSlow(g.raw)
    ensures matched == Accepts(m, g.raw, g.segment, text)
  {
    hide Accepts, Match, HasLiteral;
    CompiledMeaning(m, g.raw, g.segment, g.parts, text);
    assert g.parts.prefix == [];
    if |text| < e.minWildcardMatchLength {
      NotLongEnough(m, g, text);
      return false;
    }
    var tailSame := EvaluateTailMatch(m, e, text, g.parts.tail);
    if !tailSame {
      return false;
    }
    if e.firstLiteral != 0 {
      var found := Contains(m, text, |text| - e.tailAnchor.length, e.firstLiteral);
      if !found {
        LiteralMissing(m, g, text);
        return false;
      }
    }
    matched := EvaluatePatternSuffix(m, e, text, g.parts.suffix);
    assert text[..|text| - e.tailAnchor.length] == Middle(g.parts, text);
  }

  lemma LiteralMissing(m: Mode, g: Rule, text: seq<Char>)
    requires Stored(m, g) && g.parts.prefix == [] && |g.parts.tail| <= |text| && g.entry.firstLiteral != 0
    requires forall i :: 0 <= i < |text| - |g.parts.tail| ==> Fold(m, text[i]) != g.entry.firstLiteral
    ensures !Accepts(m, g.raw, g.segment, text)
  {
    CompiledMeaning(m, g.raw, g.segment, g.parts, text);
    var r := Rules(m, g.segment);
    var tokens := Parse(g.parts.suffix, 0);
    if Match(r, tokens, Middle(g.parts, text), 0) {
      var k := LiteralOccurs(r, tokens, g.entry.firstLiteral, Middle(g.parts, text), 0);
      assert Middle(g.parts, text)[k] == text[k];
    }
  }
}
