/** What a registered pattern means, and why its compiled parts mean the same. */
module Meaning {
  import opened Characters
  import opened Globs
  import Literals
  import opened Registration

  /** The reference: the raw pattern, literals compared under folding, matches the whole text. */
  predicate Accepts(m: Mode, raw: seq<Char>, segment: bool, text: seq<Char>) {
    Match(Rules(m, segment), FoldTokens(m, Parse(raw, 0)), text, 0)
  }

  /** The compiled parts of a pattern: folded prefix, folded and trimmed suffix, folded tail, suffix minimum. */
  datatype Parts = Parts(prefix: seq<Char>, suffix: seq<Char>, tail: seq<Char>, minLength: nat)

  /** The parts are those of raw: put together they are its tokens, and they are cut where the code cuts. */
  ghost predicate Compiles(m: Mode, raw: seq<Char>, p: Parts) {
    && p.prefix == FoldAll(m, Registration.Literals(raw, 0))
    && FoldTokens(m, Parse(raw, 0)) == Lits(p.prefix, Concat(Parse(p.suffix, 0), Lits(p.tail, End)))
    && p.minLength == MinLen(Parse(p.suffix, 0)) + |p.tail|
    && (p.suffix == [] <==> LiteralsEnd(raw, 0) == |raw|) && (p.suffix == [] ==> p.tail == [])
    && (IsText(m, raw) ==> IsText(m, p.prefix) && IsText(m, p.suffix) && IsText(m, p.tail))
  }

  // ---------------------------------------------------------------------------------------------
  // Splitting a match
  // ---------------------------------------------------------------------------------------------

  lemma {:induction false} MatchLits(r: Rules, s: seq<Char>, remaining: Tokens, text: seq<Char>, i: nat)
    requires i <= |text|
    ensures Match(r, Lits(s, remaining), text, i) <==>
            Literals.Agrees(r.mode, s, text, i) && Match(r, remaining, text, i + |s|)
    decreases |s|
  {
    if s != [] {
      if i < |text| {
        MatchLits(r, s[1..], remaining, text, i + 1);
        if Literals.Agrees(r.mode, s[1..], text, i + 1) && s[0] == Fold(r.mode, text[i]) {
          forall k | 0 <= k < |s|
            ensures s[k] == Fold(r.mode, text[i + k])
          {
            if k > 0 {
              assert s[1..][k - 1] == Fold(r.mode, text[i + 1 + (k - 1)]);
            }
          }
        }
        if Literals.Agrees(r.mode, s, text, i) {
          forall k | 0 <= k < |s| - 1
            ensures s[1..][k] == Fold(r.mode, text[i + 1 + k])
          {
            assert s[k + 1] == Fold(r.mode, text[i + (k + 1)]);
          }
        }
      }
    }
  }

  /** Only the text up to the tail is left for what comes before the tail. */
  lemma {:induction false} MatchTail(r: Rules, tokens: Tokens, tail: seq<Char>, text: seq<Char>, i: nat)
    requires i <= |text|
    ensures Match(r, Concat(tokens, Lits(tail, End)), text, i) <==>
            var n := |text| - |tail|;
            i <= n && Literals.Agrees(r.mode, tail, text, n) && Match(r, tokens, text[..n], i)
    decreases |text| - i, tokens
  {
    var n := |text| - |tail|;
    match tokens
    case End =>
      MatchLits(r, tail, End, text, i);
      assert i + |tail| == |text| ==> i == n;
    case Then(Star, rest) =>
      MatchTail(r, rest, tail, text, i);
      if i < |text| {
        MatchTail(r, tokens, tail, text, i + 1);
      }
    case Then(t, rest) =>
      if i < |text| {
        MatchTail(r, rest, tail, text, i + 1);
      }
  }

  lemma {:induction false} MatchFrom(r: Rules, tokens: Tokens, text: seq<Char>, k: nat, i: nat)
    requires k <= i <= |text|
    ensures Match(r, tokens, text[k..], i - k) == Match(r, tokens, text, i)
    decreases |text| - i, tokens
  {
    match tokens
    case End =>
    case Then(Star, rest) =>
      MatchFrom(r, rest, text, k, i);
      if i < |text| {
        MatchFrom(r, tokens, text, k, i + 1);
      }
    case Then(t, rest) =>
      if i < |text| {
        MatchFrom(r, rest, text, k, i + 1);
      }
  }

  /** The middle of the text, between the prefix and the tail. */
  function Middle(p: Parts, text: seq<Char>): seq<Char>
    requires |p.prefix| + |p.tail| <= |text|
  {
    text[|p.prefix|..|text| - |p.tail|]
  }

  /**
    Registration preserves meaning: the raw pattern matches exactly the texts that start with the
    prefix, end with the tail without overlap, and whose middle the trimmed suffix matches.
   */
  lemma CompiledMeaning(m: Mode, raw: seq<Char>, segment: bool, p: Parts, text: seq<Char>)
    requires Compiles(m, raw, p)
    ensures Accepts(m, raw, segment, text) <==>
            && |p.prefix| + |p.tail| <= |text|
            && Literals.Agrees(m, p.prefix, text, 0) && Literals.Agrees(m, p.tail, text, |text| - |p.tail|)
            && Match(Rules(m, segment), Parse(p.suffix, 0), Middle(p, text), 0)
  {
    var r := Rules(m, segment);
    var remaining := Concat(Parse(p.suffix, 0), Lits(p.tail, End));
    MatchLits(r, p.prefix, remaining, text, 0);
    if |p.prefix| <= |text| {
      MatchTail(r, Parse(p.suffix, 0), p.tail, text, |p.prefix|);
      var n := |text| - |p.tail|;
      if |p.prefix| <= n {
        MatchFrom(r, Parse(p.suffix, 0), text[..n], |p.prefix|, |p.prefix|);
        assert text[..n][|p.prefix|..] == Middle(p, text);
      }
    }
  }

  /** The minimum length and the first literal are necessary conditions. */
  lemma AcceptedIsLong(m: Mode, raw: seq<Char>, segment: bool, p: Parts, text: seq<Char>)
    requires Compiles(m, raw, p) && Accepts(m, raw, segment, text)
    ensures |p.prefix| + p.minLength <= |text|
  {
    CompiledMeaning(m, raw, segment, p, text);
    MatchNeedsMinLen(Rules(m, segment), Parse(p.suffix, 0), Middle(p, text), 0);
  }

  lemma {:induction false} LiteralOccurs(r: Rules, tokens: Tokens, c: Char, text: seq<Char>, i: nat) returns (k: nat)
    requires i <= |text| && HasLiteral(tokens, c) && Match(r, tokens, text, i)
    ensures i <= k < |text| && Fold(r.mode, text[k]) == c
    decreases |text| - i, tokens
  {
    if tokens.head == Lit(c) {
      k := i;
    } else if tokens.head.Star? && !Match(r, tokens.rest, text, i) {
      k := LiteralOccurs(r, tokens, c, text, i + 1);
    } else {
      k := LiteralOccurs(r, tokens.rest, c, text, if tokens.head.Star? then i else i + 1);
    }
  }

  // ---------------------------------------------------------------------------------------------
  // From the scans to the parts
  // ---------------------------------------------------------------------------------------------

  lemma {:induction false} FoldLits(m: Mode, s: seq<Char>, remaining: Tokens)
    ensures FoldTokens(m, Lits(s, remaining)) == Lits(FoldAll(m, s), FoldTokens(m, remaining))
    decreases |s|
  {
    if s != [] {
      FoldLits(m, s[1..], remaining);
      assert FoldAll(m, s)[1..] == FoldAll(m, s[1..]);
    }
  }

  lemma MinLenBehindLits(s: seq<Char>, remaining: Tokens)
    ensures MinLen(Lits(s, remaining)) == |s| + MinLen(remaining)
    decreases |s|
  {
    if s != [] {
      MinLenBehindLits(s[1..], remaining);
    }
  }

  lemma MinLenOfConcat(tokens: Tokens, remaining: Tokens)
    ensures MinLen(Concat(tokens, remaining)) == MinLen(tokens) + MinLen(remaining)
  {
  }

  lemma {:induction false} LiteralsAreText(m: Mode, raw: seq<Char>, p: nat)
    requires p <= |raw| && IsText(m, raw)
    ensures IsText(m, Registration.Literals(raw, p))
    decreases |raw| - p
  {
    if p < |raw| && !IsWildcard(raw[p]) {
      LiteralsAreText(m, raw, if IsEscapePair(raw, p) then p + 2 else p + 1);
    }
  }

  lemma FoldedIsText(m: Mode, s: seq<Char>)
    requires IsText(m, s)
    ensures IsText(m, FoldAll(m, s))
  {
  }

  /** The five scans tokenise alike: their results are the parts of the pattern. */
  lemma ScansCompile(m: Mode, raw: seq<Char>, wild: seq<Char>, end: nat, p: Parts)
    requires Sound(m) && wild == FoldAll(m, raw[LiteralsEnd(raw, 0)..])
    requires end <= |wild| && LiteralsEnd(wild, end) == |wild| && (end == 0 <==> LiteralsEnd(wild, 0) == |wild|)
    requires Parse(wild, 0) == Concat(Parse(wild[..end], 0), Parse(wild, end))
    requires p == Parts(FoldAll(m, Registration.Literals(raw, 0)), wild[..end],
                        Registration.Literals(wild, end), MinLen(Parse(wild, 0)))
    ensures Compiles(m, raw, p)
  {
    var e := LiteralsEnd(raw, 0);
    LeadingLiterals(raw, 0);
    FoldLits(m, Registration.Literals(raw, 0), Parse(raw, e));
    ParseSuffix(raw, e, e);
    ParseFolded(m, raw[e..], 0);
    LeadingLiterals(wild, end);
    MinLenBehindLits(p.tail, End);
    MinLenOfConcat(Parse(p.suffix, 0), Lits(p.tail, End));
    if e < |raw| {
      assert wild[0] == Fold(m, raw[e]);
      FoldKeepsAlphabet(m, raw[e]);
    }
    if IsText(m, raw) {
      FoldedIsText(m, raw[e..]);
      LiteralsAreText(m, raw, 0);
      FoldedIsText(m, Registration.Literals(raw, 0));
      LiteralsAreText(m, wild, end);
    }
  }

  lemma {:induction false} MinLenFits(m: Mode, raw: seq<Char>, p: nat)
    requires p <= |raw|
    ensures MinLen(FoldTokens(m, Parse(raw, p))) <= |raw| - p
    decreases |raw| - p
  {
    if p < |raw| {
      MinLenFits(m, raw, if raw[p] == ESCAPE && IsEscapePair(raw, p) then p + 2 else p + 1);
    }
  }

  /** The length a pattern requires is at most its own, so no 32-bit sum of lengths can wrap around. */
  lemma PartsFit(m: Mode, raw: seq<Char>, p: Parts)
    requires Compiles(m, raw, p)
    ensures |p.prefix| + p.minLength <= |raw|
  {
    var remaining := Concat(Parse(p.suffix, 0), Lits(p.tail, End));
    MinLenFits(m, raw, 0);
    MinLenBehindLits(p.prefix, remaining);
    MinLenOfConcat(Parse(p.suffix, 0), Lits(p.tail, End));
    MinLenBehindLits(p.tail, End);
  }
}
