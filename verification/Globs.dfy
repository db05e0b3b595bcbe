/** The reference meaning of a pattern: a token list and a recursive matcher over every split of the text. */
module Globs {
  import opened Characters

  datatype Token = Lit(c: Char) | Any | Star

  datatype Tokens = End | Then(head: Token, rest: Tokens)

  /** Folding and scope of one match; `segment` is SCOPE_PATH_SEGMENT. */
  datatype Rules = Rules(mode: Mode, segment: bool)

  /** Reads the pattern from position p on. An escape takes the next character only if that is an operator. */
  function Parse(raw: seq<Char>, p: nat): Tokens
    requires p <= |raw|
    decreases |raw| - p
  {
    if p == |raw| then
      End
    else if raw[p] == STAR then
      Then(Star, Parse(raw, p + 1))
    else if raw[p] == QUESTION then
      Then(Any, Parse(raw, p + 1))
    else if raw[p] == ESCAPE && p + 1 < |raw| && IsOperator(raw[p + 1]) then
      Then(Lit(raw[p + 1]), Parse(raw, p + 2))
    else
      Then(Lit(raw[p]), Parse(raw, p + 1))
  }

  /** A wildcard may take this character. */
  predicate Crosses(r: Rules, c: Char) {
    !(r.segment && IsPathSeparator(c))
  }

  predicate Takes(r: Rules, t: Token, c: Char)
    requires !t.Star?
  {
    match t
    case Lit(l) => l == Fold(r.mode, c)
    case Any => Crosses(r, c)
  }

  /** The reference matcher: the tokens match exactly the text from position s on. */
  predicate Match(r: Rules, tokens: Tokens, text: seq<Char>, s: nat)
    requires s <= |text|
    decreases |text| - s, tokens
  {
    match tokens
    case End => s == |text|
    case Then(Star, rest) =>
      Match(r, rest, text, s) || (s < |text| && Crosses(r, text[s]) && Match(r, tokens, text, s + 1))
    case Then(tok, rest) =>
      s < |text| && Takes(r, tok, text[s]) && Match(r, rest, text, s + 1)
  }

  /** The number of characters the tokens cannot do without. */
  function MinLen(tokens: Tokens): nat {
    match tokens
    case End => 0
    case Then(Star, rest) => MinLen(rest)
    case Then(_, rest) => 1 + MinLen(rest)
  }

  lemma MatchNeedsMinLen(r: Rules, tokens: Tokens, text: seq<Char>, s: nat)
    requires s <= |text| && Match(r, tokens, text, s)
    ensures MinLen(tokens) <= |text| - s
    decreases |text| - s, tokens
  {
  }

  /** No character of text[s..k) stops a wildcard. */
  ghost predicate Clear(r: Rules, text: seq<Char>, s: nat, k: nat)
    requires k <= |text|
  {
    forall x :: s <= x < k ==> Crosses(r, text[x])
  }

  lemma StarSkips(r: Rules, behind: Tokens, text: seq<Char>, s: nat, k: nat)
    requires s <= k <= |text| && Clear(r, text, s, k)
    requires Match(r, Then(Star, behind), text, k)
    ensures Match(r, Then(Star, behind), text, s)
    decreases k - s
  {
    if s < k {
      StarSkips(r, behind, text, s + 1, k);
    }
  }

  /** A star is exactly a clear gap followed by a match of the rest. */
  lemma StarGap(r: Rules, behind: Tokens, text: seq<Char>, s: nat) returns (k: nat)
    requires s <= |text| && Match(r, Then(Star, behind), text, s)
    ensures s <= k <= |text| && Clear(r, text, s, k) && Match(r, behind, text, k)
    decreases |text| - s
  {
    if Match(r, behind, text, s) {
      k := s;
    } else {
      k := StarGap(r, behind, text, s + 1);
    }
  }

  lemma StarStar(r: Rules, behind: Tokens, text: seq<Char>, s: nat)
    requires s <= |text|
    ensures Match(r, Then(Star, Then(Star, behind)), text, s) == Match(r, Then(Star, behind), text, s)
    decreases |text| - s
  {
    if s < |text| {
      StarStar(r, behind, text, s + 1);
    }
  }

  /** Reading star-free tokens from position i on leaves the remaining ones at position s. */
  ghost predicate Consumes(r: Rules, tokens: Tokens, text: seq<Char>, i: nat, remaining: Tokens, s: nat): (b: bool)
    requires i <= |text|
    ensures b ==> i <= s <= |text|
    decreases tokens
  {
    || (tokens == remaining && i == s)
    || (tokens.Then? && !tokens.head.Star? && i < |text| && Takes(r, tokens.head, text[i]) &&
        Consumes(r, tokens.rest, text, i + 1, remaining, s))
  }

  lemma {:induction false} ConsumesOneMore(r: Rules, tokens: Tokens, text: seq<Char>, i: nat, remaining: Tokens, s: nat)
    requires i <= |text| && s < |text| && Consumes(r, tokens, text, i, remaining, s)
    requires remaining.Then? && !remaining.head.Star? && Takes(r, remaining.head, text[s])
    ensures Consumes(r, tokens, text, i, remaining.rest, s + 1)
    decreases tokens
  {
    if tokens == remaining && i == s {
      assert Consumes(r, tokens.rest, text, i + 1, remaining.rest, s + 1);
    } else {
      ConsumesOneMore(r, tokens.rest, text, i + 1, remaining, s);
    }
  }

  /** Star-free tokens leave no choice. */
  lemma ConsumesMatch(r: Rules, tokens: Tokens, text: seq<Char>, i: nat, remaining: Tokens, s: nat)
    requires i <= |text| && Consumes(r, tokens, text, i, remaining, s)
    ensures Match(r, tokens, text, i) == Match(r, remaining, text, s)
    decreases tokens
  {
    if !(tokens == remaining && i == s) {
      ConsumesMatch(r, tokens.rest, text, i + 1, remaining, s);
    }
  }

  /**
    The same segment placed at i and at j: a separator under the later placement sits under a
    literal separator, so there is one at the same offset under the earlier placement.
   */
  lemma {:induction false} SameSegment(r: Rules, tokens: Tokens, text: seq<Char>, i: nat, j: nat, behind: Tokens,
                                       s: nat)
    requires Sound(r.mode) && i <= j <= |text|
    requires Consumes(r, tokens, text, i, Then(Star, behind), s) && Match(r, tokens, text, j)
    ensures s + (j - i) <= |text| && Match(r, Then(Star, behind), text, s + (j - i))
    ensures forall x :: i <= x < s && !Crosses(r, text[x + (j - i)]) ==> !Crosses(r, text[x])
    decreases tokens
  {
    if !(tokens == Then(Star, behind) && i == s) {
      SameSegment(r, tokens.rest, text, i + 1, j + 1, behind, s);
      FoldKeepsAlphabet(r.mode, text[i]);
      FoldKeepsAlphabet(r.mode, text[j]);
      forall x | i <= x < s && !Crosses(r, text[x + (j - i)])
        ensures !Crosses(r, text[x])
      {
        if x > i {
          assert text[x + (j - i)] == text[x + (j + 1 - (i + 1))];
        }
      }
    }
  }

  /** Infinite descent: a separator in the stretch would force another one j - i places to its left. */
  lemma {:induction false} NoSeparatorBetween(r: Rules, text: seq<Char>, i: nat, j: nat, s: nat, y: nat)
    requires i < j <= |text| && i <= y < s + (j - i) <= |text| && Clear(r, text, i, j)
    requires forall x :: i <= x < s && !Crosses(r, text[x + (j - i)]) ==> !Crosses(r, text[x])
    ensures Crosses(r, text[y])
    decreases y
  {
    if y >= j {
      NoSeparatorBetween(r, text, i, j, s, y - (j - i));
      assert text[(y - (j - i)) + (j - i)] == text[y];
    }
  }

  /**
    Leftmost placement is never worse: once the segment between two stars fits at i, nothing is
    lost by committing to it and only ever moving the second star.
   */
  lemma {:induction false} LeftmostSuffices(r: Rules, tokens: Tokens, text: seq<Char>, i: nat, behind: Tokens, s: nat)
    requires Sound(r.mode) && i <= |text| && Consumes(r, tokens, text, i, Then(Star, behind), s)
    ensures Match(r, Then(Star, tokens), text, i) == Match(r, Then(Star, behind), text, s)
  {
    ConsumesMatch(r, tokens, text, i, Then(Star, behind), s);
    if Match(r, Then(Star, tokens), text, i) {
      var j := StarGap(r, tokens, text, i);
      if i < j {
        SameSegment(r, tokens, text, i, j, behind, s);
        forall y | s <= y < s + (j - i)
          ensures Crosses(r, text[y])
        {
          NoSeparatorBetween(r, text, i, j, s, y);
        }
        StarSkips(r, behind, text, s, s + (j - i));
      }
    }
  }
}
