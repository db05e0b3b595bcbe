/** The scans of AddPattern: literal prefix, wildcard suffix, tail anchor, minimum length and first literal. */
module Registration {
  import opened Characters
  import opened Globs

  predicate IsWildcard(c: Char) {
    c == STAR || c == QUESTION
  }

  /** An escape followed by an operator, which together stand for the operator. */
  predicate IsEscapePair(raw: seq<Char>, p: nat)
    requires p < |raw|
  {
    raw[p] == ESCAPE && p + 1 < |raw| && IsOperator(raw[p + 1])
  }

  /** Where the literals that start at p end: at the next wildcard or at the end. */
  function LiteralsEnd(raw: seq<Char>, p: nat): (e: nat)
    requires p <= |raw|
    ensures p <= e <= |raw| && (e < |raw| ==> IsWildcard(raw[e]))
    decreases |raw| - p
  {
    if p == |raw| || IsWildcard(raw[p]) then p
    else if IsEscapePair(raw, p) then LiteralsEnd(raw, p + 2)
    else LiteralsEnd(raw, p + 1)
  }

  /** Those literals, unescaped. */
  function Literals(raw: seq<Char>, p: nat): seq<Char>
    requires p <= |raw|
    decreases |raw| - p
  {
    if p == |raw| || IsWildcard(raw[p]) then []
    else if IsEscapePair(raw, p) then [raw[p + 1]] + Literals(raw, p + 2)
    else [raw[p]] + Literals(raw, p + 1)
  }

  /** The literals behind the last wildcard from p on, or all of them where there is none. */
  function LastLiterals(raw: seq<Char>, p: nat): seq<Char>
    requires p <= |raw|
    decreases |raw| - p
  {
    var e := LiteralsEnd(raw, p);
    if e == |raw| then Literals(raw, p) else LastLiterals(raw, e + 1)
  }

  /** Folding keeps the lengths of literal runs. */
  lemma {:induction false} LiteralsFolded(m: Mode, raw: seq<Char>, p: nat)
    requires Sound(m) && p <= |raw|
    ensures LiteralsEnd(FoldAll(m, raw), p) == LiteralsEnd(raw, p)
    ensures |Literals(FoldAll(m, raw), p)| == |Literals(raw, p)|
    decreases |raw| - p
  {
    hide Fold, Sound;
    if p < |raw| {
      FoldKeepsAlphabet(m, raw[p]);
      if p + 1 < |raw| {
        FoldKeepsAlphabet(m, raw[p + 1]);
      }
      if !IsWildcard(raw[p]) {
        LiteralsFolded(m, raw, if IsEscapePair(raw, p) then p + 2 else p + 1);
      }
    }
  }

  lemma {:induction false} LastLiteralsFolded(m: Mode, raw: seq<Char>, p: nat)
    requires Sound(m) && p <= |raw|
    ensures |LastLiterals(FoldAll(m, raw), p)| == |LastLiterals(raw, p)|
    decreases |raw| - p
  {
    hide Sound, Fold;
    LiteralsFolded(m, raw, p);
    if LiteralsEnd(raw, p) < |raw| {
      LastLiteralsFolded(m, raw, LiteralsEnd(raw, p) + 1);
    }
  }

  function Lits(s: seq<Char>, rest: Tokens): Tokens {
    if s == [] then rest else Then(Lit(s[0]), Lits(s[1..], rest))
  }

  function Concat(tokens: Tokens, remaining: Tokens): Tokens {
    match tokens
    case End => remaining
    case Then(t, rest) => Then(t, Concat(rest, remaining))
  }

  function FoldTokens(m: Mode, tokens: Tokens): Tokens {
    match tokens
    case End => End
    case Then(Lit(c), rest) => Then(Lit(Fold(m, c)), FoldTokens(m, rest))
    case Then(t, rest) => Then(t, FoldTokens(m, rest))
  }

  // ---------------------------------------------------------------------------------------------
  // Parsing in pieces
  // ---------------------------------------------------------------------------------------------

  lemma {:induction false} LeadingLiterals(raw: seq<Char>, p: nat)
    requires p <= |raw|
    ensures Parse(raw, p) == Lits(Literals(raw, p), Parse(raw, LiteralsEnd(raw, p)))
    decreases |raw| - p
  {
    if p < |raw| && !IsWildcard(raw[p]) {
      LeadingLiterals(raw, if IsEscapePair(raw, p) then p + 2 else p + 1);
    }
  }

  /** The suffix of a pattern parses as its tokens from that position on. */
  lemma {:induction false} ParseSuffix(raw: seq<Char>, e: nat, p: nat)
    requires e <= p <= |raw|
    ensures Parse(raw[e..], p - e) == Parse(raw, p)
    decreases |raw| - p
  {
    if p < |raw| {
      ParseSuffix(raw, e, p + 1);
      if p + 1 < |raw| {
        ParseSuffix(raw, e, p + 2);
      }
    }
  }

  /** Folding commutes with parsing because it keeps the operators. */
  lemma {:induction false} ParseFolded(m: Mode, raw: seq<Char>, p: nat)
    requires Sound(m) && p <= |raw|
    ensures Parse(FoldAll(m, raw), p) == FoldTokens(m, Parse(raw, p))
    decreases |raw| - p
  {
    if p < |raw| {
      FoldKeepsAlphabet(m, raw[p]);
      ParseFolded(m, raw, p + 1);
      if p + 1 < |raw| {
        FoldKeepsAlphabet(m, raw[p + 1]);
        ParseFolded(m, raw, p + 2);
        if IsOperator(raw[p + 1]) {
          FoldedOperator(m, raw[p + 1]);
        }
      }
    }
  }

  lemma FoldedOperator(m: Mode, c: Char)
    requires IsOperator(c)
    ensures Fold(m, c) == c
  {
  }

  /** Token positions: e is reached from p by whole tokens. */
  ghost predicate Boundary(wild: seq<Char>, p: nat, e: nat)
    requires p <= |wild|
    decreases |wild| - p
  {
    p == e || (p < |wild| && Boundary(wild, if IsEscapePair(wild, p) then p + 2 else p + 1, e))
  }

  /** Cutting right after a wildcard cuts between tokens. */
  lemma {:induction false} ParseCut(wild: seq<Char>, p: nat, i: nat)
    requires p <= i < |wild| && Boundary(wild, p, i) && IsWildcard(wild[i])
    ensures Parse(wild, p) == Concat(Parse(wild[..i + 1], p), Parse(wild, i + 1))
    decreases |wild| - p
  {
    var front := wild[..i + 1];
    if p == i {
      assert front[p] == wild[p];
      assert Parse(front, p + 1) == End;
    } else {
      assert front[p] == wild[p] && front[p + 1] == wild[p + 1];
      BoundaryOrder(wild, if IsEscapePair(wild, p) then p + 2 else p + 1, i);
      ParseCut(wild, if IsEscapePair(wild, p) then p + 2 else p + 1, i);
    }
  }

  lemma {:induction false} BoundaryOrder(wild: seq<Char>, p: nat, e: nat)
    requires p <= |wild| && Boundary(wild, p, e)
    ensures p <= e <= |wild|
    decreases |wild| - p
  {
    if p != e {
      BoundaryOrder(wild, if IsEscapePair(wild, p) then p + 2 else p + 1, e);
    }
  }

  lemma {:induction false} BoundaryStep(wild: seq<Char>, p: nat, e: nat)
    requires p <= |wild| && e < |wild| && Boundary(wild, p, e)
    ensures Boundary(wild, p, if IsEscapePair(wild, e) then e + 2 else e + 1)
    decreases |wild| - p
  {
    if p != e {
      BoundaryStep(wild, if IsEscapePair(wild, p) then p + 2 else p + 1, e);
    }
  }

  // ---------------------------------------------------------------------------------------------
  // The scans
  // ---------------------------------------------------------------------------------------------

  /** Phase 1: the raw and unescaped lengths of the literal prefix. */
  method ScanPrefix(raw: seq<Char>) returns (prefixRawLen: nat, prefixUnescapedLen: nat)
    ensures prefixRawLen == LiteralsEnd(raw, 0) && prefixUnescapedLen == |Literals(raw, 0)|
  {
    prefixRawLen, prefixUnescapedLen := 0, 0;
    while prefixRawLen < |raw| && !IsWildcard(raw[prefixRawLen])
      invariant prefixRawLen <= |raw| && LiteralsEnd(raw, prefixRawLen) == LiteralsEnd(raw, 0)
      invariant prefixUnescapedLen + |Literals(raw, prefixRawLen)| == |Literals(raw, 0)|
      decreases |raw| - prefixRawLen
    {
      if IsEscapePair(raw, prefixRawLen) {
        prefixRawLen := prefixRawLen + 2;
      } else {
        prefixRawLen := prefixRawLen + 1;
      }
      prefixUnescapedLen := prefixUnescapedLen + 1;
    }
  }

  function Copied(m: Mode, fold: bool, s: seq<Char>): seq<Char> {
    if fold then FoldAll(m, s) else s
  }

  lemma CopiedStep(m: Mode, fold: bool, buffer: seq<Char>, c: Char, rest: seq<Char>)
    ensures buffer + Copied(m, fold, [c] + rest) ==
            buffer + [if fold then Fold(m, c) else c] + Copied(m, fold, rest)
  {
  }

  /** The unescaped copy of the literals of raw from start up to end, folded or not. */
  method CopyLiterals(m: Mode, fold: bool, raw: seq<Char>, start: nat, end: nat) returns (buffer: seq<Char>)
    requires start <= |raw| && end == LiteralsEnd(raw, start)
    ensures buffer == Copied(m, fold, Literals(raw, start))
  {
    hide Copied, Fold;
    buffer := [];
    var src := start;
    assert [] + Copied(m, fold, Literals(raw, start)) == Copied(m, fold, Literals(raw, start));
    while src < end
      invariant start <= src <= end && LiteralsEnd(raw, src) == end
      invariant buffer + Copied(m, fold, Literals(raw, src)) == Copied(m, fold, Literals(raw, start))
      decreases end - src
    {
      var c := raw[src];
      if c == ESCAPE && src + 1 < end && IsOperator(raw[src + 1]) {
        c := raw[src + 1];
        src := src + 2;
      } else {
        src := src + 1;
      }
      CopiedStep(m, fold, buffer, c, Literals(raw, src));
      buffer := buffer + [if fold then Fold(m, c) else c];
    }
    NothingCopied(m, fold);
  }

  /** The folded copy of the raw pattern from start on, operators kept in place. */
  method CopyWildPart(m: Mode, raw: seq<Char>, start: nat) returns (buffer: seq<Char>)
    requires start <= |raw|
    ensures buffer == FoldAll(m, raw[start..])
  {
    hide Fold;
    buffer := [];
    for i := start to |raw|
      invariant |buffer| == i - start && forall k :: 0 <= k < |buffer| ==> buffer[k] == Fold(m, raw[start + k])
    {
      buffer := buffer + [Fold(m, raw[i])];
    }
  }

  /** The unescaped length of a pattern end that holds no wildcard. */
  method TailLength(wild: seq<Char>, tailStart: nat) returns (tailUnescapedLen: nat)
    requires tailStart <= |wild| && LiteralsEnd(wild, tailStart) == |wild|
    ensures tailUnescapedLen == |Literals(wild, tailStart)|
  {
    tailUnescapedLen := 0;
    var i := tailStart;
    while i < |wild|
      invariant tailStart <= i <= |wild| && LiteralsEnd(wild, i) == |wild|
      invariant tailUnescapedLen + |Literals(wild, i)| == |Literals(wild, tailStart)|
      decreases |wild| - i
    {
      i := if IsEscapePair(wild, i) then i + 2 else i + 1;
      tailUnescapedLen := tailUnescapedLen + 1;
    }
  }

  lemma NothingCopied(m: Mode, fold: bool)
    ensures Copied(m, fold, []) == []
  {
  }

  /** The minimum length of the wildcard suffix. */
  method MinimumLength(wild: seq<Char>) returns (minLength: nat)
    ensures minLength == MinLen(Parse(wild, 0))
  {
    minLength := 0;
    var i := 0;
    while i < |wild|
      invariant 0 <= i <= |wild| && minLength + MinLen(Parse(wild, i)) == MinLen(Parse(wild, 0))
      decreases |wild| - i
    {
      if IsEscapePair(wild, i) {
        minLength := minLength + 1;
        i := i + 2;
      } else {
        if wild[i] != STAR {
          minLength := minLength + 1;
        }
        i := i + 1;
      }
    }
  }

  /** The end of the last wildcard: what follows is literal, and cutting there cuts between tokens. */
  method LastWildcardEnd(wild: seq<Char>) returns (end: nat)
    ensures end <= |wild| && LiteralsEnd(wild, end) == |wild| && (end > 0 ==> IsWildcard(wild[end - 1]))
    ensures end == 0 <==> LiteralsEnd(wild, 0) == |wild|
    ensures Literals(wild, end) == LastLiterals(wild, 0)
    ensures Parse(wild, 0) == Concat(Parse(wild[..end], 0), Parse(wild, end))
  {
    end := 0;
    var i := 0;
    while i < |wild|
      invariant 0 <= end <= i <= |wild| && Boundary(wild, 0, i) && LiteralsEnd(wild, end) == LiteralsEnd(wild, i)
      invariant end > 0 ==> IsWildcard(wild[end - 1])
      invariant LastLiterals(wild, end) == LastLiterals(wild, 0)
      invariant if end == 0 then LiteralsEnd(wild, 0) == LiteralsEnd(wild, i) else LiteralsEnd(wild, 0) < |wild|
      invariant Parse(wild, 0) == Concat(Parse(wild[..end], 0), Parse(wild, end))
      decreases |wild| - i
    {
      BoundaryStep(wild, 0, i);
      if IsEscapePair(wild, i) {
        i := i + 2;
      } else {
        if IsWildcard(wild[i]) {
          ParseCut(wild, 0, i);
          end := i + 1;
        }
        i := i + 1;
      }
    }
  }

  /** The literal c is among the tokens. */
  ghost predicate HasLiteral(tokens: Tokens, c: Char) {
    tokens.Then? && (tokens.head == Lit(c) || HasLiteral(tokens.rest, c))
  }

  /** The first literal, when both a star and a question mark precede it; 0 otherwise. */
  function FirstLit(tokens: Tokens, seenStar: bool, seenQuestion: bool): Char {
    match tokens
    case End => 0
    case Then(Star, rest) => FirstLit(rest, true, seenQuestion)
    case Then(Any, rest) => FirstLit(rest, seenStar, true)
    case Then(Lit(c), rest) => if seenStar && seenQuestion then c else 0
  }

  lemma FirstLitOccurs(tokens: Tokens, seenStar: bool, seenQuestion: bool)
    ensures FirstLit(tokens, seenStar, seenQuestion) != 0 ==>
              HasLiteral(tokens, FirstLit(tokens, seenStar, seenQuestion))
  {
  }

  /** The scan of a slow-path suffix for its first literal. */
  method FirstLiteral(suffix: seq<Char>) returns (first: Char)
    ensures first == FirstLit(Parse(suffix, 0), false, false)
  {
    first := 0;
    var seenStar, seenQuestion := false, false;
    for i := 0 to |suffix|
      invariant FirstLit(Parse(suffix, i), seenStar, seenQuestion) == FirstLit(Parse(suffix, 0), false, false)
    {
      var c := suffix[i];
      if c == STAR {
        seenStar := true;
      } else if c == QUESTION {
        seenQuestion := true;
      } else {
        if seenStar && seenQuestion {
          first := if IsEscapePair(suffix, i) then suffix[i + 1] else c;
        }
        return;
      }
    }
  }
}
