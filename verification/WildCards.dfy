/** WildCardMatch and its fast-forward cursor, proved against the reference matcher. */
module WildCards {
  import opened Bits
  import opened Blocks
  import opened Characters
  import opened Globs
  import opened Options

  // ---------------------------------------------------------------------------------------------
  // fastForward
  // ---------------------------------------------------------------------------------------------

  /** The scalar meaning of fastForward: the first target before any separator, in text[s..e). */
  function Scan(r: Rules, target: Char, text: seq<Char>, s: nat, e: nat): (found: Option<nat>)
    requires e <= |text|
    ensures found.Some? ==> s <= found.value < e
    decreases e - s
  {
    if s >= e then
      None
    else if Fold(r.mode, text[s]) == target then
      Some(s)
    else if !Crosses(r, text[s]) then
      None
    else
      Scan(r, target, text, s + 1, e)
  }

  /** A block's verdict is what the scalar scan does over it. */
  lemma {:induction false} BlockIsScan(r: Rules, target: Char, text: seq<Char>, s: nat, e: nat, b: seq<Char>, i: nat)
    requires Sound(r.mode) && i <= |b| && s + |b| <= e <= |text|
    requires forall k :: 0 <= k < |b| ==> b[k] == Fold(r.mode, text[s + k])
    ensures match FirstOf(b, target, r.segment, i)
            case NoneHere => Scan(r, target, text, s + i, e) == Scan(r, target, text, s + |b|, e)
            case TargetAt(k) => Scan(r, target, text, s + i, e) == Some(s + k)
            case SeparatorFirst => Scan(r, target, text, s + i, e) == None
    decreases |b| - i
  {
    if i < |b| {
      FoldKeepsAlphabet(r.mode, text[s + i]);
      BlockIsScan(r, target, text, s, e, b, i + 1);
    }
  }

  /** Skipping positions that cannot start the rest, and giving up when none is left, loses no match. */
  lemma {:induction false} ScanPreservesMatch(r: Rules, behind: Tokens, text: seq<Char>, s: nat, e: nat)
    requires behind.Then? && behind.head.Lit? && s <= e <= |text| && |text| - e == MinLen(behind) - 1
    ensures match Scan(r, behind.head.c, text, s, e)
            case None => !Match(r, Then(Star, behind), text, s)
            case Some(k) => Match(r, Then(Star, behind), text, s) == Match(r, Then(Star, behind), text, k)
    decreases e - s
  {
    if s == e {
      if Match(r, Then(Star, behind), text, s) {
        MatchNeedsMinLen(r, Then(Star, behind), text, s);
      }
    } else if Fold(r.mode, text[s]) != behind.head.c && Crosses(r, text[s]) {
      ScanPreservesMatch(r, behind, text, s + 1, e);
    }
  }

  /** One block of the cursor: by word when the block can be folded as a word, else character by character. */
  method ScanOneBlock(r: Rules, text: seq<Char>, s: nat, ghost e: nat, target: Char, targetMask: bv64)
    returns (v: Verdict)
    requires Sound(r.mode) && IsText(r.mode, text) && (!r.mode.wide ==> target < 256)
    requires targetMask == Broadcast(r.mode, target) && s + BlockLength(r.mode) <= e <= |text|
    ensures match v
            case NoneHere => Scan(r, target, text, s, e) == Scan(r, target, text, s + BlockLength(r.mode), e)
            case TargetAt(k) => Scan(r, target, text, s, e) == Some(s + k)
            case SeparatorFirst => Scan(r, target, text, s, e) == None
  {
    hide Blocks.Load, Blocks.IsAsciiSwar, Blocks.ToUpperSwar, Blocks.Broadcast, Blocks.ScanBlock, Blocks.Holds, FirstOf;
    var m := r.mode;
    var w := Load(m, text, s);
    ghost var b := text[s..s + BlockLength(m)];
    LoadHolds(m, text, s);
    if !m.insensitive || IsAsciiSwar(m, w) {
      if m.insensitive {
        ToUpperHolds(m, w, b);
        w := ToUpperSwar(m, w);
      } else {
        assert FoldAll(m, b) == b;
      }
      ScanBlockExact(m, w, FoldAll(m, b), target, r.segment);
      BlockIsScan(r, target, text, s, e, FoldAll(m, b), 0);
      return ScanBlock(m, w, targetMask, r.segment);
    }
    for k := 0 to BlockLength(m)
      invariant Scan(r, target, text, s, e) == Scan(r, target, text, s + k, e)
    {
      if Fold(m, text[s + k]) == target {
        return TargetAt(k);
      }
      if r.segment && IsPathSeparator(text[s + k]) {
        return SeparatorFirst;
      }
    }
    return NoneHere;
  }

  /** One round of the four-way unrolled cursor. */
  method ScanFour(r: Rules, text: seq<Char>, s: nat, ghost e: nat, target: Char) returns (v: Verdict)
    requires s + 4 <= e <= |text|
    ensures match v
            case NoneHere => Scan(r, target, text, s, e) == Scan(r, target, text, s + 4, e)
            case TargetAt(k) => Scan(r, target, text, s, e) == Some(s + k)
            case SeparatorFirst => Scan(r, target, text, s, e) == None
  {
    if Fold(r.mode, text[s]) == target {
      return TargetAt(0);
    }
    if r.segment && IsPathSeparator(text[s]) {
      return SeparatorFirst;
    }
    if Fold(r.mode, text[s + 1]) == target {
      return TargetAt(1);
    }
    if r.segment && IsPathSeparator(text[s + 1]) {
      return SeparatorFirst;
    }
    assert Scan(r, target, text, s, e) == Scan(r, target, text, s + 2, e);
    if Fold(r.mode, text[s + 2]) == target {
      return TargetAt(2);
    }
    if r.segment && IsPathSeparator(text[s + 2]) {
      return SeparatorFirst;
    }
    if Fold(r.mode, text[s + 3]) == target {
      return TargetAt(3);
    }
    if r.segment && IsPathSeparator(text[s + 3]) {
      return SeparatorFirst;
    }
    return NoneHere;
  }

  /** fastForward: moves the text cursor to the next place where the character after a star can match. */
  method FastForward(r: Rules, text: seq<Char>, start: nat, remainingMinLength: nat, target: Char, targetMask: bv64)
    returns (found: bool, s: nat, ghost looked: nat)
    requires Sound(r.mode) && IsText(r.mode, text) && (!r.mode.wide ==> target < 256)
    requires 1 <= remainingMinLength && start + remainingMinLength <= |text|
    requires targetMask == Broadcast(r.mode, target)
    ensures (if found then Some(s) else None) == Scan(r, target, text, start, |text| - (remainingMinLength - 1))
    ensures looked <= |text| - start && (found ==> looked <= s - start + BlockLength(r.mode))
  {
    hide Blocks.Broadcast;
    var m := r.mode;
    var searchEnd := |text| - (remainingMinLength - 1);
    s, looked := start, 0;
    if !m.wide || m.insensitive {
      while s + BlockLength(m) <= searchEnd
        invariant start <= s <= searchEnd && looked == s - start
        invariant Scan(r, target, text, start, searchEnd) == Scan(r, target, text, s, searchEnd)
      {
        looked := looked + BlockLength(m);
        var v := ScanOneBlock(r, text, s, searchEnd, target, targetMask);
        match v
        case TargetAt(k) => return true, s + k, looked;
        case SeparatorFirst => return false, s, looked;
        case NoneHere => s := s + BlockLength(m);
      }
    } else {
      while s + 3 < searchEnd
        invariant start <= s <= searchEnd && looked == s - start
        invariant Scan(r, target, text, start, searchEnd) == Scan(r, target, text, s, searchEnd)
      {
        looked := looked + 4;
        var v := ScanFour(r, text, s, searchEnd, target);
        match v
        case TargetAt(k) => return true, s + k, looked;
        case SeparatorFirst => return false, s, looked;
        case NoneHere => s := s + 4;
      }
    }
    while s < searchEnd
      invariant start <= s <= searchEnd && looked == s - start
      invariant Scan(r, target, text, start, searchEnd) == Scan(r, target, text, s, searchEnd)
    {
      looked := looked + 1;
      if Fold(m, text[s]) == target {
        return true, s, looked;
      }
      if r.segment && IsPathSeparator(text[s]) {
        return false, s, looked;
      }
      s := s + 1;
    }
    return false, s, looked;
  }

  // ---------------------------------------------------------------------------------------------
  // WildCardMatch
  // ---------------------------------------------------------------------------------------------

  /** Where the matcher restarts: after the most recent star, or at the beginning while there is none. */
  ghost predicate Anchored(r: Rules, pattern: seq<Char>, text: seq<Char>, hasStar: bool, lastStarP: nat, lastStarS: nat,
                           p: nat, s: nat)
  {
    && lastStarP <= p <= |pattern| && lastStarS <= s <= |text|
    && (!hasStar ==> lastStarP == 0 && lastStarS == 0)
    && (hasStar ==> 1 <= lastStarP && MinLen(Parse(pattern, p)) <= |text| - s)
    && Consumes(r, Parse(pattern, lastStarP), text, lastStarS, Parse(pattern, p), s)
    && Match(r, Parse(pattern, 0), text, 0) ==
       Match(r, if hasStar then Then(Star, Parse(pattern, lastStarP)) else Parse(pattern, 0), text, lastStarS)
  }

  lemma BeginAnchored(r: Rules, pattern: seq<Char>, text: seq<Char>)
    ensures Anchored(r, pattern, text, false, 0, 0, 0, 0)
  {
  }

  lemma TooShort(r: Rules, tokens: Tokens, text: seq<Char>, s: nat)
    requires s <= |text| && |text| - s < MinLen(tokens)
    ensures !Match(r, Then(Star, tokens), text, s)
  {
    if Match(r, Then(Star, tokens), text, s) {
      MatchNeedsMinLen(r, Then(Star, tokens), text, s);
    }
  }

  /** The cases in which the code reaches HandleMismatch. */
  lemma NoMatchHere(r: Rules, pattern: seq<Char>, text: seq<Char>, p: nat, s: nat)
    requires p <= |pattern| && s < |text|
    requires
      || |text| - s < MinLen(Parse(pattern, p))
      || p == |pattern|
      || (Parse(pattern, p).Then? && !Parse(pattern, p).head.Star? && !Takes(r, Parse(pattern, p).head, text[s]))
    ensures !Match(r, Parse(pattern, p), text, s)
  {
    if Match(r, Parse(pattern, p), text, s) {
      MatchNeedsMinLen(r, Parse(pattern, p), text, s);
    }
  }

  /** A position the current tokens cannot match: only a later start for the last star remains. */
  lemma Stuck(r: Rules, pattern: seq<Char>, text: seq<Char>, hasStar: bool, lastStarP: nat, lastStarS: nat, p: nat,
              s: nat)
    requires Anchored(r, pattern, text, hasStar, lastStarP, lastStarS, p, s)
    requires s < |text| && !Match(r, Parse(pattern, p), text, s)
    ensures Match(r, Parse(pattern, 0), text, 0) ==
            (hasStar && Crosses(r, text[lastStarS]) &&
             Match(r, Then(Star, Parse(pattern, lastStarP)), text, lastStarS + 1))
  {
    ConsumesMatch(r, Parse(pattern, lastStarP), text, lastStarS, Parse(pattern, p), s);
  }

  /** Reading one non-star token that accepts the character keeps the anchor. */
  lemma Advance(r: Rules, pattern: seq<Char>, text: seq<Char>, hasStar: bool, lastStarP: nat, lastStarS: nat, p: nat,
                s: nat, q: nat)
    requires Anchored(r, pattern, text, hasStar, lastStarP, lastStarS, p, s) && s < |text| && p < q <= |pattern|
    requires Parse(pattern, p).Then? && Parse(pattern, p).rest == Parse(pattern, q)
    requires !Parse(pattern, p).head.Star? && Takes(r, Parse(pattern, p).head, text[s])
    ensures Anchored(r, pattern, text, hasStar, lastStarP, lastStarS, q, s + 1)
    ensures MinLen(Parse(pattern, p)) == 1 + MinLen(Parse(pattern, q))
  {
    ConsumesOneMore(r, Parse(pattern, lastStarP), text, lastStarS, Parse(pattern, p), s);
  }

  /** A new star takes over from the one before it. */
  lemma NewStar(r: Rules, pattern: seq<Char>, text: seq<Char>, hasStar: bool, lastStarP: nat, lastStarS: nat, p: nat,
                s: nat, behind: Tokens)
    requires Sound(r.mode) && Anchored(r, pattern, text, hasStar, lastStarP, lastStarS, p, s)
    requires Parse(pattern, p) == Then(Star, behind)
    ensures Match(r, Parse(pattern, 0), text, 0) == Match(r, Then(Star, behind), text, s)
  {
    if hasStar {
      LeftmostSuffices(r, Parse(pattern, lastStarP), text, lastStarS, behind, s);
    } else {
      ConsumesMatch(r, Parse(pattern, 0), text, 0, Then(Star, behind), s);
    }
  }

  lemma TrailingStar(r: Rules, text: seq<Char>, s: nat)
    requires s <= |text|
    ensures Match(r, Then(Star, End), text, s) <==> Clear(r, text, s, |text|)
    decreases |text| - s
  {
    if s < |text| {
      TrailingStar(r, text, s + 1);
    }
  }

  /** A star at the end of the pattern takes all that is left, unless a separator stops it. */
  method RestIsClear(r: Rules, text: seq<Char>, start: nat) returns (clear: bool, ghost looked: nat)
    requires start <= |text|
    ensures clear == Match(r, Then(Star, End), text, start) && looked <= |text| - start
  {
    TrailingStar(r, text, start);
    looked := 0;
    if r.segment {
      var s := start;
      while s < |text|
        invariant start <= s <= |text| && Clear(r, text, start, s) && looked == s - start
      {
        looked := looked + 1;
        if IsPathSeparator(text[s]) {
          return false, looked;
        }
        s := s + 1;
      }
    }
    return true, looked;
  }

  /** Skips a run of stars; all of it means one star. */
  method SkipStars(r: Rules, pattern: seq<Char>, text: seq<Char>, p: nat) returns (q: nat)
    requires p < |pattern| && pattern[p] == STAR
    ensures p < q <= |pattern| && (q < |pattern| ==> pattern[q] != STAR)
    ensures q == |pattern| ==> Parse(pattern, q) == End
    ensures MinLen(Parse(pattern, q)) == MinLen(Parse(pattern, p))
    ensures forall s :: 0 <= s <= |text| ==>
              Match(r, Parse(pattern, p), text, s) == Match(r, Then(Star, Parse(pattern, q)), text, s)
  {
    q := p + 1;
    while q < |pattern| && pattern[q] == STAR
      invariant p < q <= |pattern|
      invariant MinLen(Parse(pattern, q)) == MinLen(Parse(pattern, p))
      invariant forall s :: 0 <= s <= |text| ==>
                  Match(r, Parse(pattern, p), text, s) == Match(r, Then(Star, Parse(pattern, q)), text, s)
    {
      forall s | 0 <= s <= |text|
        ensures Match(r, Parse(pattern, p), text, s) == Match(r, Then(Star, Parse(pattern, q + 1)), text, s)
      {
        StarStar(r, Parse(pattern, q + 1), text, s);
      }
      q := q + 1;
    }
  }

  method OnlyStars(pattern: seq<Char>, start: nat) returns (only: bool)
    requires start <= |pattern|
    ensures only <==> MinLen(Parse(pattern, start)) == 0
  {
    var p := start;
    while p < |pattern| && pattern[p] == STAR
      invariant start <= p <= |pattern| && MinLen(Parse(pattern, p)) == MinLen(Parse(pattern, start))
    {
      p := p + 1;
    }
    return p == |pattern|;
  }

  /** At the end of the text exactly the patterns of stars alone match, so no retry is needed. */
  lemma Exhausted(r: Rules, pattern: seq<Char>, text: seq<Char>, hasStar: bool, lastStarP: nat, lastStarS: nat, p: nat)
    requires Anchored(r, pattern, text, hasStar, lastStarP, lastStarS, p, |text|)
    ensures Match(r, Parse(pattern, 0), text, 0) <==> MinLen(Parse(pattern, p)) == 0
  {
    ConsumesMatch(r, Parse(pattern, lastStarP), text, lastStarS, Parse(pattern, p), |text|);
    OnlyStarsMatchNothing(r, Parse(pattern, p), text);
  }

  lemma OnlyStarsMatchNothing(r: Rules, tokens: Tokens, text: seq<Char>)
    ensures Match(r, tokens, text, |text|) <==> MinLen(tokens) == 0
  {
  }

  /** The tokens at p read as the code's switch on *p reads them. */
  lemma TokenAt(pattern: seq<Char>, p: nat)
    requires p < |pattern|
    ensures pattern[p] == STAR ==> Parse(pattern, p) == Then(Star, Parse(pattern, p + 1))
    ensures pattern[p] == QUESTION ==> Parse(pattern, p) == Then(Any, Parse(pattern, p + 1))
    ensures pattern[p] == ESCAPE && p + 1 < |pattern| && IsOperator(pattern[p + 1]) ==>
              Parse(pattern, p) == Then(Lit(pattern[p + 1]), Parse(pattern, p + 2))
    ensures pattern[p] != STAR && pattern[p] != QUESTION &&
            !(pattern[p] == ESCAPE && p + 1 < |pattern| && IsOperator(pattern[p + 1])) ==>
              Parse(pattern, p) == Then(Lit(pattern[p]), Parse(pattern, p + 1))
  {
  }

  /** Starts the last star at the next place its rest can begin, from position `from` on. */
  method PlaceStar(r: Rules, pattern: seq<Char>, text: seq<Char>, lastStarP: nat, from: nat, remainingMinLength: nat,
                   starTarget: Char, starTargetMask: bv64, starCanFastForward: bool)
    returns (found: bool, s: nat, ghost looked: nat)
    requires Sound(r.mode) && IsText(r.mode, text) && (!r.mode.wide ==> starTarget < 256)
    requires 1 <= lastStarP <= |pattern| && from + remainingMinLength <= |text|
    requires remainingMinLength == MinLen(Parse(pattern, lastStarP))
    requires starCanFastForward ==> Parse(pattern, lastStarP).Then? && Parse(pattern, lastStarP).head == Lit(starTarget)
    requires starCanFastForward ==> starTargetMask == Broadcast(r.mode, starTarget)
    requires Match(r, Parse(pattern, 0), text, 0) == Match(r, Then(Star, Parse(pattern, lastStarP)), text, from)
    ensures from <= s
    ensures found ==> Anchored(r, pattern, text, true, lastStarP, s, lastStarP, s)
    ensures !found ==> !Match(r, Parse(pattern, 0), text, 0)
    ensures looked <= |text| - from && (found ==> looked <= s - from + 8)
  {
    hide Blocks.Broadcast, Match;
    found, s, looked := true, from, 0;
    if starCanFastForward {
      ScanPreservesMatch(r, Parse(pattern, lastStarP), text, from, |text| - (remainingMinLength - 1));
      found, s, looked := FastForward(r, text, from, remainingMinLength, starTarget, starTargetMask);
      s := if found then s else from;
    }
  }

  function Times(a: nat, b: nat): nat {
    a * b
  }

  lemma TimesDrop(a: nat, b: nat, n: nat)
    requires a < b
    ensures Times(a, n) + n <= Times(b, n)
  {
    assert b * n == (b - a - 1) * n + a * n + n;
  }

  /**
    The non-recursive matcher: it keeps only the most recent star, yet decides exactly Match. `steps` counts
    the turns of its loop, and `looked` every look at a character of the text, by the cursor too.
   */
  method WildCardMatch(r: Rules, pattern: seq<Char>, text: seq<Char>, minLength: nat)
    returns (matched: bool, ghost steps: nat, ghost looked: nat)
    requires Sound(r.mode) && IsText(r.mode, pattern) && IsText(r.mode, text)
    requires minLength == MinLen(Parse(pattern, 0))
    ensures matched == Match(r, Parse(pattern, 0), text, 0)
    ensures steps <= Times(|pattern| + |text| + 1, |pattern| + 1) && looked <= |text| + 10 * steps
  {
    hide Blocks.Broadcast, Match, Consumes, Times, Parse, MinLen, Fold, Sound, Clear;
    var s: nat, p: nat, remainingMinLength: nat := 0, 0, minLength;
    var hasStar, lastStarP: nat, lastStarS: nat, starRemainingMinLength: nat := false, 0, 0, 0;
    var starTarget, starTargetMask, starCanFastForward := 0, 0, false;
    var found;
    steps, looked := 0, 0;
    ghost var seen;
    TimesDrop(|pattern| + |text|, |pattern| + |text| + 1, |pattern| + 1);
    BeginAnchored(r, pattern, text);
    while s < |text|
      invariant Anchored(r, pattern, text, hasStar, lastStarP, lastStarS, p, s)
      invariant remainingMinLength == MinLen(Parse(pattern, p))
      invariant hasStar ==> starRemainingMinLength == MinLen(Parse(pattern, lastStarP))
      invariant starCanFastForward ==>
                  Parse(pattern, lastStarP).Then? && Parse(pattern, lastStarP).head == Lit(starTarget)
      invariant starCanFastForward ==> starTargetMask == Broadcast(r.mode, starTarget)
      invariant !r.mode.wide ==> starTarget < 256
      invariant steps + Times(|pattern| + |text| - lastStarP - lastStarS, |pattern| + 1) + (|pattern| - p) <
                Times(|pattern| + |text| + 1, |pattern| + 1)
      invariant looked <= lastStarS + 10 * steps
      decreases |pattern| - lastStarP, |text| - lastStarS, |pattern| - p
    {
      ghost var left := |pattern| + |text| - lastStarP - lastStarS;
      steps, looked := steps + 1, looked + 2;
      if remainingMinLength <= |text| - s && p < |pattern| {
        TokenAt(pattern, p);
        if pattern[p] == STAR {
          ghost var star := p;
          p := SkipStars(r, pattern, text, p);
          NewStar(r, pattern, text, hasStar, lastStarP, lastStarS, star, s, Parse(pattern, star + 1));
          if p == |pattern| {
            matched, seen := RestIsClear(r, text, s);
            looked := looked + seen;
            return;
          }
          hasStar, lastStarP, starRemainingMinLength := true, p, remainingMinLength;
          starTarget, starTargetMask, starCanFastForward := 0, 0, false;
          if pattern[p] != QUESTION {
            TokenAt(pattern, p);
            starTarget := if pattern[p] == ESCAPE && p + 1 < |pattern| && IsOperator(pattern[p + 1])
                          then pattern[p + 1] else pattern[p];
            starTargetMask := Broadcast(r.mode, starTarget);
            starCanFastForward := true;
          }
          found, s, seen := PlaceStar(r, pattern, text, p, s, remainingMinLength, starTarget, starTargetMask,
                                      starCanFastForward);
          looked := looked + seen;
          if !found {
            return false, steps, looked;
          }
          lastStarS := s;
          TimesDrop(|pattern| + |text| - lastStarP - lastStarS, left, |pattern| + 1);
          continue;
        } else if pattern[p] == QUESTION {
          if !(r.segment && IsPathSeparator(text[s])) {
            Advance(r, pattern, text, hasStar, lastStarP, lastStarS, p, s, p + 1);
            p, s, remainingMinLength := p + 1, s + 1, remainingMinLength - 1;
            continue;
          }
        } else if pattern[p] == ESCAPE && p + 1 < |pattern| && IsOperator(pattern[p + 1]) {
          if pattern[p + 1] == Fold(r.mode, text[s]) {
            Advance(r, pattern, text, hasStar, lastStarP, lastStarS, p, s, p + 2);
            p, s, remainingMinLength := p + 2, s + 1, remainingMinLength - 1;
            continue;
          }
        } else if pattern[p] == Fold(r.mode, text[s]) {
          Advance(r, pattern, text, hasStar, lastStarP, lastStarS, p, s, p + 1);
          p, s, remainingMinLength := p + 1, s + 1, remainingMinLength - 1;
          continue;
        }
      }

      // HandleMismatch
      NoMatchHere(r, pattern, text, p, s);
      Stuck(r, pattern, text, hasStar, lastStarP, lastStarS, p, s);
      if !hasStar || (r.segment && IsPathSeparator(text[lastStarS])) {
        return false, steps, looked;
      }
      p, s, remainingMinLength := lastStarP, lastStarS + 1, starRemainingMinLength;
      if |text| - s < remainingMinLength {
        TooShort(r, Parse(pattern, p), text, s);
        return false, steps, looked;
      }
      found, s, seen := PlaceStar(r, pattern, text, p, s, remainingMinLength, starTarget, starTargetMask,
                                  starCanFastForward);
      looked := looked + seen;
      if !found {
        return false, steps, looked;
      }
      lastStarS := s;
      TimesDrop(|pattern| + |text| - lastStarP - lastStarS, left, |pattern| + 1);
    }
    Exhausted(r, pattern, text, hasStar, lastStarP, lastStarS, p);
    matched := OnlyStars(pattern, p);
  }
}
