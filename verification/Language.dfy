/**
  What the pattern language is, in characters: laws of Accepts that mention no token, no parser, no operator class
  and no folding function. The five laws on how a pattern begins determine Accepts completely.
 */
module Language {
  import opened Characters
  import opened Globs
  import Literals
  import opened Meaning
  import opened Registration

  // ---------------------------------------------------------------------------------------------
  // Which characters are the same
  // ---------------------------------------------------------------------------------------------

  predicate IsLowerAscii(c: Char) {
    0x61 <= c <= 0x7A
  }

  /** c is an ASCII character whose capital is u. */
  predicate HasCapital(c: Char, u: Char) {
    c <= 127 && u == if IsLowerAscii(c) then c - 0x20 else c
  }

  /**
    The case law. Case-sensitive: equality. Otherwise two ASCII characters are the same when they are equal or the two
    cases of one letter; above 127 a CHAR is the same as itself only, and WCHARs are the same when they have the
    same capital, be it an ASCII character.
   */
  predicate SameLetter(m: Mode, c: Char, d: Char) {
    if !m.insensitive then c == d
    else if c <= 127 && d <= 127 then
      c == d || (IsLowerAscii(c) && d == c - 0x20) || (IsLowerAscii(d) && c == d - 0x20)
    else if !m.wide then c == d
    else if c > 127 && d > 127 then m.upcase(c) == m.upcase(d)
    else if c <= 127 then HasCapital(c, m.upcase(d))
    else HasCapital(d, m.upcase(c))
  }

  lemma SameLetterIsFold(m: Mode, c: Char, d: Char)
    ensures SameLetter(m, c, d) <==> Fold(m, c) == Fold(m, d)
  {
  }

  /** Two strings that differ at most in case. */
  ghost predicate SameLetters(m: Mode, s: seq<Char>, t: seq<Char>) {
    |s| == |t| && forall i :: 0 <= i < |s| ==> SameLetter(m, s[i], t[i])
  }

  lemma SameLettersIsFold(m: Mode, s: seq<Char>, t: seq<Char>)
    ensures SameLetters(m, s, t) <==> FoldAll(m, s) == FoldAll(m, t)
  {
    hide SameLetter, Fold;
    forall i | 0 <= i < |s| && i < |t|
      ensures SameLetter(m, s[i], t[i]) <==> Fold(m, s[i]) == Fold(m, t[i])
    {
      SameLetterIsFold(m, s[i], t[i]);
    }
    if FoldAll(m, s) == FoldAll(m, t) {
      assert |s| == |FoldAll(m, s)| == |FoldAll(m, t)| == |t|;
      forall i | 0 <= i < |s|
        ensures SameLetter(m, s[i], t[i])
      {
        assert FoldAll(m, s)[i] == FoldAll(m, t)[i];
      }
    }
  }

  /** A stored literal agrees with the text exactly where the text differs from the original in case at most. */
  lemma AgreesIsSame(m: Mode, original: seq<Char>, text: seq<Char>, s: nat)
    requires s + |original| <= |text|
    ensures Literals.Agrees(m, FoldAll(m, original), text, s) <==> SameLetters(m, original, text[s..s + |original|])
  {
    hide SameLetter, Fold;
    var t := text[s..s + |original|];
    SameLettersIsFold(m, original, t);
    if Literals.Agrees(m, FoldAll(m, original), text, s) {
      assert forall i :: 0 <= i < |t| ==> FoldAll(m, original)[i] == Fold(m, text[s + i]);
      assert FoldAll(m, original) == FoldAll(m, t);
    }
    if FoldAll(m, original) == FoldAll(m, t) {
      forall i | 0 <= i < |original|
        ensures FoldAll(m, original)[i] == Fold(m, text[s + i])
      {
        assert FoldAll(m, t)[i] == Fold(m, t[i]);
      }
    }
  }

  // ---------------------------------------------------------------------------------------------
  // How a pattern begins
  // ---------------------------------------------------------------------------------------------

  /** One of the three characters that an escape takes. */
  predicate Escapable(c: Char) {
    c == 0x2A || c == 0x3F || c == 0x7C
  }

  /** The pattern begins with a character that stands for itself: also an escape that escapes nothing. */
  predicate BeginsPlain(raw: seq<Char>) {
    raw != [] && raw[0] != 0x2A && raw[0] != 0x3F && !(raw[0] == 0x7C && |raw| > 1 && Escapable(raw[1]))
  }

  lemma NothingLaw(m: Mode, segment: bool, text: seq<Char>)
    ensures Accepts(m, [], segment, text) <==> text == []
  {
  }

  /** The tokens behind the first are those of the rest of the pattern. */
  lemma Behind(m: Mode, raw: seq<Char>, n: nat, segment: bool, text: seq<Char>, k: nat)
    requires n <= |raw| && k <= |text|
    ensures Match(Rules(m, segment), FoldTokens(m, Parse(raw, n)), text, k) == Accepts(m, raw[n..], segment, text[k..])
  {
    ParseSuffix(raw, n, n);
    MatchFrom(Rules(m, segment), FoldTokens(m, Parse(raw, n)), text, k, k);
  }

  /** `?` takes any one character, in segment scope any but the separator. */
  lemma QuestionLaw(m: Mode, raw: seq<Char>, segment: bool, text: seq<Char>)
    requires raw != [] && raw[0] == 0x3F
    ensures Accepts(m, raw, segment, text) <==>
            text != [] && (segment ==> text[0] != 0x5C) && Accepts(m, raw[1..], segment, text[1..])
  {
    if text != [] {
      Behind(m, raw, 1, segment, text, 1);
    }
  }

  /** An escape takes the operator behind it as a letter. */
  lemma EscapeLaw(m: Mode, raw: seq<Char>, segment: bool, text: seq<Char>)
    requires |raw| > 1 && raw[0] == 0x7C && Escapable(raw[1])
    ensures Accepts(m, raw, segment, text) <==>
            text != [] && SameLetter(m, raw[1], text[0]) && Accepts(m, raw[2..], segment, text[1..])
  {
    if text != [] {
      SameLetterIsFold(m, raw[1], text[0]);
      Behind(m, raw, 2, segment, text, 1);
    }
  }

  /** Every other character is a letter. */
  lemma PlainLaw(m: Mode, raw: seq<Char>, segment: bool, text: seq<Char>)
    requires BeginsPlain(raw)
    ensures Accepts(m, raw, segment, text) <==>
            text != [] && SameLetter(m, raw[0], text[0]) && Accepts(m, raw[1..], segment, text[1..])
  {
    if text != [] {
      SameLetterIsFold(m, raw[0], text[0]);
      Behind(m, raw, 1, segment, text, 1);
    }
  }

  /** `*` takes any run of characters, in segment scope any run without a separator. */
  lemma StarLaw(m: Mode, raw: seq<Char>, segment: bool, text: seq<Char>)
    requires raw != [] && raw[0] == 0x2A
    ensures Accepts(m, raw, segment, text) <==>
            exists k :: 0 <= k <= |text| && (segment ==> 0x5C !in text[..k]) && Accepts(m, raw[1..], segment, text[k..])
  {
    hide Match;
    var r := Rules(m, segment);
    var rest := FoldTokens(m, Parse(raw, 1));
    assert FoldTokens(m, Parse(raw, 0)) == Then(Star, rest);
    if Accepts(m, raw, segment, text) {
      var k := StarGap(r, rest, text, 0);
      Behind(m, raw, 1, segment, text, k);
      assert forall x :: 0 <= x < k ==> Crosses(r, text[x]);
    }
    if k: nat :| k <= |text| && (segment ==> 0x5C !in text[..k]) && Accepts(m, raw[1..], segment, text[k..]) {
      Behind(m, raw, 1, segment, text, k);
      assert forall x :: 0 <= x < k ==> text[x] == text[..k][x];
      StarHere(r, rest, text, k);
      StarSkips(r, rest, text, 0, k);
    }
  }

  lemma StarHere(r: Rules, rest: Tokens, text: seq<Char>, k: nat)
    requires k <= |text| && Match(r, rest, text, k)
    ensures Match(r, Then(Star, rest), text, k)
  {
  }

  /** The language, character by character: the five laws read as a definition. */
  ghost predicate Denotes(m: Mode, raw: seq<Char>, segment: bool, text: seq<Char>)
    decreases |raw|
  {
    if raw == [] then
      text == []
    else if raw[0] == 0x2A then
      exists k :: 0 <= k <= |text| && (segment ==> 0x5C !in text[..k]) && Denotes(m, raw[1..], segment, text[k..])
    else if raw[0] == 0x3F then
      text != [] && (segment ==> text[0] != 0x5C) && Denotes(m, raw[1..], segment, text[1..])
    else if raw[0] == 0x7C && |raw| > 1 && Escapable(raw[1]) then
      text != [] && SameLetter(m, raw[1], text[0]) && Denotes(m, raw[2..], segment, text[1..])
    else
      text != [] && SameLetter(m, raw[0], text[0]) && Denotes(m, raw[1..], segment, text[1..])
  }

  /** The reference matcher on tokens is the language on characters. */
  lemma {:induction false} AcceptsIsDenotes(m: Mode, raw: seq<Char>, segment: bool, text: seq<Char>)
    ensures Accepts(m, raw, segment, text) <==> Denotes(m, raw, segment, text)
    decreases |raw|
  {
    hide Accepts, SameLetter;
    if raw == [] {
      NothingLaw(m, segment, text);
    } else if raw[0] == 0x2A {
      StarLaw(m, raw, segment, text);
      forall k | 0 <= k <= |text|
        ensures Accepts(m, raw[1..], segment, text[k..]) <==> Denotes(m, raw[1..], segment, text[k..])
      {
        AcceptsIsDenotes(m, raw[1..], segment, text[k..]);
      }
    } else if raw[0] == 0x3F {
      QuestionLaw(m, raw, segment, text);
      if text != [] {
        AcceptsIsDenotes(m, raw[1..], segment, text[1..]);
      }
    } else if raw[0] == 0x7C && |raw| > 1 && Escapable(raw[1]) {
      EscapeLaw(m, raw, segment, text);
      if text != [] {
        AcceptsIsDenotes(m, raw[2..], segment, text[1..]);
      }
    } else {
      PlainLaw(m, raw, segment, text);
      if text != [] {
        AcceptsIsDenotes(m, raw[1..], segment, text[1..]);
      }
    }
  }

  // ---------------------------------------------------------------------------------------------
  // Literals and escapes
  // ---------------------------------------------------------------------------------------------

  /** No `*` or `?`, and no escape in front of an operator. */
  ghost predicate IsPlain(raw: seq<Char>) {
    && (forall i :: 0 <= i < |raw| ==> raw[i] != 0x2A && raw[i] != 0x3F)
    && (forall i :: 0 <= i < |raw| - 1 && raw[i] == 0x7C ==> !Escapable(raw[i + 1]))
  }

  /** A plain pattern accepts exactly the texts that differ from it in case at most. */
  lemma {:induction false} PlainPattern(m: Mode, raw: seq<Char>, segment: bool, text: seq<Char>)
    requires IsPlain(raw)
    ensures Accepts(m, raw, segment, text) <==> SameLetters(m, raw, text)
    decreases |raw|
  {
    hide Accepts, SameLetter, Escapable;
    if raw == [] {
      NothingLaw(m, segment, text);
    } else {
      PlainLaw(m, raw, segment, text);
      if text != [] {
        PlainPattern(m, raw[1..], segment, text[1..]);
        OneLetterMore(m, raw, text);
      }
    }
  }

  lemma OneLetterMore(m: Mode, s: seq<Char>, t: seq<Char>)
    requires s != [] && t != []
    ensures SameLetters(m, s, t) <==> SameLetter(m, s[0], t[0]) && SameLetters(m, s[1..], t[1..])
  {
    hide SameLetter;
    if SameLetter(m, s[0], t[0]) && SameLetters(m, s[1..], t[1..]) {
      forall i | 0 <= i < |s|
        ensures SameLetter(m, s[i], t[i])
      {
        assert i > 0 ==> s[i] == s[1..][i - 1] && t[i] == t[1..][i - 1];
      }
    }
  }

  /** The pattern that quotes a string: an escape in front of each operator. */
  function Quoted(s: seq<Char>): seq<Char> {
    if s == [] then []
    else if Escapable(s[0]) then [0x7C, s[0]] + Quoted(s[1..])
    else [s[0]] + Quoted(s[1..])
  }

  /** A quoted string is matched by that string only, up to case, whatever follows. */
  lemma {:induction false} QuotedPattern(m: Mode, s: seq<Char>, rest: seq<Char>, segment: bool, text: seq<Char>)
    ensures Accepts(m, Quoted(s) + rest, segment, text) <==>
            |s| <= |text| && SameLetters(m, s, text[..|s|]) && Accepts(m, rest, segment, text[|s|..])
    decreases |s|
  {
    hide Accepts, SameLetter;
    if s == [] {
      assert Quoted(s) + rest == rest && text[0..] == text;
    } else {
      var raw := Quoted(s) + rest;
      var n := if Escapable(s[0]) then 2 else 1;
      assert raw[n..] == Quoted(s[1..]) + rest;
      if n == 2 {
        EscapeLaw(m, raw, segment, text);
      } else {
        PlainLaw(m, raw, segment, text);
      }
      if text != [] {
        QuotedPattern(m, s[1..], rest, segment, text[1..]);
        if |s| <= |text| {
          OneLetterMore(m, s, text[..|s|]);
          assert text[1..][..|s| - 1] == text[..|s|][1..] && text[1..][|s| - 1..] == text[|s|..];
        }
      }
    }
  }

  /** Quoting any string gives a pattern for exactly that string. */
  lemma QuotedAlone(m: Mode, s: seq<Char>, segment: bool, text: seq<Char>)
    ensures Accepts(m, Quoted(s), segment, text) <==> SameLetters(m, s, text)
  {
    hide Accepts, SameLetter;
    assert Quoted(s) + [] == Quoted(s);
    QuotedPattern(m, s, [], segment, text);
    if |s| <= |text| {
      NothingLaw(m, segment, text[|s|..]);
      assert |s| == |text| ==> text[..|s|] == text;
    }
  }

  // ---------------------------------------------------------------------------------------------
  // Case
  // ---------------------------------------------------------------------------------------------

  /** Texts that differ in case at most are accepted alike, by every pattern. */
  lemma SameTexts(m: Mode, raw: seq<Char>, segment: bool, s: seq<Char>, t: seq<Char>)
    requires Sound(m) && SameLetters(m, s, t)
    ensures Accepts(m, raw, segment, s) == Accepts(m, raw, segment, t)
  {
    SameLettersIsFold(m, s, t);
    FoldedAlike(Rules(m, segment), FoldTokens(m, Parse(raw, 0)), s, t, 0);
  }

  lemma {:induction false} FoldedAlike(r: Rules, tokens: Tokens, s: seq<Char>, t: seq<Char>, i: nat)
    requires Sound(r.mode) && FoldAll(r.mode, s) == FoldAll(r.mode, t) && |s| == |t| && i <= |s|
    ensures Match(r, tokens, s, i) == Match(r, tokens, t, i)
    decreases |s| - i, tokens
  {
    hide Fold, Sound;
    if i < |s| {
      assert FoldAll(r.mode, s)[i] == FoldAll(r.mode, t)[i];
      FoldKeepsAlphabet(r.mode, s[i]);
      FoldKeepsAlphabet(r.mode, t[i]);
    }
    match tokens
    case End =>
    case Then(Star, rest) =>
      FoldedAlike(r, rest, s, t, i);
      if i < |s| {
        FoldedAlike(r, tokens, s, t, i + 1);
      }
    case Then(_, rest) =>
      if i < |s| {
        FoldedAlike(r, rest, s, t, i + 1);
      }
  }

  /** Patterns that differ in case at most accept the same texts. */
  lemma SamePatterns(m: Mode, raw: seq<Char>, other: seq<Char>, segment: bool, text: seq<Char>)
    requires Sound(m) && SameLetters(m, raw, other)
    ensures Accepts(m, raw, segment, text) == Accepts(m, other, segment, text)
  {
    SameLettersIsFold(m, raw, other);
    ParseFolded(m, raw, 0);
    ParseFolded(m, other, 0);
  }

  /** With a table that capitalises U+0131 to I, the two are the same although only one is above 127. */
  lemma AcrossAscii(m: Mode)
    requires m.insensitive && m.wide && m.upcase(0x131) == 0x49
    ensures SameLetter(m, 0x131, 0x69) && Accepts(m, [0x69], false, [0x131])
  {
    PlainLaw(m, [0x69], false, [0x131]);
    NothingLaw(m, false, []);
    assert [0x69 as Char][1..] == [] && [0x131 as Char][1..] == [];
  }

  // ---------------------------------------------------------------------------------------------
  // Scope
  // ---------------------------------------------------------------------------------------------

  /** `*` alone accepts every text, in segment scope every text without a separator. */
  lemma StarAlone(m: Mode, segment: bool, text: seq<Char>)
    ensures Accepts(m, [0x2A], segment, text) <==> (segment ==> 0x5C !in text)
  {
    hide Accepts;
    StarLaw(m, [0x2A], segment, text);
    assert [0x2A as Char][1..] == [];
    forall k | 0 <= k <= |text|
      ensures Accepts(m, [], segment, text[k..]) <==> k == |text|
    {
      NothingLaw(m, segment, text[k..]);
    }
    assert text[..|text|] == text;
  }

  /** `?` alone accepts the texts of one character, in segment scope but for the separator. */
  lemma QuestionAlone(m: Mode, segment: bool, text: seq<Char>)
    ensures Accepts(m, [0x3F], segment, text) <==> |text| == 1 && (segment ==> text[0] != 0x5C)
  {
    hide Accepts;
    QuestionLaw(m, [0x3F], segment, text);
    assert [0x3F as Char][1..] == [];
    if text != [] {
      NothingLaw(m, segment, text[1..]);
    }
  }
}
