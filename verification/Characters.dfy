/** Characters, case folding and the operator alphabet of the pattern language. */
module Characters {

  /** A CHAR or a WCHAR. A narrow character occupies the low eight bits. */
  type Char = bv16

  const STAR: Char := 0x2A
  const QUESTION: Char := 0x3F
  const ESCAPE: Char := 0x7C
  const SEPARATOR: Char := 0x5C

  /**
    The template parameter TChar and the constructor flag of an engine: `wide` selects WCHAR,
    `upcase` stands for RtlUpcaseUnicodeChar, which only characters above 127 ever reach, and `mix` is the
    mixing step of the prefix hash, of which nothing is assumed.
   */
  datatype Mode = Mode(wide: bool, insensitive: bool, upcase: Char -> Char, mix: bv64 -> bv64)

  predicate IsOperator(c: Char) {
    c == STAR || c == QUESTION || c == ESCAPE
  }

  predicate IsPathSeparator(c: Char) {
    c == SEPARATOR
  }

  function ToUpperAscii(c: Char): Char {
    if 0x61 <= c <= 0x7A then c - 0x20 else c
  }

  function ToUpperFast(m: Mode, c: Char): Char {
    if !m.wide || c <= 127 then ToUpperAscii(c) else m.upcase(c)
  }

  function Fold(m: Mode, c: Char): Char {
    if m.insensitive then ToUpperFast(m, c) else c
  }

  function FoldAll(m: Mode, s: seq<Char>): (r: seq<Char>)
    ensures |r| == |s|
    ensures forall i :: 0 <= i < |s| ==> r[i] == Fold(m, s[i])
  {
    seq(|s|, i requires 0 <= i < |s| => Fold(m, s[i]))
  }

  /** What the engine relies on in the foreign upcase table: it never produces an operator or a separator. */
  ghost predicate Sound(m: Mode) {
    forall c: Char :: c > 127 ==> !IsOperator(m.upcase(c)) && !IsPathSeparator(m.upcase(c))
  }

  /** The values a TChar buffer can hold: narrow characters are below 256. */
  ghost predicate IsText(m: Mode, s: seq<Char>) {
    !m.wide ==> forall i :: 0 <= i < |s| ==> s[i] < 256
  }

  /** Folding neither creates nor destroys operators and separators, so parsing commutes with it. */
  lemma FoldKeepsAlphabet(m: Mode, c: Char)
    requires Sound(m)
    ensures Fold(m, c) == STAR <==> c == STAR
    ensures Fold(m, c) == QUESTION <==> c == QUESTION
    ensures Fold(m, c) == ESCAPE <==> c == ESCAPE
    ensures Fold(m, c) == SEPARATOR <==> c == SEPARATOR
  {
    if m.insensitive && m.wide && c > 127 {
      assert !IsOperator(m.upcase(c)) && !IsPathSeparator(m.upcase(c));
    }
  }
}
