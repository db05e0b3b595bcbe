/** The registered patterns as a value, the answer a search must give, and how the index relates to both. */
module Registry {
  import opened Arenas
  import Blocks
  import opened Characters
  import opened Globs
  import opened Hashing
  import Literals
  import opened Meaning
  import opened Registration

  /** A string in the arena: where it starts and how long it is. */
  datatype PatternString = PatternString(slab: Slab?, offset: nat, length: nat)

  datatype PatternEntry = PatternEntry(literalPrefix: PatternString, wildcardSuffix: PatternString,
                                       tailAnchor: PatternString, id: nat, contextIndex: nat,
                                       minWildcardMatchLength: nat, segment: bool, firstLiteral: Char)

  /** One successful registration: the pattern as given, its compiled parts, the entry and the blocks of its strings. */
  datatype Rule = Rule(raw: seq<Char>, segment: bool, parts: Parts, entry: PatternEntry, stable: Block, tail: Block)

  ghost predicate Stored(m: Mode, g: Rule) {
    && IsText(m, g.raw) && Compiles(m, g.raw, g.parts) && g.entry.segment == g.segment
    && g.entry.literalPrefix.length == |g.parts.prefix| && g.entry.wildcardSuffix.length == |g.parts.suffix|
    && g.entry.tailAnchor.length == |g.parts.tail| && g.entry.minWildcardMatchLength == g.parts.minLength
    && (g.entry.firstLiteral != 0 ==> HasLiteral(Parse(g.parts.suffix, 0), g.entry.firstLiteral))
  }

  /** The memory a pattern string points to holds the text. */
  ghost predicate Points(s: PatternString, text: seq<Char>)
    reads if s.slab == null then {} else {s.slab.Buffer}
  {
    && s.length == |text|
    && (text != [] ==> s.slab != null && s.offset + s.length <= s.slab.Buffer.Length &&
                       s.slab.Buffer[s.offset..s.offset + s.length] == text)
  }

  /** The string as the search reads it. */
  function Read(s: PatternString, ghost text: seq<Char>): (r: seq<Char>)
    requires Points(s, text)
    reads if s.slab == null then {} else {s.slab.Buffer}
    ensures r == text
  {
    if s.length == 0 then [] else s.slab.Buffer[s.offset..s.offset + s.length]
  }

  ghost function Buffers(e: PatternEntry): set<array<Char>> {
    set s | s in [e.literalPrefix, e.wildcardSuffix, e.tailAnchor] && s.slab != null :: s.slab.Buffer
  }

  /** The pointers of a rule's entry lead to its parts. */
  ghost predicate Legible(g: Rule)
    reads Buffers(g.entry)
  {
    && Points(g.entry.literalPrefix, g.parts.prefix) && Points(g.entry.wildcardSuffix, g.parts.suffix)
    && Points(g.entry.tailAnchor, g.parts.tail)
  }

  /** Patterns that begin with a wildcard go to the slow path. */
  predicate IsSlow(raw: seq<Char>) {
    raw != [] && IsWildcard(raw[0])
  }

  function PrefixLength(raw: seq<Char>): nat {
    |Registration.Literals(raw, 0)|
  }

  // ---------------------------------------------------------------------------------------------
  // The answer
  // ---------------------------------------------------------------------------------------------

  /** Contexts of the accepted patterns with a literal prefix of the given length, in registration order. */
  function FastHits(m: Mode, rules: seq<Rule>, text: seq<Char>, length: nat): seq<nat> {
    if rules == [] then [] else
      var g := rules[|rules| - 1];
      FastHits(m, rules[..|rules| - 1], text, length) +
      One(IsFastHit(m, g, text, length), g)
  }

  function SlowHits(m: Mode, rules: seq<Rule>, text: seq<Char>): seq<nat> {
    if rules == [] then [] else
      var g := rules[|rules| - 1];
      SlowHits(m, rules[..|rules| - 1], text) +
      One(IsSlow(g.raw) && Accepts(m, g.raw, g.segment, text), g)
  }

  function FastUpTo(m: Mode, rules: seq<Rule>, text: seq<Char>, n: nat): seq<nat> {
    if n == 0 then [] else FastUpTo(m, rules, text, n - 1) + FastHits(m, rules, text, n - 1)
  }

  /** Every accepted pattern's context: by ascending prefix length, then the slow path, each in registration order. */
  function Answer(m: Mode, rules: seq<Rule>, text: seq<Char>): seq<nat> {
    FastUpTo(m, rules, text, |text| + 1) + SlowHits(m, rules, text)
  }

  /** The contexts of all accepted patterns, in registration order. */
  function Accepted(m: Mode, rules: seq<Rule>, text: seq<Char>): seq<nat> {
    if rules == [] then [] else
      var g := rules[|rules| - 1];
      Accepted(m, rules[..|rules| - 1], text) + One(Accepts(m, g.raw, g.segment, text), g)
  }

  lemma {:induction false} PrefixFits(m: Mode, g: Rule, text: seq<Char>)
    requires Stored(m, g) && Accepts(m, g.raw, g.segment, text)
    ensures PrefixLength(g.raw) <= |text|
  {
    AcceptedIsLong(m, g.raw, g.segment, g.parts, text);
  }

  predicate IsFastHit(m: Mode, g: Rule, text: seq<Char>, length: nat) {
    !IsSlow(g.raw) && PrefixLength(g.raw) == length && Accepts(m, g.raw, g.segment, text)
  }

  function One(hit: bool, g: Rule): seq<nat> {
    if hit then [g.entry.contextIndex] else []
  }

  predicate IsFastBelow(m: Mode, g: Rule, text: seq<Char>, n: nat) {
    !IsSlow(g.raw) && PrefixLength(g.raw) < n && Accepts(m, g.raw, g.segment, text)
  }

  lemma {:induction false} FastUpToStep(m: Mode, rules: seq<Rule>, text: seq<Char>, n: nat)
    requires rules != []
    ensures multiset(FastUpTo(m, rules, text, n)) ==
            multiset(FastUpTo(m, rules[..|rules| - 1], text, n)) +
            multiset(One(IsFastBelow(m, rules[|rules| - 1], text, n), rules[|rules| - 1]))
  {
    hide One, IsFastBelow, IsFastHit, FastHits;
    var (g, init) := (rules[|rules| - 1], rules[..|rules| - 1]);
    BelowNothing(m, g, text);
    if n > 0 {
      FastUpToStep(m, rules, text, n - 1);
      BelowStep(m, g, text, n);
      FastHitsLast(m, rules, text, n - 1);
      JoinHits(FastUpTo(m, rules, text, n - 1), FastUpTo(m, init, text, n - 1), FastHits(m, init, text, n - 1),
               One(IsFastHit(m, g, text, n - 1), g), One(IsFastBelow(m, g, text, n - 1), g));
    }
  }

  lemma FastHitsLast(m: Mode, rules: seq<Rule>, text: seq<Char>, length: nat)
    requires rules != []
    ensures var g := rules[|rules| - 1];
            FastHits(m, rules, text, length) ==
            FastHits(m, rules[..|rules| - 1], text, length) + One(IsFastHit(m, g, text, length), g)
  {
    hide One, IsFastHit;
  }

  lemma BelowNothing(m: Mode, g: Rule, text: seq<Char>)
    ensures One(IsFastBelow(m, g, text, 0), g) == []
  {
  }

  lemma BelowStep(m: Mode, g: Rule, text: seq<Char>, n: nat)
    requires n > 0
    ensures One(IsFastBelow(m, g, text, n), g) ==
            One(IsFastBelow(m, g, text, n - 1), g) + One(IsFastHit(m, g, text, n - 1), g)
  {
    hide IsSlow, PrefixLength, Accepts;
  }

  lemma JoinHits(a: seq<nat>, c: seq<nat>, d: seq<nat>, e: seq<nat>, x: seq<nat>)
    requires multiset(a) == multiset(c) + multiset(x)
    ensures multiset(a + (d + e)) == multiset(c + d) + multiset(x + e)
  {
    assert multiset(a + (d + e)) == multiset(a) + (multiset(d) + multiset(e));
    assert multiset(c + d) == multiset(c) + multiset(d);
    assert multiset(x + e) == multiset(x) + multiset(e);
  }

  /** The answer holds the context of every accepted pattern exactly as often as it was registered, and no other. */
  lemma {:induction false} AnswerIsAccepted(m: Mode, rules: seq<Rule>, text: seq<Char>)
    requires forall g :: g in rules ==> Stored(m, g)
    ensures multiset(Answer(m, rules, text)) == multiset(Accepted(m, rules, text))
  {
    hide Accepts, IsSlow, PrefixLength, Stored;
    if rules == [] {
      FastUpToNothing(m, text, |text| + 1);
    } else {
      var g := rules[|rules| - 1];
      AnswerIsAccepted(m, rules[..|rules| - 1], text);
      FastUpToStep(m, rules, text, |text| + 1);
      if Accepts(m, g.raw, g.segment, text) {
        PrefixFits(m, g, text);
      }
    }
  }

  lemma FastUpToNothing(m: Mode, text: seq<Char>, n: nat)
    ensures FastUpTo(m, [], text, n) == []
  {
  }

  // ---------------------------------------------------------------------------------------------
  // The index
  // ---------------------------------------------------------------------------------------------

  /** A 64-bit prefix hash as a key of the hash map. */
  datatype HashKey = HashKey(bits: bv64)

  function PrefixHash(m: Mode, g: Rule): bv64 {
    HashOf(m, g.parts.prefix, |g.parts.prefix|)
  }

  predicate InBucket(m: Mode, g: Rule, h: bv64) {
    !IsSlow(g.raw) && PrefixHash(m, g) == h
  }

  /** The rules of the bucket for a hash, and those of the slow path, in registration order. */
  function BucketRules(m: Mode, rules: seq<Rule>, h: bv64): seq<Rule> {
    if rules == [] then [] else
      var g := rules[|rules| - 1];
      BucketRules(m, rules[..|rules| - 1], h) + (if InBucket(m, g, h) then [g] else [])
  }

  function SlowRules(rules: seq<Rule>): seq<Rule> {
    if rules == [] then [] else
      var g := rules[|rules| - 1];
      SlowRules(rules[..|rules| - 1]) + (if IsSlow(g.raw) then [g] else [])
  }

  function Entries(rules: seq<Rule>): (r: seq<PatternEntry>)
    ensures |r| == |rules| && forall i :: 0 <= i < |r| ==> r[i] == rules[i].entry
  {
    seq(|rules|, i requires 0 <= i < |rules| => rules[i].entry)
  }

  lemma {:induction false} FewRules(m: Mode, rules: seq<Rule>, h: bv64)
    ensures |BucketRules(m, rules, h)| <= |rules| && |SlowRules(rules)| <= |rules|
  {
    hide InBucket, IsSlow;
    if rules != [] {
      FewRules(m, rules[..|rules| - 1], h);
    }
  }

  lemma {:induction false} BucketFrom(m: Mode, rules: seq<Rule>, h: bv64)
    ensures forall g :: g in BucketRules(m, rules, h) ==> g in rules && InBucket(m, g, h)
  {
    hide InBucket;
    if rules != [] {
      BucketFrom(m, rules[..|rules| - 1], h);
    }
  }

  lemma {:induction false} SlowFrom(rules: seq<Rule>)
    ensures forall g :: g in SlowRules(rules) ==> g in rules && IsSlow(g.raw)
  {
    hide IsSlow;
    if rules != [] {
      SlowFrom(rules[..|rules| - 1]);
    }
  }

  /** An accepted rule's prefix has the hash of the text's folded prefix of that length. */
  lemma HitInBucket(m: Mode, g: Rule, text: seq<Char>, length: nat)
    requires Stored(m, g) && IsFastHit(m, g, text, length) && length <= |text|
    ensures InBucket(m, g, HashOf(m, FoldAll(m, text), length))
  {
    hide HashOf, IsSlow;
    var prefix := g.parts.prefix;
    CompiledMeaning(m, g.raw, g.segment, g.parts, text);
    assert prefix == FoldAll(m, text)[..length] by {
      assert forall i :: 0 <= i < |prefix| ==> prefix[i] == Fold(m, text[0 + i]);
    }
    assert prefix[..length] == FoldAll(m, text)[..length];
    SamePrefixSameHash(m, prefix, FoldAll(m, text), length);
  }

  /** Probing one bucket per length misses nothing. */
  lemma {:induction false} BucketHits(m: Mode, rules: seq<Rule>, text: seq<Char>, length: nat)
    requires length <= |text| && forall g :: g in rules ==> Stored(m, g)
    ensures FastHits(m, rules, text, length) ==
            FastHits(m, BucketRules(m, rules, HashOf(m, FoldAll(m, text), length)), text, length)
  {
    hide Stored, IsFastHit, InBucket, HashOf, One;
    if rules != [] {
      var (g, init, h) := (rules[|rules| - 1], rules[..|rules| - 1], HashOf(m, FoldAll(m, text), length));
      BucketHits(m, init, text, length);
      FastHitsLast(m, rules, text, length);
      OneOrNone(IsFastHit(m, g, text, length), g);
      if IsFastHit(m, g, text, length) {
        HitInBucket(m, g, text, length);
      }
      if InBucket(m, g, h) {
        var b := BucketRules(m, rules, h);
        assert b == BucketRules(m, init, h) + [g] && b[..|b| - 1] == BucketRules(m, init, h);
        FastHitsLast(m, b, text, length);
      } else {
        assert BucketRules(m, rules, h) == BucketRules(m, init, h);
        assert FastHits(m, init, text, length) + [] == FastHits(m, init, text, length);
      }
    }
  }

  lemma OneOrNone(hit: bool, g: Rule)
    ensures One(hit, g) == if hit then [g.entry.contextIndex] else []
  {
  }

  lemma SlowHitsLast(m: Mode, rules: seq<Rule>, text: seq<Char>)
    requires rules != []
    ensures var g := rules[|rules| - 1];
            SlowHits(m, rules, text) ==
            SlowHits(m, rules[..|rules| - 1], text) + One(IsSlow(g.raw) && Accepts(m, g.raw, g.segment, text), g)
  {
    hide One, IsSlow, Accepts;
  }

  lemma {:induction false} SlowRulesHits(m: Mode, rules: seq<Rule>, text: seq<Char>)
    ensures SlowHits(m, rules, text) == SlowHits(m, SlowRules(rules), text)
  {
    hide Accepts, IsSlow;
    if rules != [] {
      var (g, init) := (rules[|rules| - 1], rules[..|rules| - 1]);
      SlowRulesHits(m, init, text);
      SlowHitsLast(m, rules, text);
      OneOrNone(IsSlow(g.raw) && Accepts(m, g.raw, g.segment, text), g);
      if IsSlow(g.raw) {
        var b := SlowRules(rules);
        assert b == SlowRules(init) + [g] && b[..|b| - 1] == SlowRules(init);
        SlowHitsLast(m, b, text);
      } else {
        assert SlowRules(rules) == SlowRules(init);
        assert SlowHits(m, init, text) + [] == SlowHits(m, init, text);
      }
    }
  }

  lemma {:induction false} FastHitsPrefix(m: Mode, rules: seq<Rule>, text: seq<Char>, length: nat, i: nat)
    requires i <= |rules|
    ensures FastHits(m, rules[..i], text, length) <= FastHits(m, rules, text, length)
    decreases |rules|
  {
    hide IsFastHit, One;
    if i < |rules| {
      FastHitsPrefix(m, rules[..|rules| - 1], text, length, i);
      assert rules[..|rules| - 1][..i] == rules[..i];
    } else {
      assert rules[..i] == rules;
    }
  }

  lemma {:induction false} SlowHitsPrefix(m: Mode, rules: seq<Rule>, text: seq<Char>, i: nat)
    requires i <= |rules|
    ensures SlowHits(m, rules[..i], text) <= SlowHits(m, rules, text)
    decreases |rules|
  {
    hide Accepts, IsSlow, One;
    if i < |rules| {
      SlowHitsPrefix(m, rules[..|rules| - 1], text, i);
      assert rules[..|rules| - 1][..i] == rules[..i];
    } else {
      assert rules[..i] == rules;
    }
  }

  lemma {:induction false} FastUpToPrefix(m: Mode, rules: seq<Rule>, text: seq<Char>, i: nat, n: nat)
    requires i <= n
    ensures FastUpTo(m, rules, text, i) <= FastUpTo(m, rules, text, n)
    decreases n
  {
    hide FastHits;
    if i < n {
      FastUpToPrefix(m, rules, text, i, n - 1);
    }
  }

  /** Lengths without hits add nothing. */
  lemma {:induction false} FastGap(m: Mode, rules: seq<Rule>, text: seq<Char>, lo: nat, hi: nat)
    requires lo <= hi && forall n :: lo <= n < hi ==> FastHits(m, rules, text, n) == []
    ensures FastUpTo(m, rules, text, hi) == FastUpTo(m, rules, text, lo)
    decreases hi
  {
    hide FastHits;
    if hi > lo {
      FastGap(m, rules, text, lo, hi - 1);
    }
  }

  lemma {:induction false} NoHits(m: Mode, rules: seq<Rule>, text: seq<Char>, length: nat)
    requires forall g :: g in rules ==> !IsFastHit(m, g, text, length)
    ensures FastHits(m, rules, text, length) == []
  {
    hide IsFastHit;
    if rules != [] {
      NoHits(m, rules[..|rules| - 1], text, length);
    }
  }

  lemma {:induction false} NoSlowHits(m: Mode, rules: seq<Rule>, text: seq<Char>)
    requires forall g :: g in rules ==> !IsSlow(g.raw) || !Accepts(m, g.raw, g.segment, text)
    ensures SlowHits(m, rules, text) == []
  {
    hide Accepts, IsSlow;
    if rules != [] {
      NoSlowHits(m, rules[..|rules| - 1], text);
    }
  }

  // ---------------------------------------------------------------------------------------------
  // Collecting
  // ---------------------------------------------------------------------------------------------

  /** What receives the matches: the first one only, or all of them until the vector cannot grow. */
  datatype Collector = FirstOnly | All(room: nat)

  /** What a collector holds, and whether it has asked to stop, after being offered these contexts. */
  function Collect(c: Collector, offered: seq<nat>): (seq<nat>, bool) {
    match c
    case FirstOnly => if offered == [] then ([], false) else ([offered[0]], true)
    case All(room) => if |offered| <= room then (offered, false) else (offered[..room], true)
  }

  method Offer(c: Collector, out: seq<nat>, context: nat, ghost offered: seq<nat>)
    returns (result: seq<nat>, stop: bool)
    requires Collect(c, offered) == (out, false)
    ensures (result, stop) == Collect(c, offered + [context])
  {
    match c {
      case FirstOnly =>
        return [context], true;
      case All(room) =>
        if |out| < room {
          return out + [context], false;
        } else {
          return out, true;
        }
    }
  }

  /** A collector that has stopped is not affected by what would have come later. */
  lemma CollectStopped(c: Collector, offered: seq<nat>, later: seq<nat>)
    requires offered <= later && Collect(c, offered).1
    ensures Collect(c, later) == Collect(c, offered)
  {
    if c.All? {
      assert offered[..c.room] == later[..c.room];
    }
  }
}
