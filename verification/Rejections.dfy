/** Why each early rejection of a search loses nothing. */
module Rejections {
  import opened Blocks
  import opened Characters
  import HashFilter
  import opened Globs
  import opened Hashing
  import opened Index
  import opened Meaning
  import opened Registration
  import opened Registry

  /** A rule without wildcards accepts only texts of its prefix length. */
  lemma LiteralRule(m: Mode, g: Rule, text: seq<Char>)
    requires Stored(m, g) && g.parts.suffix == []
    ensures !IsSlow(g.raw)
    ensures Accepts(m, g.raw, g.segment, text) ==> PrefixLength(g.raw) == |text|
  {
    hide Match, Parse, Accepts;
    var p := g.parts;
    CompiledMeaning(m, g.raw, g.segment, p, text);
    if Accepts(m, g.raw, g.segment, text) {
      EmptyMatches(Rules(m, g.segment), Middle(p, text));
    }
  }

  lemma EmptyMatches(r: Rules, text: seq<Char>)
    ensures Match(r, Parse([], 0), text, 0) <==> text == []
  {
  }

  /** An accepted rule satisfies every length condition the search tests first. */
  lemma AcceptedRule(m: Mode, s: IndexState, g: Rule, text: seq<Char>)
    requires Covers(m, s, g) && Accepts(m, g.raw, g.segment, text)
    ensures s.globalMin <= |text| && PrefixLength(g.raw) <= |text|
    ensures !s.wild ==> !IsSlow(g.raw) && PrefixLength(g.raw) == |text|
  {
    hide Accepts, IsSlow, Parse, Match, HashFilter.Test, PrefixHash;
    AcceptedIsLong(m, g.raw, g.segment, g.parts, text);
    if !s.wild {
      LiteralRule(m, g, text);
    }
  }

  /** A length no rule was indexed under has no hits, nor has any other length when there are only literals. */
  lemma NoHitsAt(m: Mode, rules: seq<Rule>, s: IndexState, text: seq<Char>, length: nat)
    requires Indexed(m, rules, s) && (length !in s.lengths || (!s.wild && length != |text|))
    ensures FastHits(m, rules, text, length) == []
  {
    hide Accepts, IsSlow, PrefixLength, Stored, PrefixHash, BucketRules, SlowRules, Entries, BucketOf;
    forall g | g in rules
      ensures !IsFastHit(m, g, text, length)
    {
      assert Covers(m, s, g);
      if IsFastHit(m, g, text, length) && !s.wild {
        AcceptedRule(m, s, g, text);
      }
    }
    NoHits(m, rules, text, length);
  }

  /** A hash the filter does not hold has no hits: every indexed prefix hash is in the filter. */
  lemma FilterRejects(m: Mode, rules: seq<Rule>, s: IndexState, text: seq<Char>, length: nat)
    requires Indexed(m, rules, s) && length <= |text|
    requires !HashFilter.Test(s.filter, HashOf(m, FoldAll(m, text), length))
    ensures FastHits(m, rules, text, length) == []
  {
    hide Accepts, PrefixLength, BucketRules, SlowRules, Entries, BucketOf, HashFilter.Test, IsFastHit, PrefixHash,
         Stored, HashOf;
    forall g | g in rules
      ensures !IsFastHit(m, g, text, length)
    {
      assert Covers(m, s, g);
      if IsFastHit(m, g, text, length) {
        HitInBucket(m, g, text, length);
      }
    }
    NoHits(m, rules, text, length);
  }

  lemma NoSlowRule(m: Mode, rules: seq<Rule>, text: seq<Char>)
    requires SlowRules(rules) == []
    ensures SlowHits(m, rules, text) == []
  {
    SlowRulesHits(m, rules, text);
  }

  ghost predicate Rejected(s: IndexState, text: seq<Char>) {
    || s.count == 0 || |text| < s.globalMin
    || (s.slow == [] && (s.lengths == [] || |text| < s.lengths[0]))
    || (!s.wild && |text| !in s.lengths)
  }

  /** Every whole-search rejection is right: the answer is empty. */
  lemma RejectedIsEmpty(m: Mode, rules: seq<Rule>, s: IndexState, text: seq<Char>)
    requires Indexed(m, rules, s) && Rejected(s, text)
    ensures Answer(m, rules, text) == []
  {
    hide Accepts, IsSlow, PrefixLength, Stored, PrefixHash, BucketRules, SlowRules, Entries, BucketOf, FastHits,
        SlowHits;
    forall n | 0 <= n < |text| + 1
      ensures FastHits(m, rules, text, n) == []
    {
      forall g | g in rules
        ensures !IsFastHit(m, g, text, n)
      {
        assert Covers(m, s, g);
        if IsFastHit(m, g, text, n) {
          AcceptedRule(m, s, g, text);
        }
      }
      NoHits(m, rules, text, n);
    }
    FastGap(m, rules, text, 0, |text| + 1);
    if s.slow == [] {
      NoSlowRule(m, rules, text);
    } else {
      forall g | g in rules
        ensures !IsSlow(g.raw) || !Accepts(m, g.raw, g.segment, text)
      {
        assert Covers(m, s, g);
        if Accepts(m, g.raw, g.segment, text) {
          AcceptedRule(m, s, g, text);
        }
      }
      NoSlowHits(m, rules, text);
    }
  }
}
