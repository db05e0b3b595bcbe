/** The invariant that ties the engine's index to the registered rules, and how each step of a registration keeps it. */
module Index {
  import opened Characters
  import HashFilter
  import opened Meaning
  import opened Registry
  import opened Vectors

  /** The hash map as a mathematical map: the patterns whose prefix has a given hash. */
  type Buckets = map<HashKey, Vec<PatternEntry>>

  /** The fields of the engine that a search reads. */
  datatype IndexState = IndexState(count: nat, globalMin: nat, wild: bool, lengths: seq<nat>, filter: seq<bv64>,
                                   buckets: Buckets, slow: seq<PatternEntry>, contexts: nat)

  ghost predicate Ascending(s: seq<nat>) {
    forall i, j :: 0 <= i < j < |s| ==> s[i] < s[j]
  }

  /** The vector of a bucket. A new one has room for two entries without memory of its own. */
  function VectorOf(buckets: Buckets, h: bv64): Vec<PatternEntry> {
    if HashKey(h) in buckets then buckets[HashKey(h)] else Vec([], 2)
  }

  function BucketOf(buckets: Buckets, h: bv64): seq<PatternEntry> {
    VectorOf(buckets, h).items
  }

  /** What every single rule needs from the index. */
  ghost predicate Covers(m: Mode, s: IndexState, g: Rule) {
    && Stored(m, g) && g.entry.contextIndex < s.contexts
    && s.globalMin <= |g.parts.prefix| + g.parts.minLength
    && (!s.wild ==> g.parts.suffix == [])
    && (!IsSlow(g.raw) ==> PrefixLength(g.raw) in s.lengths && |s.filter| == HashFilter.WORDS &&
                           HashFilter.Test(s.filter, PrefixHash(m, g)))
  }

  ghost predicate Indexed(m: Mode, rules: seq<Rule>, s: IndexState) {
    && s.count == |rules| && |s.filter| == HashFilter.WORDS && Ascending(s.lengths)
    && (forall g :: g in rules ==> Covers(m, s, g))
    && (forall h :: BucketOf(s.buckets, h) == Entries(BucketRules(m, rules, h)))
    && s.slow == Entries(SlowRules(rules))
    && (forall i, j :: 0 <= i < j < |rules| ==> rules[i].entry.contextIndex < rules[j].entry.contextIndex)
  }

  /** A new or cleared engine. */
  function EmptyIndex(contexts: nat): IndexState {
    IndexState(0, 0xFFFF_FFFF, false, [], seq(HashFilter.WORDS, i => 0), map[], [], contexts)
  }

  lemma EmptyIsIndexed(m: Mode, s: IndexState)
    requires s.count == 0 && |s.filter| == HashFilter.WORDS && s.lengths == [] && s.buckets == map[] && s.slow == []
    ensures Indexed(m, [], s)
  {
  }

  /** A committed context, a stale length or an empty bucket left by a failed registration is harmless. */
  lemma LeftoversKeep(m: Mode, rules: seq<Rule>, s: IndexState, t: IndexState)
    requires Indexed(m, rules, s) && Ascending(t.lengths) && s.contexts <= t.contexts
    requires forall n :: n in s.lengths ==> n in t.lengths
    requires forall h :: BucketOf(t.buckets, h) == BucketOf(s.buckets, h)
    requires t == s.(lengths := t.lengths, buckets := t.buckets, contexts := t.contexts)
    ensures Indexed(m, rules, t)
  {
    hide Stored, PrefixHash, PrefixLength, BucketRules, SlowRules, Entries, BucketOf, Ascending, IsSlow,
         HashFilter.Test;
    forall g | g in rules
      ensures Covers(m, t, g)
    {
      assert Covers(m, s, g);
    }
  }

  function Lower(a: nat, b: nat): nat {
    if b < a then b else a
  }

  function WithSlow(s: IndexState, g: Rule): IndexState {
    s.(count := s.count + 1, wild := true, slow := s.slow + [g.entry],
       globalMin := Lower(s.globalMin, |g.parts.prefix| + g.parts.minLength))
  }

  function WithFast(m: Mode, s: IndexState, g: Rule): IndexState
    requires |s.filter| == HashFilter.WORDS
  {
    var h := PrefixHash(m, g);
    s.(count := s.count + 1, wild := s.wild || g.parts.suffix != [],
       globalMin := Lower(s.globalMin, |g.parts.prefix| + g.parts.minLength),
       buckets := s.buckets[HashKey(h) := Pushed(VectorOf(s.buckets, h), g.entry)],
       filter := HashFilter.Add(s.filter, h))
  }

  ghost predicate IsNew(rules: seq<Rule>, s: IndexState, g: Rule) {
    (forall q :: q in rules ==> q.entry.contextIndex < g.entry.contextIndex) && g.entry.contextIndex < s.contexts
  }

  lemma AddSlow(m: Mode, rules: seq<Rule>, s: IndexState, g: Rule)
    requires Indexed(m, rules, s) && Stored(m, g) && IsSlow(g.raw) && IsNew(rules, s, g)
    ensures Indexed(m, rules + [g], WithSlow(s, g))
  {
    hide Stored, PrefixHash, PrefixLength, IsSlow, HashFilter.Test, BucketOf, Ascending;
    var all := rules + [g];
    assert all[..|all| - 1] == rules;
    forall q | q in all
      ensures Covers(m, WithSlow(s, g), q)
    {
      assert q in rules ==> Covers(m, s, q);
    }
    assert SlowRules(all) == SlowRules(rules) + [g];
    forall h
      ensures BucketOf(s.buckets, h) == Entries(BucketRules(m, all, h))
    {
      assert !InBucket(m, g, h);
      assert BucketRules(m, all, h) == BucketRules(m, rules, h);
    }
  }

  lemma CoveredAfterFast(m: Mode, rules: seq<Rule>, s: IndexState, g: Rule, q: Rule)
    requires |s.filter| == HashFilter.WORDS && Stored(m, g) && IsNew(rules, s, g)
    requires PrefixLength(g.raw) in s.lengths && (q == g || Covers(m, s, q))
    ensures Covers(m, WithFast(m, s, g), q)
  {
    hide Stored, PrefixHash, PrefixLength, IsSlow, HashFilter.Test, HashFilter.Add, BucketOf;
    HashFilter.AddExact(s.filter, PrefixHash(m, g), PrefixHash(m, q));
  }

  lemma EntriesAppend(b: seq<Rule>, g: Rule)
    ensures Entries(b + [g]) == Entries(b) + [g.entry]
  {
  }

  lemma SameKey(buckets: Buckets, a: bv64, b: bv64)
    requires a == b
    ensures BucketOf(buckets, a) == BucketOf(buckets, b)
  {
  }

  lemma BucketsAfterFast(m: Mode, rules: seq<Rule>, s: IndexState, g: Rule, h: bv64)
    requires |s.filter| == HashFilter.WORDS && !IsSlow(g.raw)
    requires BucketOf(s.buckets, h) == Entries(BucketRules(m, rules, h))
    ensures BucketOf(WithFast(m, s, g).buckets, h) == Entries(BucketRules(m, rules + [g], h))
  {
    hide PrefixHash, IsSlow, HashFilter.Add, Entries;
    var (all, b, t) := (rules + [g], BucketRules(m, rules, h), WithFast(m, s, g));
    assert all[..|all| - 1] == rules;
    if InBucket(m, g, h) {
      assert BucketRules(m, all, h) == b + [g];
      EntriesAppend(b, g);
      SameKey(t.buckets, PrefixHash(m, g), h);
      SameKey(s.buckets, PrefixHash(m, g), h);
    } else {
      assert BucketRules(m, all, h) == b;
      OtherKey(s.buckets, PrefixHash(m, g), h, Pushed(VectorOf(s.buckets, PrefixHash(m, g)), g.entry));
    }
  }

  lemma OtherKey(buckets: Buckets, a: bv64, b: bv64, v: Vec<PatternEntry>)
    requires a != b
    ensures BucketOf(buckets[HashKey(a) := v], b) == BucketOf(buckets, b)
  {
  }

  lemma SlowAfterFast(rules: seq<Rule>, g: Rule)
    requires !IsSlow(g.raw)
    ensures SlowRules(rules + [g]) == SlowRules(rules)
  {
    assert (rules + [g])[..|rules|] == rules;
  }

  lemma AddFast(m: Mode, rules: seq<Rule>, s: IndexState, g: Rule)
    requires Indexed(m, rules, s) && Stored(m, g) && !IsSlow(g.raw) && IsNew(rules, s, g)
    requires PrefixLength(g.raw) in s.lengths
    ensures Indexed(m, rules + [g], WithFast(m, s, g))
  {
    hide Stored, PrefixHash, PrefixLength, IsSlow, HashFilter.Test, HashFilter.Add, Ascending, Covers, BucketRules,
         SlowRules, Entries, BucketOf;
    var (all, t) := (rules + [g], WithFast(m, s, g));
    forall q | q in all
      ensures Covers(m, t, q)
    {
      assert q in rules || q == g;
      CoveredAfterFast(m, rules, s, g, q);
    }
    SlowAfterFast(rules, g);
    forall h
      ensures BucketOf(t.buckets, h) == Entries(BucketRules(m, all, h))
    {
      assert BucketOf(s.buckets, h) == Entries(BucketRules(m, rules, h));
      BucketsAfterFast(m, rules, s, g, h);
    }
  }

  /** Strictly increasing context indices below a bound: there are no more rules than that. */
  lemma {:induction false} ContextsDistinct(rules: seq<Rule>, contexts: nat)
    requires forall g :: g in rules ==> g.entry.contextIndex < contexts
    requires forall i, j :: 0 <= i < j < |rules| ==> rules[i].entry.contextIndex < rules[j].entry.contextIndex
    ensures |rules| <= contexts
    decreases |rules|
  {
    if rules != [] {
      var last := |rules| - 1;
      assert rules[last] in rules;
      forall g | g in rules[..last]
        ensures g.entry.contextIndex < rules[last].entry.contextIndex
      {
        var i :| 0 <= i < last && rules[i] == g;
      }
      ContextsDistinct(rules[..last], rules[last].entry.contextIndex);
    }
  }

  /** Every rule has a context of its own. */
  lemma CountFits(m: Mode, rules: seq<Rule>, s: IndexState)
    requires Indexed(m, rules, s)
    ensures |rules| == s.count <= s.contexts
  {
    hide Stored, PrefixHash, PrefixLength, IsSlow, HashFilter.Test, BucketRules, SlowRules, Entries, BucketOf,
        Ascending;
    assert forall g :: g in rules ==> Covers(m, s, g);
    ContextsDistinct(rules, s.contexts);
  }
}
