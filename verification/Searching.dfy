/** The loops of a search: the binary search on lengths, the walk of one bucket, the slow path. */
module Searching {
  import opened Candidates
  import opened Characters
  import opened Index
  import opened Meaning
  import opened Registry
  import opened Rejections

  /** The first index whose length is not below the wanted one. */
  method LowerBound(lengths: seq<nat>, wanted: nat) returns (first: nat)
    requires Ascending(lengths)
    ensures first <= |lengths|
    ensures forall j :: 0 <= j < first ==> lengths[j] < wanted
    ensures forall j :: first <= j < |lengths| ==> lengths[j] >= wanted
  {
    var count: nat := |lengths|;
    first := 0;
    while count > 0
      invariant first + count <= |lengths|
      invariant forall j :: 0 <= j < first ==> lengths[j] < wanted
      invariant forall j :: first + count <= j < |lengths| ==> lengths[j] >= wanted
    {
      var step := count / 2;
      var mid := first + step;
      if lengths[mid] < wanted {
        first, count := mid + 1, count - (step + 1);
      } else {
        count := step;
      }
    }
  }

  /** Offers one bucket entry if it has the prefix length being probed and matches. */
  method TryFast(m: Mode, text: seq<Char>, e: PatternEntry, length: nat, c: Collector, out: seq<nat>, ghost g: Rule,
                 ghost offered: seq<nat>)
    returns (result: seq<nat>, stop: bool)
    requires Sound(m) && IsText(m, text) && length <= |text| && Collect(c, offered) == (out, false)
    requires Stored(m, g) && !IsSlow(g.raw) && Legible(g) && g.entry == e
    ensures (result, stop) == Collect(c, offered + One(IsFastHit(m, g, text, length), g))
  {
    hide Accepts, IsSlow, Collect, Stored, Legible;
    PrefixKept(m, g);
    assert offered + [] == offered;
    if e.literalPrefix.length == length {
      var matched := MatchFast(m, e, text, g);
      if matched {
        result, stop := Offer(c, out, e.contextIndex, offered);
        return;
      }
    }
    return out, false;
  }

  /** Offers the matches of one bucket at one prefix length. */
  method WalkBucket(m: Mode, text: seq<Char>, bucket: seq<PatternEntry>, length: nat, c: Collector, out: seq<nat>,
                    ghost b: seq<Rule>, ghost offered: seq<nat>)
    returns (result: seq<nat>, stop: bool)
    requires Sound(m) && IsText(m, text) && length <= |text| && bucket == Entries(b)
    requires Collect(c, offered) == (out, false)
    requires forall g :: g in b ==> Stored(m, g) && Legible(g) && !IsSlow(g.raw)
    ensures (result, stop) == Collect(c, offered + FastHits(m, b, text, length))
  {
    hide Accepts, IsSlow, IsFastHit, Collect, One, Stored, FastHits;
    result := out;
    NoHits(m, b[..0], text, length);
    assert offered + [] == offered;
    for i := 0 to |bucket|
      invariant forall g :: g in b ==> Legible(g)
      invariant Collect(c, offered + FastHits(m, b[..i], text, length)) == (result, false)
    {
      ghost var g, so, before := b[i], b[..i + 1], offered + FastHits(m, b[..i], text, length);
      assert so[..|so| - 1] == b[..i] && so[|so| - 1] == g;
      FastHitsLast(m, so, text, length);
      assert before + One(IsFastHit(m, g, text, length), g) == offered + FastHits(m, so, text, length);
      result, stop := TryFast(m, text, bucket[i], length, c, result, g, before);
      if stop {
        FastHitsPrefix(m, b, text, length, i + 1);
        StoppedByPrefix(c, offered, FastHits(m, so, text, length), FastHits(m, b, text, length), result);
        return;
      }
    }
    assert b[..|bucket|] == b;
    stop := false;
  }

  lemma PrefixKept(m: Mode, g: Rule)
    requires Stored(m, g)
    ensures PrefixLength(g.raw) == g.entry.literalPrefix.length
  {
  }

  lemma StoppedByPrefix(c: Collector, offered: seq<nat>, x: seq<nat>, y: seq<nat>, result: seq<nat>)
    requires Collect(c, offered + x) == (result, true) && x <= y
    ensures Collect(c, offered + y) == (result, true)
  {
    assert offered + x <= offered + y;
    CollectStopped(c, offered + x, offered + y);
  }

  /** Offers the matches of the slow path. */
  method WalkSlow(m: Mode, text: seq<Char>, slow: seq<PatternEntry>, c: Collector, out: seq<nat>,
                  ghost b: seq<Rule>, ghost offered: seq<nat>)
    returns (result: seq<nat>, stop: bool)
    requires Sound(m) && IsText(m, text) && slow == Entries(b) && Collect(c, offered) == (out, false)
    requires forall g :: g in b ==> Stored(m, g) && Legible(g) && IsSlow(g.raw)
    ensures (result, stop) == Collect(c, offered + SlowHits(m, b, text))
  {
    hide Accepts, IsSlow, Collect, One, Stored, SlowHits;
    result := out;
    NoSlowHits(m, b[..0], text);
    assert offered + [] == offered;
    for i := 0 to |slow|
      invariant forall g :: g in b ==> Legible(g)
      invariant Collect(c, offered + SlowHits(m, b[..i], text)) == (result, false)
    {
      ghost var g, so := b[i], b[..i + 1];
      assert so[..|so| - 1] == b[..i] && so[|so| - 1] == g;
      SlowHitsLast(m, so, text);
      OneOrNone(IsSlow(g.raw) && Accepts(m, g.raw, g.segment, text), g);
      var matched := MatchSlow(m, slow[i], text, g);
      if matched {
        ghost var before := offered + SlowHits(m, b[..i], text);
        assert before + [g.entry.contextIndex] == offered + SlowHits(m, so, text);
        result, stop := Offer(c, result, slow[i].contextIndex, before);
        if stop {
          SlowHitsPrefix(m, b, text, i + 1);
          StoppedByPrefix(c, offered, SlowHits(m, so, text), SlowHits(m, b, text), result);
          return;
        }
      } else {
        assert SlowHits(m, so, text) == SlowHits(m, b[..i], text);
      }
    }
    assert b[..|slow|] == b;
    stop := false;
  }

  /** Every length below n has been answered, and none from n on lies before position it. */
  ghost predicate Walked(s: IndexState, text: seq<Char>, it: nat, n: nat) {
    && it <= |s.lengths| && n <= |text| + 1
    && (forall j :: 0 <= j < it ==> s.lengths[j] < n || (!s.wild && s.lengths[j] != |text|))
    && (forall j :: it <= j < |s.lengths| ==> n <= s.lengths[j])
  }

  /** Between n and the next indexed length there is nothing to find. */
  lemma GapBefore(m: Mode, rules: seq<Rule>, s: IndexState, text: seq<Char>, it: nat, n: nat, hi: nat)
    requires Indexed(m, rules, s) && Walked(s, text, it, n) && n <= hi
    requires it == |s.lengths| || hi <= s.lengths[it]
    ensures FastUpTo(m, rules, text, hi) == FastUpTo(m, rules, text, n)
  {
    hide FastUpTo, FastHits, Covers, BucketOf, Entries, BucketRules, SlowRules;
    forall k | n <= k < hi
      ensures FastHits(m, rules, text, k) == []
    {
      assert forall j :: 0 <= j < |s.lengths| ==> s.lengths[j] != k || (!s.wild && k != |text|);
      NoHitsAt(m, rules, s, text, k);
    }
    FastGap(m, rules, text, n, hi);
  }

  /** The walk moves on past an answered length, or past one that only literal patterns have. */
  lemma WalkOn(s: IndexState, text: seq<Char>, it: nat, n: nat)
    requires Ascending(s.lengths) && Walked(s, text, it, n) && it < |s.lengths|
    ensures s.lengths[it] <= |text| ==> Walked(s, text, it + 1, s.lengths[it] + 1)
    ensures !s.wild && s.lengths[it] != |text| ==> Walked(s, text, it + 1, n)
  {
  }
}
