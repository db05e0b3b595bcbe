/** In which order a search reports the matching patterns, and hence which one a first-match search gives. */
module Ordering {
  import opened Characters
  import opened Exactness
  import opened Index
  import opened Language
  import opened Meaning
  import opened Registration
  import opened Registry

  /** The number of letters before the first `*` or `?`, an escape pair being one letter. */
  function LeadingLetters(raw: seq<Char>): nat {
    if raw == [] || raw[0] == 0x2A || raw[0] == 0x3F then 0
    else if raw[0] == 0x7C && |raw| > 1 && Escapable(raw[1]) then 1 + LeadingLetters(raw[2..])
    else 1 + LeadingLetters(raw[1..])
  }

  predicate BeginsWild(raw: seq<Char>) {
    raw != [] && (raw[0] == 0x2A || raw[0] == 0x3F)
  }

  /** The order of the answer: patterns that begin with a wildcard last, then fewer leading letters, then older. */
  predicate Before(g: Rule, q: Rule) {
    if BeginsWild(g.raw) != BeginsWild(q.raw) then BeginsWild(q.raw)
    else if LeadingLetters(g.raw) != LeadingLetters(q.raw) then LeadingLetters(g.raw) < LeadingLetters(q.raw)
    else g.entry.contextIndex < q.entry.contextIndex
  }

  /** g is a rule and x its context. */
  ghost predicate Names(rules: seq<Rule>, x: nat, older g: Rule) {
    g in rules && g.entry.contextIndex == x
  }

  /** Of two contexts listed, the rule of the one listed first comes first. */
  ghost predicate InOrder(rules: seq<Rule>, contexts: seq<nat>) {
    forall i, j, g, q :: 0 <= i < j < |contexts| && Names(rules, contexts[i], g) && Names(rules, contexts[j], q) ==>
                           Before(g, q)
  }

  /** x is the context of the accepting rule that comes before all others. */
  ghost predicate IsFirst(m: Mode, rules: seq<Rule>, text: seq<Char>, x: nat) {
    exists g :: && Names(rules, x, g) && Accepts(m, g.raw, g.segment, text)
                && forall q :: q in rules && q != g && Accepts(m, q.raw, q.segment, text) ==> Before(g, q)
  }

  ghost predicate Aged(rules: seq<Rule>) {
    forall i, j :: 0 <= i < j < |rules| ==> rules[i].entry.contextIndex < rules[j].entry.contextIndex
  }

  lemma {:induction false} LettersFrom(raw: seq<Char>, p: nat)
    requires p <= |raw|
    ensures |Registration.Literals(raw, p)| == LeadingLetters(raw[p..])
    decreases |raw| - p
  {
    if p < |raw| && !IsWildcard(raw[p]) {
      LettersFrom(raw, if IsEscapePair(raw, p) then p + 2 else p + 1);
    }
  }

  /** The key a pattern is indexed under is the number of its leading letters. */
  lemma KeyIsLetters(g: Rule)
    ensures PrefixLength(g.raw) == LeadingLetters(g.raw) && IsSlow(g.raw) == BeginsWild(g.raw)
  {
    LettersFrom(g.raw, 0);
    assert g.raw[0..] == g.raw;
  }

  lemma AgedPrefix(rules: seq<Rule>)
    requires Aged(rules) && rules != []
    ensures Aged(rules[..|rules| - 1])
    ensures forall g :: g in rules[..|rules| - 1] ==> g.entry.contextIndex < rules[|rules| - 1].entry.contextIndex
    ensures forall g :: g in rules ==> g in rules[..|rules| - 1] || g == rules[|rules| - 1]
  {
    forall g | g in rules[..|rules| - 1]
      ensures g.entry.contextIndex < rules[|rules| - 1].entry.contextIndex
    {
      var i :| 0 <= i < |rules| - 1 && rules[i] == g;
    }
  }

  function FastHit(m: Mode, text: seq<Char>, n: nat): Rule -> bool {
    (g: Rule) => IsFastHit(m, g, text, n)
  }

  function SlowHit(m: Mode, text: seq<Char>): Rule -> bool {
    (g: Rule) => IsSlow(g.raw) && Accepts(m, g.raw, g.segment, text)
  }

  /** The contexts ascend, and each belongs to a rule with the property. */
  ghost predicate Lists(rules: seq<Rule>, contexts: seq<nat>, hit: Rule -> bool) {
    && Ascending(contexts)
    && (forall x :: x in contexts ==> exists g :: Names(rules, x, g))
    && (forall x, g :: x in contexts && Names(rules, x, g) ==> hit(g))
  }

  lemma ListsOneMore(rules: seq<Rule>, contexts: seq<nat>, hit: Rule -> bool)
    requires Aged(rules) && rules != [] && Lists(rules[..|rules| - 1], contexts, hit)
    ensures Lists(rules, contexts + One(hit(rules[|rules| - 1]), rules[|rules| - 1]), hit)
  {
    AgedPrefix(rules);
    var (init, g) := (rules[..|rules| - 1], rules[|rules| - 1]);
    var all := contexts + One(hit(g), g);
    assert forall x :: x in contexts ==> x < g.entry.contextIndex;
    assert forall i :: 0 <= i < |contexts| ==> contexts[i] in contexts;
    assert forall q :: q in init ==> q in rules;
    assert g in rules;
    assert forall x, q :: Names(init, x, q) ==> Names(rules, x, q);
    assert Names(rules, g.entry.contextIndex, g);
    forall x, q | x in all && Names(rules, x, q)
      ensures hit(q)
    {
      if x in contexts {
        assert Names(init, x, q);
      }
    }
  }

  lemma {:induction false} FastListed(m: Mode, rules: seq<Rule>, text: seq<Char>, n: nat)
    requires Aged(rules)
    ensures Lists(rules, FastHits(m, rules, text, n), FastHit(m, text, n))
  {
    hide IsFastHit, One;
    if rules != [] {
      AgedPrefix(rules);
      FastListed(m, rules[..|rules| - 1], text, n);
      ListsOneMore(rules, FastHits(m, rules[..|rules| - 1], text, n), FastHit(m, text, n));
      FastHitsLast(m, rules, text, n);
    }
  }

  lemma {:induction false} SlowListed(m: Mode, rules: seq<Rule>, text: seq<Char>)
    requires Aged(rules)
    ensures Lists(rules, SlowHits(m, rules, text), SlowHit(m, text))
  {
    hide IsSlow, Accepts, One;
    if rules != [] {
      AgedPrefix(rules);
      SlowListed(m, rules[..|rules| - 1], text);
      ListsOneMore(rules, SlowHits(m, rules[..|rules| - 1], text),
                   SlowHit(m, text));
      SlowHitsLast(m, rules, text);
    }
  }

  /** Two ordered lists, the rules of the first all before those of the second. */
  lemma Join(rules: seq<Rule>, a: seq<nat>, b: seq<nat>)
    requires InOrder(rules, a) && InOrder(rules, b)
    requires forall x, y, g, q :: x in a && y in b && Names(rules, x, g) && Names(rules, y, q) ==> Before(g, q)
    ensures InOrder(rules, a + b)
  {
    hide Before;
    forall i, j, g, q | 0 <= i < j < |a + b| && Names(rules, (a + b)[i], g) && Names(rules, (a + b)[j], q)
      ensures Before(g, q)
    {
      if j < |a| {
        assert (a + b)[i] == a[i] && (a + b)[j] == a[j];
      } else if i >= |a| {
        assert (a + b)[i] == b[i - |a|] && (a + b)[j] == b[j - |a|];
      } else {
        assert (a + b)[i] in a && (a + b)[j] in b;
      }
    }
  }

  /** A list of rules that agree on the other keys is ordered by age. */
  lemma AgeOrders(rules: seq<Rule>, contexts: seq<nat>, hit: Rule -> bool)
    requires Lists(rules, contexts, hit)
    requires forall g, q :: hit(g) && hit(q) && g.entry.contextIndex < q.entry.contextIndex ==> Before(g, q)
    ensures InOrder(rules, contexts)
  {
    hide Before;
    forall i, j, g, q | 0 <= i < j < |contexts| && Names(rules, contexts[i], g) && Names(rules, contexts[j], q)
      ensures Before(g, q)
    {
      assert contexts[i] in contexts && contexts[j] in contexts;
    }
  }

  lemma {:induction false} FastOrdered(m: Mode, rules: seq<Rule>, text: seq<Char>, n: nat)
    requires Aged(rules)
    ensures InOrder(rules, FastUpTo(m, rules, text, n))
    ensures forall x, g :: x in FastUpTo(m, rules, text, n) && Names(rules, x, g) ==>
                             !BeginsWild(g.raw) && LeadingLetters(g.raw) < n
  {
    hide Accepts, BeginsWild, LeadingLetters, PrefixLength, IsSlow, FastHits;
    if n > 0 {
      FastOrdered(m, rules, text, n - 1);
      FastListed(m, rules, text, n - 1);
      forall g: Rule
        ensures IsFastHit(m, g, text, n - 1) ==> !BeginsWild(g.raw) && LeadingLetters(g.raw) == n - 1
      {
        KeyIsLetters(g);
      }
      AgeOrders(rules, FastHits(m, rules, text, n - 1), FastHit(m, text, n - 1));
      Join(rules, FastUpTo(m, rules, text, n - 1), FastHits(m, rules, text, n - 1));
    }
  }

  /** The answer is in order. */
  lemma AnswerInOrder(m: Mode, rules: seq<Rule>, text: seq<Char>)
    requires Aged(rules)
    ensures InOrder(rules, Answer(m, rules, text))
  {
    hide Accepts, BeginsWild, LeadingLetters, PrefixLength, IsSlow, SlowHits, FastUpTo;
    FastOrdered(m, rules, text, |text| + 1);
    SlowListed(m, rules, text);
    forall g: Rule
      ensures IsSlow(g.raw) ==> BeginsWild(g.raw) && LeadingLetters(g.raw) == 0
    {
      KeyIsLetters(g);
      WildHasNoLetters(g.raw);
    }
    AgeOrders(rules, SlowHits(m, rules, text), SlowHit(m, text));
    Join(rules, FastUpTo(m, rules, text, |text| + 1), SlowHits(m, rules, text));
  }

  lemma WildHasNoLetters(raw: seq<Char>)
    ensures BeginsWild(raw) ==> LeadingLetters(raw) == 0
  {
  }

  /** The head of the answer belongs to the accepting rule that comes before all others. */
  lemma HeadIsFirst(m: Mode, rules: seq<Rule>, s: IndexState, text: seq<Char>)
    requires Indexed(m, rules, s) && Answer(m, rules, text) != []
    ensures IsFirst(m, rules, text, Answer(m, rules, text)[0])
  {
    hide Answer, Accepts, Before, Indexed, Aged;
    var answer := Answer(m, rules, text);
    IndexedIsAged(m, rules, s);
    AnswerInOrder(m, rules, text);
    AnswerIsExact(m, rules, s, text);
    assert answer[0] in answer;
    assert IsMatch(m, rules, text, answer[0]);
    var g :| g in rules && Accepts(m, g.raw, g.segment, text) && g.entry.contextIndex == answer[0];
    forall q | q in rules && q != g && Accepts(m, q.raw, q.segment, text)
      ensures Before(g, q)
    {
      assert IsMatch(m, rules, text, q.entry.contextIndex);
      var j :| 0 <= j < |answer| && answer[j] == q.entry.contextIndex;
      OneContext(rules, g, q);
      assert Names(rules, answer[0], g) && Names(rules, answer[j], q);
    }
    assert Names(rules, answer[0], g);
  }

  lemma OneContext(rules: seq<Rule>, g: Rule, q: Rule)
    requires Aged(rules) && g in rules && q in rules && g != q
    ensures g.entry.contextIndex != q.entry.contextIndex
  {
    var i :| 0 <= i < |rules| && rules[i] == g;
    var j :| 0 <= j < |rules| && rules[j] == q;
  }

  lemma IndexedIsAged(m: Mode, rules: seq<Rule>, s: IndexState)
    requires Indexed(m, rules, s)
    ensures Aged(rules)
  {
    hide Covers, BucketOf, BucketRules, Entries, SlowRules, Ascending;
  }

  /** What was collected before the vector was full is in order too. */
  lemma CollectedInOrder(m: Mode, rules: seq<Rule>, s: IndexState, text: seq<Char>, n: nat)
    requires Indexed(m, rules, s) && n <= |Answer(m, rules, text)|
    ensures InOrder(rules, Answer(m, rules, text)[..n])
  {
    hide Before, Indexed, Aged, Answer;
    IndexedIsAged(m, rules, s);
    AnswerInOrder(m, rules, text);
  }
}
