/** The end-to-end statement about searches: every accepted pattern exactly once, and nothing else. */
module Exactness {
  import opened Characters
  import opened Index
  import opened Meaning
  import opened Registry
  import opened Rejections
  import HashFilter

  /** x is the context of a rule that accepts the text. */
  ghost predicate IsMatch(m: Mode, rules: seq<Rule>, text: seq<Char>, x: nat) {
    exists g :: g in rules && Accepts(m, g.raw, g.segment, text) && g.entry.contextIndex == x
  }

  lemma {:induction false} AcceptedIsMatch(m: Mode, rules: seq<Rule>, text: seq<Char>, x: nat)
    ensures x in Accepted(m, rules, text) <==> IsMatch(m, rules, text, x)
  {
    hide Accepts;
    if rules != [] {
      AcceptedIsMatch(m, rules[..|rules| - 1], text, x);
      assert rules == rules[..|rules| - 1] + [rules[|rules| - 1]];
    }
  }

  lemma {:induction false} AcceptedBelow(m: Mode, rules: seq<Rule>, text: seq<Char>, bound: nat)
    requires forall g :: g in rules ==> g.entry.contextIndex < bound
    ensures forall x :: x in Accepted(m, rules, text) ==> x < bound
  {
    hide Accepts;
    if rules != [] {
      AcceptedBelow(m, rules[..|rules| - 1], text, bound);
    }
  }

  /** Accepted contexts come in increasing order. */
  lemma {:induction false} AcceptedAscends(m: Mode, rules: seq<Rule>, text: seq<Char>)
    requires forall i, j :: 0 <= i < j < |rules| ==> rules[i].entry.contextIndex < rules[j].entry.contextIndex
    ensures Ascending(Accepted(m, rules, text))
  {
    hide Accepts;
    if rules != [] {
      var (g, init) := (rules[|rules| - 1], rules[..|rules| - 1]);
      AcceptedAscends(m, init, text);
      AcceptedBelow(m, init, text, g.entry.contextIndex);
      var a := Accepted(m, init, text);
      assert forall i :: 0 <= i < |a| ==> a[i] in a;
      assert Accepted(m, rules, text) == a || Accepted(m, rules, text) == a + [g.entry.contextIndex];
    }
  }

  lemma CountsTwice<X>(s: seq<X>, i: nat, j: nat)
    requires i < j < |s| && s[i] == s[j]
    ensures multiset(s)[s[i]] >= 2
  {
    assert s == s[..j] + [s[j]] + s[j + 1..];
    assert s[i] in s[..j];
  }

  lemma AscendingOnce(s: seq<nat>, x: nat)
    requires Ascending(s)
    ensures multiset(s)[x] <= 1
    decreases |s|
  {
    if s != [] {
      var last := |s| - 1;
      assert s == s[..last] + [s[last]];
      AscendingOnce(s[..last], x);
      assert forall i :: 0 <= i < last ==> s[..last][i] == s[i] < s[last];
    }
  }

  /**
    The answer to a search holds the context of each registered pattern that accepts the text, exactly
    once, and no other; and every one of them is a stored context.
   */
  lemma AnswerIsExact(m: Mode, rules: seq<Rule>, s: IndexState, text: seq<Char>)
    requires Indexed(m, rules, s)
    ensures var answer := Answer(m, rules, text);
            && (forall x :: x in answer <==> IsMatch(m, rules, text, x))
            && (forall i, j :: 0 <= i < j < |answer| ==> answer[i] != answer[j])
            && (forall x :: x in answer ==> x < s.contexts)
  {
    hide Accepts, Stored, PrefixHash, PrefixLength, IsSlow, HashFilter.Test, BucketRules, SlowRules, Entries, BucketOf,
         Ascending, Answer, Accepted;
    var answer := Answer(m, rules, text);
    assert forall g :: g in rules ==> Covers(m, s, g);
    AnswerIsAccepted(m, rules, text);
    AcceptedAscends(m, rules, text);
    forall x
      ensures x in answer <==> IsMatch(m, rules, text, x)
    {
      AcceptedIsMatch(m, rules, text, x);
      assert x in multiset(answer) <==> x in multiset(Accepted(m, rules, text));
    }
    forall i, j | 0 <= i < j < |answer|
      ensures answer[i] != answer[j]
    {
      if answer[i] == answer[j] {
        CountsTwice(answer, i, j);
        AscendingOnce(Accepted(m, rules, text), answer[i]);
      }
    }
  }
}
