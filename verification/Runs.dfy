/** Whole runs of the engine: registrations, failed registrations and resets in any order, then a search. */
module Runs {
  import opened Characters
  import opened Arenas
  import opened Engine
  import opened HashMap
  import opened Index
  import opened Language
  import opened Meaning
  import opened Options
  import opened Registry
  import opened Sizes
  import opened Storage

  /** One call that changes an engine. */
  datatype Command<TContext> =
    | Add(sPattern: Option<seq<Char>>, cchPattern: nat, segment: bool, context: TContext, pool: Pool)
    | Reset

  /** A pattern as a client knows it. */
  datatype Registration<TContext> = Registration(raw: seq<Char>, segment: bool, context: TContext)

  ghost predicate WellFormed<TContext>(m: Mode, c: Command<TContext>) {
    c.Add? && c.sPattern.Some? ==> c.cchPattern <= |c.sPattern.value| && IsText(m, c.sPattern.value)
  }

  function Step<TContext>(m: Mode, before: seq<Registration<TContext>>, c: Command<TContext>, status: Status)
    : seq<Registration<TContext>>
    requires WellFormed(m, c)
  {
    match c
    case Reset => []
    case Add(s, cch, segment, context, _) =>
      if status.Success? then before + [Registration(TextOf(s, cch), segment, context)] else before
  }

  /**
    Why a call returns what it does, with so many patterns registered and so many registrations tried since the last
    reset: a valid registration within the quota fails only if the pool refuses memory.
   */
  predicate Explained<TContext>(m: Mode, registered: nat, tried: nat, c: Command<TContext>, status: Status) {
    match c
    case Reset => status.Success?
    case Add(s, cch, _, _, pool) =>
      && (status.InvalidParameter? <==> IsInvalid(m, s, cch))
      && (!status.InvalidParameter? && registered >= 131072 ==> status.QuotaExceeded?)
      && (status.QuotaExceeded? ==> tried >= 131072)
      && (status.InsufficientResources? ==> !Granted(pool))
      && (status.Success? || status.InvalidParameter? || status.QuotaExceeded? || status.InsufficientResources?)
  }

  /** The registrations tried since the last reset. */
  function Tried<TContext>(start: nat, commands: seq<Command<TContext>>): nat {
    if commands == [] then start
    else if commands[|commands| - 1].Reset? then 0
    else Tried(start, commands[..|commands| - 1]) + 1
  }

  /** What is registered after the commands, given what each of them returned. */
  function History<TContext>(m: Mode, before: seq<Registration<TContext>>, commands: seq<Command<TContext>>,
                             statuses: seq<Status>): seq<Registration<TContext>>
    requires |commands| == |statuses| && forall c :: c in commands ==> WellFormed(m, c)
  {
    if commands == [] then before else
      var last := |commands| - 1;
      Step(m, History(m, before, commands[..last], statuses[..last]), commands[last], statuses[last])
  }

  /** Every status of a run is explained by what was registered and tried before it. */
  ghost predicate Accounted<TContext>(m: Mode, before: seq<Registration<TContext>>, tried: nat,
                                      commands: seq<Command<TContext>>, statuses: seq<Status>)
    requires |commands| == |statuses| && forall c :: c in commands ==> WellFormed(m, c)
  {
    forall i :: 0 <= i < |commands| ==>
                  Explained(m, |History(m, before, commands[..i], statuses[..i])|, Tried(tried, commands[..i]),
                            commands[i], statuses[i])
  }

  /** The payloads of the patterns that denote the text, as often as they are registered. */
  ghost function Matching<TContext>(m: Mode, registered: seq<Registration<TContext>>, text: seq<Char>): seq<TContext> {
    if registered == [] then [] else
      var g := registered[|registered| - 1];
      Matching(m, registered[..|registered| - 1], text) +
      (if Denotes(m, g.raw, g.segment, text) then [g.context] else [])
  }

  // ---------------------------------------------------------------------------------------------
  // From rules to registrations
  // ---------------------------------------------------------------------------------------------

  ghost predicate InRange(rules: seq<Rule>, n: nat) {
    forall g :: g in rules ==> g.entry.contextIndex < n
  }

  function Registrations<TContext>(rules: seq<Rule>, contexts: seq<TContext>): (r: seq<Registration<TContext>>)
    requires InRange(rules, |contexts|)
    ensures |r| == |rules|
  {
    seq(|rules|, i requires 0 <= i < |rules| =>
      Registration(rules[i].raw, rules[i].segment, contexts[rules[i].entry.contextIndex]))
  }

  ghost predicate Inside(indices: seq<nat>, n: nat) {
    forall i :: 0 <= i < |indices| ==> indices[i] < n
  }

  function Payloads<TContext>(indices: seq<nat>, contexts: seq<TContext>): (r: seq<TContext>)
    requires Inside(indices, |contexts|)
    ensures |r| == |indices|
  {
    seq(|indices|, i requires 0 <= i < |indices| => contexts[indices[i]])
  }

  lemma RulesInRange<TContext>(engine: KmStringPatternMatch<TContext>)
    requires engine.Searchable()
    ensures InRange(engine.rules, |engine.m_ContextArena|)
  {
    hide Stored, PrefixHash, PrefixLength, IsSlow, BucketRules, SlowRules, Entries, BucketOf, Ascending, Backed;
    assert forall g :: g in engine.rules ==> Covers(engine.mode, engine.Fields(), g);
  }

  /** Accepted rules carry the payloads of the accepted registrations. */
  lemma {:induction false} AcceptedPayloads<TContext>(m: Mode, rules: seq<Rule>, contexts: seq<TContext>,
                                                      text: seq<Char>)
    requires InRange(rules, |contexts|)
    ensures Inside(Accepted(m, rules, text), |contexts|)
    ensures Payloads(Accepted(m, rules, text), contexts) == Matching(m, Registrations(rules, contexts), text)
  {
    hide Accepts, Denotes;
    if rules != [] {
      var init := rules[..|rules| - 1];
      AcceptedPayloads(m, init, contexts, text);
      AcceptsIsDenotes(m, rules[|rules| - 1].raw, rules[|rules| - 1].segment, text);
      assert Registrations(rules, contexts)[..|rules| - 1] == Registrations(init, contexts);
    }
  }

  lemma PayloadsJoin<TContext>(a: seq<nat>, b: seq<nat>, contexts: seq<TContext>)
    requires Inside(a + b, |contexts|)
    ensures Inside(a, |contexts|) && Inside(b, |contexts|)
    ensures Payloads(a + b, contexts) == Payloads(a, contexts) + Payloads(b, contexts)
  {
    assert forall i :: 0 <= i < |a| ==> a[i] == (a + b)[i];
    assert forall i :: 0 <= i < |b| ==> b[i] == (a + b)[|a| + i];
  }

  lemma SameBagInside(a: seq<nat>, b: seq<nat>, n: nat)
    requires multiset(a) == multiset(b) && Inside(a, n)
    ensures Inside(b, n)
  {
    forall i | 0 <= i < |b|
      ensures b[i] < n
    {
      assert b[i] in multiset(b);
      assert b[i] in a;
    }
  }

  lemma WithoutLast<X>(a: seq<X>, b: seq<X>) returns (i: nat)
    requires multiset(a) == multiset(b) && a != []
    ensures i < |b| && b[i] == a[|a| - 1] && multiset(a[..|a| - 1]) == multiset(b[..i] + b[i + 1..])
  {
    var x := a[|a| - 1];
    var front := a[..|a| - 1];
    assert a == front + [x];
    assert multiset(front) == multiset(a) - multiset{x};
    assert x in multiset(b);
    i :| 0 <= i < |b| && b[i] == x;
    assert b == b[..i] + [x] + b[i + 1..];
    assert multiset(b[..i] + b[i + 1..]) == multiset(b[..i]) + multiset(b[i + 1..]) == multiset(b) - multiset{x};
  }

  lemma BagWithOneMore<X>(front: seq<X>, left: seq<X>, right: seq<X>, x: seq<X>)
    requires multiset(front) == multiset(left + right)
    ensures multiset(front + x) == multiset(left + (x + right))
  {
  }

  lemma InsideParts(left: seq<nat>, x: seq<nat>, right: seq<nat>, n: nat)
    requires Inside(left + (x + right), n)
    ensures Inside(x + right, n) && Inside(left + right, n)
  {
    var all := left + (x + right);
    forall i | 0 <= i < |x + right|
      ensures (x + right)[i] < n
    {
      assert (x + right)[i] == all[|left| + i];
    }
    forall i | 0 <= i < |left + right|
      ensures (left + right)[i] < n
    {
      assert (left + right)[i] == if i < |left| then all[i] else all[i + |x|];
    }
  }

  /** Equal bags of indices give equal bags of payloads. */
  lemma {:induction false} SamePayloads<TContext>(a: seq<nat>, b: seq<nat>, contexts: seq<TContext>)
    requires multiset(a) == multiset(b) && Inside(a, |contexts|)
    ensures Inside(b, |contexts|)
    ensures multiset(Payloads(a, contexts)) == multiset(Payloads(b, contexts))
    decreases |a|
  {
    hide Payloads, Inside;
    SameBagInside(a, b, |contexts|);
    if a == [] {
      assert b == [] by {
        assert |b| == |multiset(b)|;
      }
    } else {
      var i := WithoutLast(a, b);
      var (front, x, left, right) := (a[..|a| - 1], [a[|a| - 1]], b[..i], b[i + 1..]);
      assert a == front + x && b == left + (x + right);
      InsideParts(left, x, right, |contexts|);
      PayloadsJoin(front, x, contexts);
      PayloadsJoin(left, x + right, contexts);
      PayloadsJoin(x, right, contexts);
      PayloadsJoin(left, right, contexts);
      SamePayloads(front, left + right, contexts);
      BagWithOneMore(Payloads(front, contexts), Payloads(left, contexts), Payloads(right, contexts),
                     Payloads(x, contexts));
    }
  }

  /** The answer to a search, as payloads, is a permutation of the payloads of the matching registrations. */
  lemma AnswerPayloads<TContext>(m: Mode, rules: seq<Rule>, s: IndexState, contexts: seq<TContext>, text: seq<Char>)
    requires Indexed(m, rules, s) && s.contexts == |contexts|
    ensures InRange(rules, |contexts|) && Inside(Answer(m, rules, text), |contexts|)
    ensures multiset(Payloads(Answer(m, rules, text), contexts)) ==
            multiset(Matching(m, Registrations(rules, contexts), text))
  {
    hide Accepts, Stored, PrefixHash, PrefixLength, IsSlow, BucketRules, SlowRules, Entries, BucketOf, Ascending,
        Answer, Accepted, Matching, Registrations, Payloads, Inside;
    assert forall g :: g in rules ==> Covers(m, s, g);
    AnswerIsAccepted(m, rules, text);
    AcceptedPayloads(m, rules, contexts, text);
    SamePayloads(Accepted(m, rules, text), Answer(m, rules, text), contexts);
  }

  // ---------------------------------------------------------------------------------------------
  // Runs
  // ---------------------------------------------------------------------------------------------

  /** A call does to the registrations what Step says. */
  lemma StepIsRegisters<TContext>(m: Mode, was: seq<Rule>, now: seq<Rule>, before: seq<TContext>, after: seq<TContext>,
                                  raw: seq<Char>, segment: bool, context: TContext)
    requires InRange(was, |before|) && InRange(now, |after|) && after == before + [context]
    requires Registers(was, now, raw, segment, |before|)
    ensures Registrations(now, after) == Registrations(was, before) + [Registration(raw, segment, context)]
  {
  }

  lemma SameRegistrations<TContext>(rules: seq<Rule>, before: seq<TContext>, after: seq<TContext>)
    requires InRange(rules, |before|) && before <= after
    ensures InRange(rules, |after|) && Registrations(rules, after) == Registrations(rules, before)
  {
  }

  /** One command. */
  method Do<TContext>(engine: KmStringPatternMatch<TContext>, c: Command<TContext>) returns (status: Status)
    requires engine.Valid() && WellFormed(engine.mode, c)
    modifies engine, engine.m_HashFilter, engine.m_HashMap, engine.m_HashMap.ctrl, engine.m_HashMap.slots
    modifies engine.m_StringArena, engine.m_StringArena.Repr
    ensures engine.Valid() && InRange(engine.rules, |engine.m_ContextArena|)
    ensures engine.m_HashMap.ctrl == old(engine.m_HashMap.ctrl) || fresh(engine.m_HashMap.ctrl)
    ensures engine.m_HashMap.slots == old(engine.m_HashMap.slots) || fresh(engine.m_HashMap.slots)
    ensures fresh(engine.m_StringArena.Repr - old(engine.m_StringArena.Repr))
    ensures old(InRange(engine.rules, |engine.m_ContextArena|))
    ensures Registrations(engine.rules, engine.m_ContextArena) ==
            Step(engine.mode, old(Registrations(engine.rules, engine.m_ContextArena)), c, status)
    ensures Explained(engine.mode, |old(engine.rules)|, |old(engine.m_ContextArena)|, c, status)
    ensures |engine.m_ContextArena| <= if c.Reset? then 0 else |old(engine.m_ContextArena)| + 1
  {
    hide KFlatHashMap.Valid, KStringArena.Valid, Indexed, Backed, IsInvalid, KmStringPatternMatch.Outcome;
    RulesInRange(engine);
    match c {
      case Reset =>
        engine.Clear();
        status := Success;
      case Add(sPattern, cchPattern, segment, context, pool) =>
        status := engine.AddPattern(sPattern, cchPattern, segment, context, pool);
        RulesInRange(engine);
        if status.Success? {
          StepIsRegisters(engine.mode, old(engine.rules), engine.rules, old(engine.m_ContextArena),
                          engine.m_ContextArena, TextOf(sPattern, cchPattern), segment, context);
        } else {
          SameRegistrations(engine.rules, old(engine.m_ContextArena), engine.m_ContextArena);
        }
    }
  }

  lemma HistoryStep<TContext>(m: Mode, before: seq<Registration<TContext>>, commands: seq<Command<TContext>>, i: nat,
                              statuses: seq<Status>, status: Status)
    requires i < |commands| && |statuses| == i && forall c :: c in commands ==> WellFormed(m, c)
    ensures History(m, before, commands[..i + 1], statuses + [status]) ==
            Step(m, History(m, before, commands[..i], statuses), commands[i], status)
  {
    assert commands[..i + 1][..i] == commands[..i] && (statuses + [status])[..i] == statuses;
  }

  /** Any number of commands, whatever memory the pool refuses. */
  method Run<TContext>(engine: KmStringPatternMatch<TContext>, commands: seq<Command<TContext>>)
    returns (statuses: seq<Status>)
    requires engine.Valid() && InRange(engine.rules, |engine.m_ContextArena|)
    requires forall c :: c in commands ==> WellFormed(engine.mode, c)
    modifies engine, engine.m_HashFilter, engine.m_HashMap, engine.m_HashMap.ctrl, engine.m_HashMap.slots
    modifies engine.m_StringArena, engine.m_StringArena.Repr
    ensures engine.Valid() && InRange(engine.rules, |engine.m_ContextArena|) && |statuses| == |commands|
    ensures Registrations(engine.rules, engine.m_ContextArena) ==
            History(engine.mode, old(Registrations(engine.rules, engine.m_ContextArena)), commands, statuses)
    ensures Accounted(engine.mode, old(Registrations(engine.rules, engine.m_ContextArena)),
                      |old(engine.m_ContextArena)|, commands, statuses)
  {
    hide Registrations, History, KmStringPatternMatch.Valid, WellFormed, Step, Explained, Accounted;
    ghost var before, tried := Registrations(engine.rules, engine.m_ContextArena), |engine.m_ContextArena|;
    statuses := [];
    NoHistory(engine.mode, before);
    NothingAccounted(engine.mode, before, tried);
    for i := 0 to |commands|
      invariant engine.Valid() && InRange(engine.rules, |engine.m_ContextArena|) && |statuses| == i
      invariant engine.m_HashMap.ctrl == old(engine.m_HashMap.ctrl) || fresh(engine.m_HashMap.ctrl)
      invariant engine.m_HashMap.slots == old(engine.m_HashMap.slots) || fresh(engine.m_HashMap.slots)
      invariant fresh(engine.m_StringArena.Repr - old(engine.m_StringArena.Repr))
      invariant Registrations(engine.rules, engine.m_ContextArena) ==
                History(engine.mode, before, commands[..i], statuses)
      invariant |engine.m_ContextArena| <= Tried(tried, commands[..i])
      invariant Accounted(engine.mode, before, tried, commands[..i], statuses)
    {
      ghost var registered, stored := |engine.rules|, |engine.m_ContextArena|;
      var status := Do(engine, commands[i]);
      HistoryStep(engine.mode, before, commands, i, statuses, status);
      TriedStep(tried, commands, i);
      MoreTried(engine.mode, registered, stored, Tried(tried, commands[..i]), commands[i], status);
      OneMoreAccounted(engine.mode, before, tried, commands, i, statuses, status);
      statuses := statuses + [status];
    }
    assert commands[..|commands|] == commands;
  }

  lemma TriedStep<TContext>(start: nat, commands: seq<Command<TContext>>, i: nat)
    requires i < |commands|
    ensures Tried(start, commands[..i + 1]) == if commands[i].Reset? then 0 else Tried(start, commands[..i]) + 1
  {
    assert commands[..i + 1][..i] == commands[..i];
  }

  /** A registration that is tried may store no context, so there are no more of those. */
  lemma MoreTried<TContext>(m: Mode, registered: nat, stored: nat, tried: nat, c: Command<TContext>, status: Status)
    requires Explained(m, registered, stored, c, status) && stored <= tried
    ensures Explained(m, registered, tried, c, status)
  {
  }

  lemma OneMoreAccounted<TContext>(m: Mode, before: seq<Registration<TContext>>, tried: nat,
                                   commands: seq<Command<TContext>>, i: nat, statuses: seq<Status>, status: Status)
    requires i < |commands| && |statuses| == i && forall c :: c in commands ==> WellFormed(m, c)
    requires Accounted(m, before, tried, commands[..i], statuses)
    requires Explained(m, |History(m, before, commands[..i], statuses)|, Tried(tried, commands[..i]), commands[i],
                       status)
    ensures Accounted(m, before, tried, commands[..i + 1], statuses + [status])
  {
    hide Explained, History, Tried;
    var (longer, all) := (commands[..i + 1], statuses + [status]);
    forall k | 0 <= k <= i
      ensures Explained(m, |History(m, before, longer[..k], all[..k])|, Tried(tried, longer[..k]), longer[k], all[k])
    {
      assert longer[..k] == commands[..i][..k] && all[..k] == statuses[..k];
      assert k == i ==> commands[..i][..k] == commands[..i] && statuses[..k] == statuses;
    }
  }

  lemma NothingAccounted<TContext>(m: Mode, before: seq<Registration<TContext>>, tried: nat)
    ensures Accounted(m, before, tried, [], [])
  {
  }

  lemma NoHistory<TContext>(m: Mode, before: seq<Registration<TContext>>)
    ensures History(m, before, [], []) == before
  {
  }

  /** After any run, collect-all yields the payload of each registered pattern that matches, exactly once. */
  method RunAndSearch<TContext>(engine: KmStringPatternMatch<TContext>, commands: seq<Command<TContext>>,
                                text: seq<Char>, room: nat)
    returns (statuses: seq<Status>, status: Status, contexts: seq<nat>)
    requires engine.Valid() && InRange(engine.rules, |engine.m_ContextArena|) && IsText(engine.mode, text)
    requires forall c :: c in commands ==> WellFormed(engine.mode, c)
    modifies engine, engine.m_HashFilter, engine.m_HashMap, engine.m_HashMap.ctrl, engine.m_HashMap.slots
    modifies engine.m_StringArena, engine.m_StringArena.Repr
    ensures engine.Valid() && Inside(contexts, |engine.m_ContextArena|) && |statuses| == |commands|
    ensures var matching := Matching(engine.mode,
                                     History(engine.mode, old(Registrations(engine.rules, engine.m_ContextArena)),
                                             commands, statuses), text);
            && (status == Success <==> |matching| <= room)
            && (status == Success ==> multiset(Payloads(contexts, engine.m_ContextArena)) == multiset(matching))
    ensures Accounted(engine.mode, old(Registrations(engine.rules, engine.m_ContextArena)),
                      |old(engine.m_ContextArena)|, commands, statuses)
  {
    hide Accounted, Registrations, History, Matching, WellFormed, Answer, Indexed, KFlatHashMap.Valid,
         KStringArena.Valid;
    statuses := Run(engine, commands);
    AnswerPayloads(engine.mode, engine.rules, engine.Fields(), engine.m_ContextArena, text);
    ghost var answer := Payloads(Answer(engine.mode, engine.rules, text), engine.m_ContextArena);
    SameSize(answer, Matching(engine.mode, Registrations(engine.rules, engine.m_ContextArena), text));
    status, contexts := engine.SearchAll(Some(text), |text|, room);
    assert text[..|text|] == text;
  }

  /** After any run, first-match search finds a registered pattern that matches whenever there is one. */
  method RunAndFind<TContext>(engine: KmStringPatternMatch<TContext>, commands: seq<Command<TContext>>,
                              text: seq<Char>)
    returns (statuses: seq<Status>, found: bool, payload: Option<TContext>)
    requires engine.Valid() && InRange(engine.rules, |engine.m_ContextArena|) && IsText(engine.mode, text)
    requires forall c :: c in commands ==> WellFormed(engine.mode, c)
    modifies engine, engine.m_HashFilter, engine.m_HashMap, engine.m_HashMap.ctrl, engine.m_HashMap.slots
    modifies engine.m_StringArena, engine.m_StringArena.Repr
    ensures engine.Valid() && |statuses| == |commands|
    ensures var matching := Matching(engine.mode,
                                     History(engine.mode, old(Registrations(engine.rules, engine.m_ContextArena)),
                                             commands, statuses), text);
            && (found <==> matching != [])
            && (if found then payload.Some? && payload.value in matching else payload == None)
    ensures Accounted(engine.mode, old(Registrations(engine.rules, engine.m_ContextArena)),
                      |old(engine.m_ContextArena)|, commands, statuses)
  {
    hide Accounted, Registrations, History, Matching, WellFormed, Answer, Indexed, KFlatHashMap.Valid,
         KStringArena.Valid;
    statuses := Run(engine, commands);
    AnswerPayloads(engine.mode, engine.rules, engine.Fields(), engine.m_ContextArena, text);
    ghost var matching := Matching(engine.mode, Registrations(engine.rules, engine.m_ContextArena), text);
    ghost var answer := Payloads(Answer(engine.mode, engine.rules, text), engine.m_ContextArena);
    SameSize(answer, matching);
    var context;
    found, context := engine.Search(Some(text), |text|);
    assert text[..|text|] == text;
    payload := if found then Some(engine.m_ContextArena[context.value]) else None;
    if found {
      assert answer[0] in multiset(answer);
      assert payload.value == answer[0];
    }
  }

  lemma SameSize<X>(a: seq<X>, b: seq<X>)
    requires multiset(a) == multiset(b)
    ensures |a| == |b|
  {
    assert |a| == |multiset(a)| && |b| == |multiset(b)|;
  }
}
