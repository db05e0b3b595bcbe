/** KmStringPatternMatch: registration and search over one index. */
module Engine {
  import opened Arenas
  import opened Characters
  import opened Exactness
  import Globs
  import HashFilter
  import opened HashMap
  import opened Hashing
  import opened Index
  import opened Meaning
  import opened Options
  import opened Ordering
  import opened Registration
  import opened Registry
  import opened Rejections
  import opened Searching
  import opened Sizes
  import opened Storage
  import Tables
  import opened Vectors

  const MAXUINT32: nat := 0xFFFF_FFFF

  /** KDeque: at most 256 blocks of 512 contexts. */
  const MAX_BLOCKS: nat := 256
  const BLOCK_CAPACITY: nat := 512
  const MAX_PATTERNS: nat := MAX_BLOCKS * BLOCK_CAPACITY

  /** sizeof(PatternEntry): three strings, three numbers, the scope and the filter character. */
  const STRING_SIZE: nat := 16
  const ENTRY_SIZE: nat := 3 * STRING_SIZE + 16
  /** sizeof(UINT32), the type of m_LengthVec's elements. */
  const LENGTH_SIZE: nat := 4
  /** A slot of the hash map: the hash, and a vector with its three pointers and two entries inline. */
  const SLOT_SIZE: nat := 8 + 3 * 8 + SVO_CAPACITY * ENTRY_SIZE
  /** The hash map never grows beyond this many slots. */
  const MAX_SLOTS: nat := 0x4_0000

  /** A possibly null pointer to at least cch characters, read as text. */
  function TextOf(s: Option<seq<Char>>, cch: nat): seq<Char>
    requires s.Some? ==> cch <= |s.value|
  {
    if s.Some? then s.value[..cch] else []
  }

  predicate Granted(pool: Pool) {
    pool.stable && pool.tail && pool.context && pool.slow && pool.length && pool.table && pool.bucket
  }

  /** KDeque: a block of 512 contexts is allocated when its first context arrives, and there are 256 blocks. */
  function ContextOutcome(contexts: nat, pool: bool): Status {
    if contexts % 512 != 0 then Success
    else if contexts >= 131072 then QuotaExceeded
    else if !pool then InsufficientResources
    else Success
  }

  function LengthOutcome(lengths: Vec<nat>, length: nat, pool: bool): Status {
    if length in lengths.items then Success else PushStatus(lengths, 4, pool)
  }

  /** The hash a pattern is filed under: that of its folded literal prefix. */
  function RawHash(m: Mode, raw: seq<Char>): bv64 {
    var prefix := FoldAll(m, Registration.Literals(raw, 0));
    HashOf(m, prefix, |prefix|)
  }

  lemma HashOfRaw(m: Mode, g: Rule)
    requires Stored(m, g)
    ensures PrefixHash(m, g) == RawHash(m, g.raw)
  {
    hide HashOf;
  }

  /** No pattern, or one of so many bytes that the size of its slab could overflow. */
  predicate IsInvalid(m: Mode, sPattern: Option<seq<Char>>, cchPattern: nat) {
    (sPattern.None? && cchPattern > 0) || cchPattern * (if m.wide then 2 else 1) > 0xFFFF_FFFF_FFFF_FFFF - 4096
  }

  /** A registration stores its context, which stays even if a later step fails, or stops before that. */
  predicate TakesOne<TContext(==)>(was: seq<TContext>, now: seq<TContext>, context: TContext) {
    now == was || now == was + [context]
  }

  /** One more rule, for this pattern, scope and context, behind the others. */
  ghost predicate Registers(was: seq<Rule>, now: seq<Rule>, raw: seq<Char>, segment: bool, contextIndex: nat) {
    && |now| == |was| + 1 && was <= now
    && now[|was|].raw == raw && now[|was|].segment == segment && now[|was|].entry.contextIndex == contextIndex
    && now[|was|].entry.id == |now|
  }

  class KmStringPatternMatch<TContext> {
    const mode: Mode
    var m_nPatternCount: nat
    var m_nGlobalMinMatchLength: nat
    var m_bWildCardPresent: bool
    const m_HashFilter: array<bv64>
    var m_LengthVec: Vec<nat>
    const m_StringArena: KStringArena
    var m_ContextArena: seq<TContext>
    const m_HashMap: KFlatHashMap<HashKey, Vec<PatternEntry>>
    var m_SlowPathList: Vec<PatternEntry>
    /** The successful registrations since the last Clear, oldest first. */
    ghost var rules: seq<Rule>

    ghost function Fields(): IndexState
      reads this, m_HashFilter, m_HashMap`entries
    {
      IndexState(m_nPatternCount, m_nGlobalMinMatchLength, m_bWildCardPresent, m_LengthVec.items, m_HashFilter[..],
                 m_HashMap.entries, m_SlowPathList.items, |m_ContextArena|)
    }

    /** No two components share memory. */
    ghost predicate Separate()
      reads m_HashMap, m_StringArena`Repr
    {
      var own: set<object> := {this, m_HashFilter, m_HashMap, m_StringArena, m_HashMap.ctrl, m_HashMap.slots};
      && m_HashFilter as object != m_HashMap.ctrl && m_HashFilter as object != m_HashMap.slots
      && own !! m_StringArena.Repr
    }

    /** Every bucket and every length was made for a context, so the quota on contexts bounds them. */
    ghost predicate Bounded()
      reads this`m_ContextArena, this`m_LengthVec, m_HashMap`entries, m_HashMap`capacity
    {
      && |m_HashMap.entries| <= |m_ContextArena| <= MAX_PATTERNS && |m_LengthVec.items| <= |m_ContextArena|
      && m_HashMap.capacity <= MAX_SLOTS && m_HashMap.slotSize == SLOT_SIZE
    }

    /** The newest context has neither a bucket nor a length yet. */
    ghost predicate Pending()
      reads this`m_ContextArena, this`m_LengthVec, m_HashMap`entries
    {
      |m_HashMap.entries| < |m_ContextArena| && |m_LengthVec.items| < |m_ContextArena|
    }

    /** What a search relies on. */
    ghost predicate Searchable()
      reads this, m_HashFilter, m_HashMap, m_HashMap.ctrl, m_HashMap.slots, m_StringArena, m_StringArena.Repr
    {
      && Sound(mode) && m_HashFilter.Length == HashFilter.WORDS && Separate() && m_StringArena.Owns() && Bounded()
      && m_HashMap.Valid() && Indexed(mode, rules, Fields()) && Backed(m_StringArena.state, rules)
    }

    ghost predicate Valid()
      reads this, m_HashFilter, m_HashMap, m_HashMap.ctrl, m_HashMap.slots, m_StringArena, m_StringArena.Repr
    {
      Searchable() && m_StringArena.wide == mode.wide && m_StringArena.Valid()
    }

    constructor (wide: bool, insensitive: bool, upcase: Char -> Char, hasher: HashKey -> bv64)
      requires Sound(Mode(wide, insensitive, upcase, Mix64))
      ensures Valid() && rules == [] && mode == Mode(wide, insensitive, upcase, Mix64) && Fields() == EmptyIndex(0)
      ensures fresh(m_HashFilter) && fresh(m_StringArena) && fresh(m_HashMap) && m_StringArena.Repr == {}
      ensures fresh(m_HashMap.ctrl) && fresh(m_HashMap.slots)
    {
      hide Indexed, Sound, KFlatHashMap.Valid, KStringArena.Valid;
      mode := Mode(wide, insensitive, upcase, Mix64);
      m_nPatternCount, m_nGlobalMinMatchLength, m_bWildCardPresent := 0, MAXUINT32, false;
      m_LengthVec, m_ContextArena, m_SlowPathList, rules := Vec([], 2), [], Vec([], 2), [];
      m_HashFilter := new bv64[HashFilter.WORDS](i => 0);
      m_StringArena := new KStringArena(wide);
      m_HashMap := new KFlatHashMap<HashKey, Vec<PatternEntry>>(hasher, SLOT_SIZE);
      new;
      assert m_HashFilter[..] == EmptyIndex(0).filter;
      EmptyIsIndexed(mode, Fields());
    }

    // -------------------------------------------------------------------------------------------
    // Search
    // -------------------------------------------------------------------------------------------

    /** One indexed length: the filter, the hash map and the bucket. */
    method ProbeLength(text: seq<Char>, cchLength: nat, hash: bv64, c: Collector, out: seq<nat>,
                       ghost offered: seq<nat>)
      returns (result: seq<nat>, stop: bool)
      requires Searchable() && IsText(mode, text) && cchLength <= |text|
      requires hash == HashOf(mode, FoldAll(mode, text), cchLength)
      requires Collect(c, offered) == (out, false)
      ensures (result, stop) == Collect(c, offered + FastHits(mode, rules, text, cchLength))
    {
      hide Covers, FastHits, Collect, HashFilter.Test, HashOf, BucketRules, SlowRules, Entries, Ascending,
           KFlatHashMap.Valid, Stored, IsSlow, PrefixHash;
      ghost var b := BucketRules(mode, rules, hash);
      assert offered + [] == offered;
      if !HashFilter.Test(m_HashFilter[..], hash) {
        FilterRejects(mode, rules, Fields(), text, cchLength);
        return out, false;
      }
      AllStored();
      BucketHits(mode, rules, text, cchLength);
      BucketFrom(mode, rules, hash);
      var pBucket := m_HashMap.Find(HashKey(hash));
      assert BucketOf(m_HashMap.entries, hash) == Entries(b);
      if pBucket.Some? {
        var bucket := m_HashMap.slots[pBucket.value].value;
        result, stop := WalkBucket(mode, text, bucket.items, cchLength, c, out, b, offered);
      } else {
        assert |b| == 0;
        NoHits(mode, b, text, cchLength);
        return out, false;
      }
    }

    lemma AllStored()
      requires Indexed(mode, rules, Fields()) && Backed(m_StringArena.state, rules)
      ensures forall g :: g in rules ==> Stored(mode, g) && Legible(g)
    {
      hide Stored, PrefixLength, PrefixHash, HashFilter.Test, IsSlow, Legible, Anchored, Kept;
      forall g | g in rules
        ensures Stored(mode, g) && Legible(g)
      {
        assert Covers(mode, Fields(), g);
        BackedIsLegible(mode, m_StringArena.state, g);
      }
    }

    lemma Sorted()
      requires Indexed(mode, rules, Fields())
      ensures Ascending(m_LengthVec.items)
    {
    }

    /** The walk of the sorted lengths from itStart on. */
    method WalkLengths(text: seq<Char>, c: Collector, itStart: nat) returns (out: seq<nat>, stopped: bool)
      requires Searchable() && IsText(mode, text) && Walked(Fields(), text, itStart, 0)
      ensures (out, stopped) == Collect(c, FastUpTo(mode, rules, text, |text| + 1))
    {
      hide Indexed, FastHits, Collect, HashOf, KFlatHashMap.Valid, ChunksAt, Ascending;
      out, stopped := [], false;
      var it: nat, chunkHash: bv64, currentChunk: nat := itStart, 0, 0;
      ghost var n: nat := 0;
      assert Ascending(m_LengthVec.items) by {
        Sorted();
      }
      CollectNothing(c);
      ChunksBegin(mode, text);
      while it < |m_LengthVec.items|
        invariant Walked(Fields(), text, it, n) && Collect(c, FastUpTo(mode, rules, text, n)) == (out, false)
        invariant ChunksAt(mode, text, chunkHash, currentChunk, n)
      {
        var cchLength := m_LengthVec.items[it];
        if cchLength > |text| {
          break;
        }
        WalkOn(Fields(), text, it, n);
        if m_bWildCardPresent || cchLength == |text| {
          GapBefore(mode, rules, Fields(), text, it, n, cchLength);
          ChunksStay(mode, text, chunkHash, currentChunk, n, cchLength);
          var hash;
          chunkHash, currentChunk, hash := HashAtLength(mode, text, chunkHash, currentChunk, cchLength);
          out, stopped := ProbeLength(text, cchLength, hash, c, out, FastUpTo(mode, rules, text, cchLength));
          n := cchLength + 1;
          ChunksStay(mode, text, chunkHash, currentChunk, cchLength, n);
          if stopped {
            FastUpToPrefix(mode, rules, text, n, |text| + 1);
            CollectStopped(c, FastUpTo(mode, rules, text, n), FastUpTo(mode, rules, text, |text| + 1));
            return;
          }
          if !m_bWildCardPresent {
            return;
          }
        }
        it := it + 1;
      }
      GapBefore(mode, rules, Fields(), text, it, n, |text| + 1);
    }

    lemma CollectNothing(c: Collector)
      ensures Collect(c, []) == ([], false)
    {
    }

    method ProcessSlowPath(text: seq<Char>, c: Collector, out: seq<nat>, ghost offered: seq<nat>)
      returns (result: seq<nat>, stop: bool)
      requires Searchable() && IsText(mode, text) && Collect(c, offered) == (out, false)
      ensures (result, stop) == Collect(c, offered + SlowHits(mode, rules, text))
    {
      hide Covers, SlowHits, Collect, SlowRules, Entries, Ascending, KFlatHashMap.Valid, Stored, IsSlow,
           BucketOf, BucketRules;
      AllStored();
      SlowRulesHits(mode, rules, text);
      SlowFrom(rules);
      result, stop := WalkSlow(mode, text, m_SlowPathList.items, c, out, SlowRules(rules), offered);
    }

    method SearchInternal(text: seq<Char>, c: Collector) returns (out: seq<nat>, stopped: bool)
      requires Searchable() && IsText(mode, text)
      ensures (out, stopped) == Collect(c, Answer(mode, rules, text))
    {
      hide Covers, FastUpTo, SlowHits, Collect, SlowRules, BucketRules, Entries, KFlatHashMap.Valid,
           BucketOf;
      out, stopped := [], false;
      CollectNothing(c);
      if m_nPatternCount == 0 || |text| < m_nGlobalMinMatchLength {
        RejectedIsEmpty(mode, rules, Fields(), text);
        return;
      }
      if |m_SlowPathList.items| == 0 && (|m_LengthVec.items| == 0 || |text| < m_LengthVec.items[0]) {
        RejectedIsEmpty(mode, rules, Fields(), text);
        return;
      }
      var itStart: nat := 0;
      if !m_bWildCardPresent {
        if |m_LengthVec.items| > 0 {
          if |text| > m_LengthVec.items[|m_LengthVec.items| - 1] {
            RejectedIsEmpty(mode, rules, Fields(), text);
            return;
          }
          itStart := LowerBound(m_LengthVec.items, |text|);
          if itStart == |m_LengthVec.items| || m_LengthVec.items[itStart] != |text| {
            RejectedIsEmpty(mode, rules, Fields(), text);
            return;
          }
        } else if |text| > 0 {
          RejectedIsEmpty(mode, rules, Fields(), text);
          return;
        }
      }
      out, stopped := WalkLengths(text, c, itStart);
      ghost var offered := FastUpTo(mode, rules, text, |text| + 1);
      assert offered <= Answer(mode, rules, text);
      if stopped {
        CollectStopped(c, offered, Answer(mode, rules, text));
        return;
      }
      out, stopped := ProcessSlowPath(text, c, out, offered);
    }

    /** First match: the head of the answer, or false when no registered pattern accepts the text. */
    method Search(sText: Option<seq<Char>>, cchText: nat) returns (found: bool, context: Option<nat>)
      requires Valid() && (sText.Some? ==> cchText <= |sText.value| && IsText(mode, sText.value))
      ensures sText.None? && cchText > 0 ==> !found && context == None
      ensures sText.Some? || cchText == 0 ==>
                var text := TextOf(sText, cchText);
                var answer := Answer(mode, rules, text);
                && (found <==> exists x :: IsMatch(mode, rules, text, x))
                && (found <==> answer != []) && (found ==> context == Some(answer[0]))
                && (found ==> answer[0] < |m_ContextArena| && IsFirst(mode, rules, text, answer[0]))
                && (!found ==> context == None)
    {
      hide Indexed, Separate, KFlatHashMap.Valid, Backed, KStringArena.Valid, Answer, IsMatch, IsFirst, InOrder;
      if sText.None? && cchText > 0 {
        return false, None;
      }
      AnswerIsExact(mode, rules, Fields(), TextOf(sText, cchText));
      ghost var answer := Answer(mode, rules, TextOf(sText, cchText));
      if answer != [] {
        assert answer[0] in answer;
        HeadIsFirst(mode, rules, Fields(), TextOf(sText, cchText));
      }
      var out;
      out, found := SearchInternal(TextOf(sText, cchText), FirstOnly);
      context := if found then Some(out[0]) else None;
    }

    /** Collect all: every match exactly once, or the part of the answer the vector has room for and an error. */
    method SearchAll(sText: Option<seq<Char>>, cchText: nat, room: nat) returns (status: Status, contexts: seq<nat>)
      requires Valid() && (sText.Some? ==> cchText <= |sText.value| && IsText(mode, sText.value))
      ensures sText.None? && cchText > 0 ==> status == InvalidParameter && contexts == []
      ensures sText.Some? || cchText == 0 ==>
                var answer := Answer(mode, rules, TextOf(sText, cchText));
                if |answer| <= room then status == Success && contexts == answer
                else status == InsufficientResources && contexts == answer[..room]
      ensures status == Success ==> forall x :: x in contexts <==> IsMatch(mode, rules, TextOf(sText, cchText), x)
      ensures forall i, j :: 0 <= i < j < |contexts| ==> contexts[i] != contexts[j]
      ensures InOrder(rules, contexts) && forall x :: x in contexts ==> x < |m_ContextArena|
    {
      hide Indexed, Separate, KFlatHashMap.Valid, Backed, KStringArena.Valid, Answer, IsMatch, InOrder;
      CollectedInOrder(mode, rules, Fields(), [], 0);
      if sText.None? && cchText > 0 {
        return InvalidParameter, [];
      }
      AnswerIsExact(mode, rules, Fields(), TextOf(sText, cchText));
      ghost var answer := Answer(mode, rules, TextOf(sText, cchText));
      assert room < |answer| ==> forall x :: x in answer[..room] ==> x in answer;
      CollectedInOrder(mode, rules, Fields(), TextOf(sText, cchText), if room < |answer| then room else |answer|);
      assert answer[..|answer|] == answer;
      var stopped;
      contexts, stopped := SearchInternal(TextOf(sText, cchText), All(room));
      status := if stopped then InsufficientResources else Success;
    }

    // -------------------------------------------------------------------------------------------
    // AddPattern
    // -------------------------------------------------------------------------------------------

    /** What the hash map and the bucket report: a new hash and a full bucket may each need memory. */
    ghost function BucketOutcome(hash: bv64, pool: Pool): Status
      reads m_HashMap`entries, m_HashMap`capacity
    {
      var known := HashKey(hash) in m_HashMap.entries;
      var table := EmplaceStatus(known, |m_HashMap.entries|, m_HashMap.capacity, 160, pool.table);
      if NtSuccess(table) then PushStatus(VectorOf(m_HashMap.entries, hash), 64, pool.bucket) else table
    }

    /** What the fast path reports: a new length may need memory too. */
    ghost function FastOutcome(raw: seq<Char>, pool: Pool): Status
      reads this`m_LengthVec, m_HashMap`entries, m_HashMap`capacity
    {
      var length := LengthOutcome(m_LengthVec, PrefixLength(raw), pool.length);
      if length.Success? then BucketOutcome(RawHash(mode, raw), pool) else length
    }

    ghost function EntryOutcome(raw: seq<Char>, pool: Pool): Status
      reads this`m_LengthVec, this`m_SlowPathList, m_HashMap`entries, m_HashMap`capacity
    {
      if IsSlow(raw) then PushStatus(m_SlowPathList, 64, pool.slow) else FastOutcome(raw, pool)
    }

    ghost function IndexOutcome(raw: seq<Char>, pool: Pool): Status
      reads this`m_ContextArena, this`m_LengthVec, this`m_SlowPathList, m_HashMap`entries, m_HashMap`capacity
    {
      var context := ContextOutcome(|m_ContextArena|, pool.context);
      if context.Success? then EntryOutcome(raw, pool) else context
    }

    ghost function StoredOutcome(raw: seq<Char>, pool: Pool): Status
      reads this`m_ContextArena, this`m_LengthVec, this`m_SlowPathList, m_HashMap`entries, m_HashMap`capacity
      reads m_StringArena`m_Tail, if m_StringArena.m_Tail == null then {} else {m_StringArena.m_Tail}
    {
      if StringsFit(mode.wide, m_StringArena.Room(), TextLength(raw), TailCount(raw), pool) then IndexOutcome(raw, pool)
      else InsufficientResources
    }

    /** What AddPattern reports, and that it asks the pool for nothing it has room for. */
    ghost function Outcome(sPattern: Option<seq<Char>>, cchPattern: nat, pool: Pool): Status
      requires sPattern.Some? ==> cchPattern <= |sPattern.value|
      reads this`m_ContextArena, this`m_LengthVec, this`m_SlowPathList, this`rules
      reads m_HashMap`entries, m_HashMap`capacity
      reads m_StringArena`m_Tail, if m_StringArena.m_Tail == null then {} else {m_StringArena.m_Tail}
    {
      if IsInvalid(mode, sPattern, cchPattern) then InvalidParameter
      else if |rules| >= 131072 then QuotaExceeded
      else StoredOutcome(TextOf(sPattern, cchPattern), pool)
    }

    /** No vector and no table is ever so large that its size overflows. */
    lemma NothingOverflows(raw: seq<Char>, pool: Pool)
      requires Searchable()
      ensures StoredOutcome(raw, pool).Success? || StoredOutcome(raw, pool).InsufficientResources? ||
              (StoredOutcome(raw, pool).QuotaExceeded? && |m_ContextArena| == MAX_PATTERNS)
      ensures Granted(pool) && |raw| <= LongestPattern(mode.wide) ==> !StoredOutcome(raw, pool).InsufficientResources?
    {
      hide Covers, BucketRules, SlowRules, KFlatHashMap.Valid, Backed, PushStatus, Ascending, RawHash, StringsFit,
           PrefixLength, IsSlow, TextLength, TailCount, EmplaceStatus, KStringArena.Owns, Separate;
      var hash := RawHash(mode, raw);
      CountFits(mode, rules, Fields());
      FewRules(mode, rules, hash);
      assert BucketOf(m_HashMap.entries, hash) == Entries(BucketRules(mode, rules, hash));
      FewFit(m_LengthVec, 4, pool.length);
      FewFit(m_SlowPathList, 64, pool.slow);
      FewFit(VectorOf(m_HashMap.entries, hash), 64, pool.bucket);
      if Granted(pool) && |raw| <= LongestPattern(mode.wide) {
        AdmittedFits(mode.wide, m_StringArena.Room(), raw, pool);
      }
      if |m_ContextArena| < MAX_PATTERNS {
        TableFits(HashKey(hash) in m_HashMap.entries, pool.table);
      }
    }

    lemma TableFits(known: bool, pool: bool)
      requires m_HashMap.Valid() && Bounded() && |m_HashMap.entries| < MAX_PATTERNS
      ensures var status := EmplaceStatus(known, |m_HashMap.entries|, m_HashMap.capacity, 160, pool);
              NtSuccess(status) || (status.InsufficientResources? && !pool)
    {
      hide KFlatHashMap.Valid;
      TableStaysSmall();
    }

    /** Stores the context. It stays when a later allocation fails. */
    method CommitContext(context: TContext, pool: bool) returns (status: Status)
      requires Searchable()
      modifies this`m_ContextArena
      ensures Searchable() && m_nPatternCount == |rules|
      ensures status.Success? ==>
                m_ContextArena == old(m_ContextArena) + [context] && Pending()
      ensures status.Success? ==> forall q :: q in rules ==> q.entry.contextIndex < |old(m_ContextArena)|
      ensures !status.Success? ==> m_ContextArena == old(m_ContextArena)
      ensures status == ContextOutcome(|old(m_ContextArena)|, pool)
    {
      hide Stored, PrefixHash, PrefixLength, IsSlow, HashFilter.Test, BucketRules, SlowRules, Entries, BucketOf,
          Ascending, KFlatHashMap.Valid, Anchored, Kept;
      if |m_ContextArena| % BLOCK_CAPACITY == 0 {
        if |m_ContextArena| / BLOCK_CAPACITY >= MAX_BLOCKS {
          return QuotaExceeded;
        }
        if !pool {
          return InsufficientResources;
        }
      }
      ghost var s := Fields();
      assert forall q :: q in rules ==> Covers(mode, s, q);
      m_ContextArena := m_ContextArena + [context];
      LeftoversKeep(mode, rules, s, Fields());
      return Success;
    }

    /** A complete entry whose context is the newest. */
    ghost predicate Ready(entry: PatternEntry, g: Rule)
      reads this`m_ContextArena, this`rules, m_StringArena, m_StringArena.Repr
    {
      && m_StringArena.Owns()
      && Stored(mode, g) && g.entry == entry && Anchored(m_StringArena.state, g) && Kept(m_StringArena.state, g)
      && entry.id == |rules| + 1 && entry.contextIndex + 1 == |m_ContextArena| && entry.firstLiteral == 0
      && forall q :: q in rules ==> q.entry.contextIndex < entry.contextIndex
    }

    /** The slow-path end of a registration. */
    method AddSlowEntry(entry: PatternEntry, pool: bool, ghost g: Rule) returns (status: Status)
      requires Searchable() && Ready(entry, g) && IsSlow(g.raw)
      modifies this`m_SlowPathList, this`m_nPatternCount, this`m_bWildCardPresent, this`m_nGlobalMinMatchLength,
          this`rules
      ensures Searchable()
      ensures status.Success? ==> Registers(old(rules), rules, g.raw, g.segment, entry.contextIndex)
      ensures !status.Success? ==> rules == old(rules)
      ensures status == PushStatus(old(m_SlowPathList), 64, pool)
    {
      hide Compiles, Covers, HashFilter.Test, Indexed, KFlatHashMap.Valid, HasLiteral, Legible, Kept, Anchored, Backed,
           Separate, Bounded, Stored;
      BackedIsLegible(mode, m_StringArena.state, g);
      var first := FindFirstLiteral(entry, g);
      status := PushStatus(m_SlowPathList, ENTRY_SIZE, pool);
      if !status.Success? {
        return;
      }
      SizesKept(mode, g);
      ghost var s, q := Fields(), g.(entry := entry.(firstLiteral := first));
      BackedByOneMore(m_StringArena.state, rules, g, q);
      m_SlowPathList := Pushed(m_SlowPathList, entry.(firstLiteral := first));
      m_nPatternCount := m_nPatternCount + 1;
      m_bWildCardPresent := true;
      LowerMinimum(entry);
      rules := rules + [q];
      AddSlow(mode, old(rules), s, q);
      assert Fields() == WithSlow(s, q);
    }

    method FindFirstLiteral(entry: PatternEntry, ghost g: Rule) returns (first: Char)
      requires Stored(mode, g) && g.entry == entry && Legible(g)
      ensures first == FirstLit(Globs.Parse(g.parts.suffix, 0), false, false)
      ensures Stored(mode, g.(entry := entry.(firstLiteral := first)))
    {
      hide Compiles, HasLiteral;
      first := FirstLiteral(Read(entry.wildcardSuffix, g.parts.suffix));
      FirstLitOccurs(Globs.Parse(g.parts.suffix, 0), false, false);
    }

    method LowerMinimum(entry: PatternEntry)
      modifies this`m_nGlobalMinMatchLength
      ensures m_nGlobalMinMatchLength ==
              Lower(old(m_nGlobalMinMatchLength), entry.literalPrefix.length + entry.minWildcardMatchLength)
    {
      var requiredLength := entry.literalPrefix.length + entry.minWildcardMatchLength;
      if requiredLength < m_nGlobalMinMatchLength {
        m_nGlobalMinMatchLength := requiredLength;
      }
    }

    /** Makes sure the sorted index holds the length. */
    method EnsureLength(length: nat, pool: bool) returns (status: Status)
      requires Searchable() && Pending()
      modifies this`m_LengthVec
      ensures Searchable() && |m_HashMap.entries| < |m_ContextArena|
      ensures status == LengthOutcome(old(m_LengthVec), length, pool)
      ensures status.Success? ==> forall n :: n in m_LengthVec.items <==> n in old(m_LengthVec.items) || n == length
      ensures !status.Success? ==> m_LengthVec == old(m_LengthVec)
    {
      hide Covers, BucketRules, SlowRules, Entries, BucketOf, KFlatHashMap.Valid, Backed, PushStatus;
      var it := 0;
      while it < |m_LengthVec.items| && m_LengthVec.items[it] < length
        invariant it <= |m_LengthVec.items| && forall j :: 0 <= j < it ==> m_LengthVec.items[j] < length
      {
        it := it + 1;
      }
      if it == |m_LengthVec.items| || m_LengthVec.items[it] != length {
        status := PushStatus(m_LengthVec, LENGTH_SIZE, pool);
        if !status.Success? {
          return;
        }
        ghost var s := Fields();
        m_LengthVec := Inserted(m_LengthVec, it, length);
        assert m_LengthVec.items[it] == length;
        InsertedKeeps(s.lengths, it, length);
        LeftoversKeep(mode, rules, s, Fields());
        return;
      }
      return Success;
    }

    /** Makes sure the hash has a bucket, empty if it is new. */
    method EnsureBucket(hash: bv64, pool: bool) returns (status: Status, at: nat)
      requires Searchable() && |m_HashMap.entries| < |m_ContextArena|
      modifies m_HashMap, m_HashMap.ctrl, m_HashMap.slots
      ensures status == EmplaceStatus(HashKey(hash) in old(m_HashMap.entries), |old(m_HashMap.entries)|,
                                      old(m_HashMap.capacity), SLOT_SIZE, pool)
      ensures Searchable()
      ensures (m_HashMap.ctrl == old(m_HashMap.ctrl) || fresh(m_HashMap.ctrl))
      ensures (m_HashMap.slots == old(m_HashMap.slots) || fresh(m_HashMap.slots))
      ensures NtSuccess(status) ==> HashKey(hash) in m_HashMap.entries && m_HashMap.places[HashKey(hash)] == at
      ensures NtSuccess(status) ==>
                at < m_HashMap.slots.Length && m_HashMap.slots[at].value == m_HashMap.entries[HashKey(hash)] &&
                m_HashMap.slots[at].value == VectorOf(old(m_HashMap.entries), hash)
    {
      hide Covers, BucketRules, SlowRules, Entries, KFlatHashMap.Valid, Ascending, Anchored, Kept;
      ghost var s := Fields();
      TableStaysSmall();
      status, at := m_HashMap.Emplace(HashKey(hash), Vec([], SVO_CAPACITY), pool);
      assert forall h :: BucketOf(m_HashMap.entries, h) == BucketOf(s.buckets, h);
      LeftoversKeep(mode, rules, s, Fields());
    }

    /** When the table must grow it is still below its bound. */
    lemma TableStaysSmall()
      requires m_HashMap.Valid() && Bounded() && |m_HashMap.entries| < MAX_PATTERNS
      ensures MustGrow(|m_HashMap.entries|, m_HashMap.capacity) ==> Grown(m_HashMap.capacity) <= MAX_SLOTS
    {
      hide Pow2, Tables.Table, MaxLoadOf;
      PowerOf18();
      if m_HashMap.capacity != 0 && MustGrow(|m_HashMap.entries|, m_HashMap.capacity) {
        assert m_HashMap.capacity < MAX_SLOTS;
        Below18(m_HashMap.log);
      }
    }

    method AppendToBucket(hash: bv64, at: nat, entry: PatternEntry)
      requires m_HashMap.Valid() && HashKey(hash) in m_HashMap.entries && m_HashMap.places[HashKey(hash)] == at
      requires at < m_HashMap.slots.Length && m_HashMap.slots[at].value == m_HashMap.entries[HashKey(hash)]
      modifies m_HashMap`entries, m_HashMap.slots
      ensures m_HashMap.Valid()
      ensures m_HashMap.entries ==
              old(m_HashMap.entries)[HashKey(hash) := Pushed(VectorOf(old(m_HashMap.entries), hash), entry)]
      ensures |m_HashMap.entries| == |old(m_HashMap.entries)|
    {
      m_HashMap.Store(HashKey(hash), at, Pushed(m_HashMap.slots[at].value, entry));
    }

    method SetFilterBit(hash: bv64)
      requires m_HashFilter.Length == HashFilter.WORDS
      modifies m_HashFilter
      ensures m_HashFilter[..] == HashFilter.Add(old(m_HashFilter[..]), hash)
    {
      hide HashFilter.SetBit, HashFilter.WordOf;
      m_HashFilter[HashFilter.WordOf(hash)] := HashFilter.SetBit(m_HashFilter[HashFilter.WordOf(hash)], hash);
    }

    /** The committing writes of a fast-path registration: bucket, counters and, last, the filter. */
    method WriteEntry(entry: PatternEntry, hash: bv64, at: nat, ghost g: Rule)
      requires Separate() && m_HashMap.Valid() && m_HashFilter.Length == HashFilter.WORDS
      requires Stored(mode, g) && g.entry == entry && hash == PrefixHash(mode, g)
      requires HashKey(hash) in m_HashMap.entries && m_HashMap.places[HashKey(hash)] == at
      requires at < m_HashMap.slots.Length && m_HashMap.slots[at].value == m_HashMap.entries[HashKey(hash)]
      modifies this`m_nPatternCount, this`m_bWildCardPresent, this`m_nGlobalMinMatchLength, m_HashFilter
      modifies m_HashMap`entries, m_HashMap.slots
      ensures m_HashMap.Valid() && Fields() == WithFast(mode, old(Fields()), g)
      ensures |m_HashMap.entries| == |old(m_HashMap.entries)|
    {
      hide Stored, PrefixHash, HashFilter.Add, KFlatHashMap.Valid, BucketOf, WithFast;
      ghost var s := Fields();
      AppendToBucket(hash, at, entry);
      m_nPatternCount := m_nPatternCount + 1;
      if entry.wildcardSuffix.length != 0 {
        m_bWildCardPresent := true;
      }
      LowerMinimum(entry);
      SetFilterBit(hash);
      IsWithFast(mode, s, Fields(), g, hash);
    }

    /** The committing end of a fast-path registration. */
    method FileEntry(entry: PatternEntry, hash: bv64, at: nat, ghost g: Rule)
      requires Searchable() && Ready(entry, g) && !IsSlow(g.raw) && hash == PrefixHash(mode, g)
      requires PrefixLength(g.raw) in m_LengthVec.items && HashKey(hash) in m_HashMap.entries
      requires m_HashMap.places[HashKey(hash)] == at
      requires at < m_HashMap.slots.Length && m_HashMap.slots[at].value == m_HashMap.entries[HashKey(hash)]
      modifies this`m_nPatternCount, this`m_bWildCardPresent, this`m_nGlobalMinMatchLength, this`rules, m_HashFilter
      modifies m_HashMap`entries, m_HashMap.slots
      ensures Searchable() && Registers(old(rules), rules, g.raw, g.segment, entry.contextIndex)
    {
      hide Stored, HashFilter.Test, HashFilter.Add, Indexed, IsSlow, KFlatHashMap.Valid, Kept, Anchored, PrefixHash,
           BucketOf, WithFast;
      BackedByOneMore(m_StringArena.state, rules, g, g);
      AddFast(mode, rules, Fields(), g);
      WriteEntry(entry, hash, at, g);
      rules := rules + [g];
    }

    /** The hash a fast-path pattern is filed under. */
    method EntryHash(entry: PatternEntry, ghost g: Rule) returns (hash: bv64)
      requires Ready(entry, g)
      ensures hash == PrefixHash(mode, g) == RawHash(mode, g.raw)
      ensures PrefixLength(g.raw) == entry.literalPrefix.length
    {
      hide Stored;
      BackedIsLegible(mode, m_StringArena.state, g);
      PrefixKept(mode, g);
      HashOfRaw(mode, g);
      hash := CalculateHash(mode, Read(entry.literalPrefix, g.parts.prefix), 0);
    }

    /** The fast-path end of a registration. */
    method AddFastEntry(entry: PatternEntry, pool: Pool, ghost g: Rule) returns (status: Status)
      requires Searchable() && Ready(entry, g) && !IsSlow(g.raw) && Pending()
      modifies this`m_LengthVec, this`m_nPatternCount, this`m_bWildCardPresent, this`m_nGlobalMinMatchLength, this`rules
      modifies m_HashFilter, m_HashMap, m_HashMap.ctrl, m_HashMap.slots
      ensures Searchable()
      ensures (m_HashMap.ctrl == old(m_HashMap.ctrl) || fresh(m_HashMap.ctrl))
      ensures (m_HashMap.slots == old(m_HashMap.slots) || fresh(m_HashMap.slots))
      ensures status.Success? ==> Registers(old(rules), rules, g.raw, g.segment, entry.contextIndex)
      ensures !status.Success? ==> rules == old(rules)
      ensures status == old(FastOutcome(g.raw, pool))
    {
      hide Indexed, KFlatHashMap.Valid, Backed, PrefixHash, PrefixLength, IsSlow, Stored, Kept, Anchored, BucketOutcome,
           LengthOutcome, RawHash;
      var hash := EntryHash(entry, g);
      status := EnsureLength(entry.literalPrefix.length, pool.length);
      if status.Success? {
        status := AddToBucket(entry, hash, pool, g);
      }
    }

    /** The bucket of the hash takes the entry, and the rule is committed. */
    method AddToBucket(entry: PatternEntry, hash: bv64, pool: Pool, ghost g: Rule) returns (status: Status)
      requires Searchable() && Ready(entry, g) && !IsSlow(g.raw) && hash == PrefixHash(mode, g)
      requires PrefixLength(g.raw) in m_LengthVec.items && |m_HashMap.entries| < |m_ContextArena|
      modifies this`m_nPatternCount, this`m_bWildCardPresent, this`m_nGlobalMinMatchLength, this`rules
      modifies m_HashFilter, m_HashMap, m_HashMap.ctrl, m_HashMap.slots
      ensures Searchable()
      ensures (m_HashMap.ctrl == old(m_HashMap.ctrl) || fresh(m_HashMap.ctrl))
      ensures (m_HashMap.slots == old(m_HashMap.slots) || fresh(m_HashMap.slots))
      ensures status.Success? ==> Registers(old(rules), rules, g.raw, g.segment, entry.contextIndex)
      ensures !status.Success? ==> rules == old(rules)
      ensures status == old(BucketOutcome(hash, pool))
    {
      hide Indexed, KFlatHashMap.Valid, Backed, PrefixHash, PrefixLength, IsSlow, Stored, Kept, Anchored, PushStatus,
           EmplaceStatus, VectorOf;
      var at;
      status, at := EnsureBucket(hash, pool.table);
      if NtSuccess(status) {
        status := PushStatus(m_HashMap.slots[at].value, ENTRY_SIZE, pool.bucket);
        if status.Success? {
          FileEntry(entry, hash, at, g);
        }
      }
    }

    /** The arena part of a registration: everything registered before keeps its strings. */
    method StorePattern(raw: seq<Char>, segment: bool, pool: Pool)
      returns (ok: bool, entry: PatternEntry, ghost g: Rule)
      requires Valid() && IsText(mode, raw)
      modifies m_StringArena`m_Head, m_StringArena`m_Tail, m_StringArena`state, m_StringArena`Repr, m_StringArena.Repr
      ensures Valid() && Extends(m_StringArena.state, old(m_StringArena.state))
      ensures old(m_StringArena.Repr) <= m_StringArena.Repr && fresh(m_StringArena.Repr - old(m_StringArena.Repr))
      ensures ok ==>
                Stored(mode, g) && g.raw == raw && g.segment == segment && g.entry == entry && entry.firstLiteral == 0
      ensures ok ==> Anchored(m_StringArena.state, g) && Kept(m_StringArena.state, g)
      ensures ok <==> StringsFit(mode.wide, old(m_StringArena.Room()), TextLength(raw), TailCount(raw), pool)
    {
      hide Stored, Indexed, KFlatHashMap.Valid, Extends, Layout;
      ok, entry, g := CompileParts(mode, m_StringArena, raw, segment, pool, rules);
    }

    /** Undoes the arena part of a registration. */
    method Rollback(bookmark: Bookmark, ghost s: State)
      requires Valid() && |s.usage| == |s.chain| && Extends(m_StringArena.state, s) && bookmark == Mark(s)
      requires Layout(mode.wide, s.usage, s.live) && forall g :: g in rules ==> Anchored(s, g)
      modifies m_StringArena`m_Head, m_StringArena`m_Tail, m_StringArena`state, m_StringArena`freed, m_StringArena.Repr
      ensures Valid() && m_StringArena.state == s
    {
      hide Stored, Indexed, KFlatHashMap.Valid, Layout, Extends, Holds, Within, KStringArena.Linked;
      m_StringArena.LastSlab();
      ChainOf(m_StringArena.state, s);
      BackedShrinks(s, m_StringArena.state, rules);
      m_StringArena.RevertBookmark(bookmark, s);
    }

    /** Patterns that begin with a wildcard go to the slow list, all others to a bucket. */
    method AddEntry(entry: PatternEntry, pool: Pool, ghost g: Rule) returns (status: Status)
      requires Searchable() && Ready(entry, g) && Pending()
      modifies this`m_LengthVec, this`m_SlowPathList, this`m_nPatternCount, this`m_bWildCardPresent
      modifies this`m_nGlobalMinMatchLength, this`rules, m_HashFilter, m_HashMap, m_HashMap.ctrl, m_HashMap.slots
      ensures Searchable()
      ensures (m_HashMap.ctrl == old(m_HashMap.ctrl) || fresh(m_HashMap.ctrl))
      ensures (m_HashMap.slots == old(m_HashMap.slots) || fresh(m_HashMap.slots))
      ensures status.Success? ==> Registers(old(rules), rules, g.raw, g.segment, entry.contextIndex)
      ensures !status.Success? ==> rules == old(rules)
      ensures status == old(EntryOutcome(g.raw, pool))
    {
      hide Stored, Indexed, KFlatHashMap.Valid, Backed, Kept, Anchored, Registers, IsSlow, FastOutcome, PushStatus;
      SlowEntry(mode, g);
      if entry.literalPrefix.length == 0 && entry.wildcardSuffix.length > 0 {
        status := AddSlowEntry(entry, pool.slow, g);
      } else {
        status := AddFastEntry(entry, pool, g);
      }
    }

    /** The index part of a registration: the context, then the slow list or a bucket. */
    method IndexPattern(compiled: PatternEntry, context: TContext, pool: Pool, ghost compiledRule: Rule)
      returns (status: Status)
      requires Searchable() && Stored(mode, compiledRule) && compiledRule.entry == compiled
      requires compiled.firstLiteral == 0
      requires Anchored(m_StringArena.state, compiledRule) && Kept(m_StringArena.state, compiledRule)
      modifies this, m_HashFilter, m_HashMap, m_HashMap.ctrl, m_HashMap.slots
      ensures Searchable() && TakesOne(old(m_ContextArena), m_ContextArena, context)
      ensures (m_HashMap.ctrl == old(m_HashMap.ctrl) || fresh(m_HashMap.ctrl))
      ensures (m_HashMap.slots == old(m_HashMap.slots) || fresh(m_HashMap.slots))
      ensures status.Success? ==>
                && m_ContextArena == old(m_ContextArena) + [context]
                && Registers(old(rules), rules, compiledRule.raw, compiledRule.segment, |old(m_ContextArena)|)
      ensures !status.Success? ==> rules == old(rules)
      ensures status == old(IndexOutcome(compiledRule.raw, pool))
    {
      hide Stored, Indexed, KFlatHashMap.Valid, Backed, Registers, Holds;
      status := CommitContext(context, pool.context);
      if !status.Success? {
        return;
      }
      var entry := compiled.(id := m_nPatternCount + 1, contextIndex := |m_ContextArena| - 1);
      ghost var g := compiledRule.(entry := entry);
      StoredWithContext(mode, compiledRule, g);
      status := AddEntry(entry, pool, g);
    }

    /** The same, with the string arena in view: it is not touched. */
    method IndexStoredPattern(compiled: PatternEntry, context: TContext, pool: Pool, ghost compiledRule: Rule)
      returns (status: Status)
      requires Valid() && Stored(mode, compiledRule) && compiledRule.entry == compiled && compiled.firstLiteral == 0
      requires Anchored(m_StringArena.state, compiledRule) && Kept(m_StringArena.state, compiledRule)
      modifies this, m_HashFilter, m_HashMap, m_HashMap.ctrl, m_HashMap.slots
      ensures Valid() && TakesOne(old(m_ContextArena), m_ContextArena, context)
      ensures (m_HashMap.ctrl == old(m_HashMap.ctrl) || fresh(m_HashMap.ctrl))
      ensures (m_HashMap.slots == old(m_HashMap.slots) || fresh(m_HashMap.slots))
      ensures status.Success? ==>
                && m_ContextArena == old(m_ContextArena) + [context]
                && Registers(old(rules), rules, compiledRule.raw, compiledRule.segment, |old(m_ContextArena)|)
      ensures !status.Success? ==> rules == old(rules)
      ensures status == old(IndexOutcome(compiledRule.raw, pool))
    {
      hide Stored, Indexed, KFlatHashMap.Valid, Backed, Anchored, Kept, Registers, Layout;
      status := IndexPattern(compiled, context, pool, compiledRule);
    }

    lemma CountOfRules()
      requires Valid()
      ensures |rules| == m_nPatternCount <= |m_ContextArena| <= MAX_PATTERNS
    {
      hide Indexed, Backed, KFlatHashMap.Valid, KStringArena.Valid;
      CountFits(mode, rules, Fields());
    }

    /** Opens a transaction: what a later rollback needs. */
    method TakeBookmark() returns (bookmark: Bookmark)
      requires Valid()
      ensures Valid()
      ensures var s := m_StringArena.state;
              && |s.usage| == |s.chain| && bookmark == Mark(s) && Extends(s, s) && Layout(mode.wide, s.usage, s.live)
              && forall g :: g in rules ==> Anchored(s, g)
    {
      hide Indexed, Layout, KFlatHashMap.Valid, Anchored, Kept, Extends;
      bookmark := m_StringArena.GetBookmark();
    }

    /** The transaction of a registration. */
    method Register(raw: seq<Char>, segment: bool, context: TContext, pool: Pool) returns (status: Status)
      requires Valid() && IsText(mode, raw)
      modifies this, m_HashFilter, m_HashMap, m_HashMap.ctrl, m_HashMap.slots, m_StringArena, m_StringArena.Repr
      ensures Valid() && TakesOne(old(m_ContextArena), m_ContextArena, context)
      ensures (m_HashMap.ctrl == old(m_HashMap.ctrl) || fresh(m_HashMap.ctrl))
      ensures (m_HashMap.slots == old(m_HashMap.slots) || fresh(m_HashMap.slots))
      ensures old(m_StringArena.Repr) <= m_StringArena.Repr && fresh(m_StringArena.Repr - old(m_StringArena.Repr))
      ensures status.Success? ==>
                && m_ContextArena == old(m_ContextArena) + [context]
                && Registers(old(rules), rules, raw, segment, |old(m_ContextArena)|)
      ensures !status.Success? ==> rules == old(rules) && m_StringArena.state == old(m_StringArena.state)
      ensures status == old(StoredOutcome(raw, pool))
    {
      hide Stored, Indexed, KFlatHashMap.Valid, KStringArena.Valid, Backed, Anchored, Kept, Registers, Layout, Extends;
      var bookmark := TakeBookmark();
      ghost var s := m_StringArena.state;
      var ok, entry;
      ghost var g;
      ok, entry, g := StorePattern(raw, segment, pool);
      status := InsufficientResources;
      if ok {
        status := IndexStoredPattern(entry, context, pool, g);
      }
      if !status.Success? {
        Rollback(bookmark, s);
      }
    }

    /**
      Registers a pattern, or changes nothing a search can see: whatever allocation fails, the rules and
      the string arena are as before.
     */
    method AddPattern(sPattern: Option<seq<Char>>, cchPattern: nat, segment: bool, context: TContext, pool: Pool)
      returns (status: Status)
      requires Valid() && (sPattern.Some? ==> cchPattern <= |sPattern.value| && IsText(mode, sPattern.value))
      modifies this, m_HashFilter, m_HashMap, m_HashMap.ctrl, m_HashMap.slots, m_StringArena, m_StringArena.Repr
      ensures Valid() && TakesOne(old(m_ContextArena), m_ContextArena, context)
      ensures (m_HashMap.ctrl == old(m_HashMap.ctrl) || fresh(m_HashMap.ctrl))
      ensures (m_HashMap.slots == old(m_HashMap.slots) || fresh(m_HashMap.slots))
      ensures old(m_StringArena.Repr) <= m_StringArena.Repr && fresh(m_StringArena.Repr - old(m_StringArena.Repr))
      ensures status.Success? ==>
                && m_ContextArena == old(m_ContextArena) + [context]
                && Registers(old(rules), rules, TextOf(sPattern, cchPattern), segment, |old(m_ContextArena)|)
      ensures !status.Success? ==> rules == old(rules) && m_StringArena.state == old(m_StringArena.state)
      ensures status == old(Outcome(sPattern, cchPattern, pool))
      ensures status.InvalidParameter? <==> IsInvalid(mode, sPattern, cchPattern)
      ensures !status.InvalidParameter? && |old(rules)| >= 131072 ==> status.QuotaExceeded?
      ensures status.Success? || status.InvalidParameter? ||
              (status.QuotaExceeded? && |old(m_ContextArena)| == MAX_PATTERNS) ||
              (status.InsufficientResources? && !Granted(pool))
    {
      hide Searchable, Registers, StoredOutcome, KStringArena.Valid;
      if (sPattern.None? && cchPattern > 0) || cchPattern > LongestPattern(mode.wide) {
        return InvalidParameter;
      }
      CountOfRules();
      NothingOverflows(TextOf(sPattern, cchPattern), pool);
      if m_nPatternCount >= MAX_PATTERNS {
        return QuotaExceeded;
      }
      status := Register(TextOf(sPattern, cchPattern), segment, context, pool);
    }

    method ResetFields()
      requires m_HashFilter.Length == HashFilter.WORDS
      modifies this, m_HashFilter
      ensures m_SlowPathList == Vec([], old(m_SlowPathList.capacity))
      ensures m_LengthVec == Vec([], old(m_LengthVec.capacity)) && m_ContextArena == [] && rules == []
      ensures m_nPatternCount == 0 && m_nGlobalMinMatchLength == MAXUINT32 && !m_bWildCardPresent
      ensures forall i :: 0 <= i < HashFilter.WORDS ==> m_HashFilter[i] == 0
    {
      m_SlowPathList, m_LengthVec := Vec([], m_SlowPathList.capacity), Vec([], m_LengthVec.capacity);
      m_ContextArena, rules := [], [];
      m_nPatternCount, m_nGlobalMinMatchLength, m_bWildCardPresent := 0, MAXUINT32, false;
      for i := 0 to HashFilter.WORDS
        invariant forall k :: 0 <= k < i ==> m_HashFilter[k] == 0
        modifies m_HashFilter
      {
        m_HashFilter[i] := 0;
      }
    }

    method ClearMapAndArena()
      requires Separate() && m_HashMap.Valid() && m_StringArena.Valid()
      modifies m_HashMap, m_HashMap.ctrl, m_StringArena
      ensures m_HashMap.Valid() && m_HashMap.entries == map[] && m_HashMap.capacity == old(m_HashMap.capacity)
      ensures m_HashMap.ctrl == old(m_HashMap.ctrl) && m_HashMap.slots == old(m_HashMap.slots)
      ensures m_StringArena.Valid() && m_StringArena.state == State([], [], []) && m_StringArena.Repr == {}
    {
      hide Tables.Table, Pow2, Layout, MaxLoadOf;
      m_HashMap.Clear();
      m_StringArena.Clear();
    }

    /** Resets the engine to empty. */
    method Clear()
      requires Valid()
      modifies this, m_HashFilter, m_HashMap, m_HashMap.ctrl, m_StringArena
      ensures Valid() && rules == [] && Fields() == EmptyIndex(0)
      ensures m_SlowPathList.capacity == old(m_SlowPathList.capacity)
      ensures m_LengthVec.capacity == old(m_LengthVec.capacity) && m_HashMap.capacity == old(m_HashMap.capacity)
      ensures m_StringArena.state == State([], [], []) && m_StringArena.Repr == {}
      ensures m_HashMap.ctrl == old(m_HashMap.ctrl) && m_HashMap.slots == old(m_HashMap.slots)
    {
      hide Indexed, KFlatHashMap.Valid, KStringArena.Valid, Backed, Sound;
      ClearMapAndArena();
      ResetFields();
      assert m_HashFilter[..] == EmptyIndex(0).filter;
      EmptyIsIndexed(mode, Fields());
      NothingBacked(m_StringArena.state);
    }
  }

  lemma BackedByOneMore(s: State, rules: seq<Rule>, g: Rule, q: Rule)
    requires Backed(s, rules) && Anchored(s, g) && Kept(s, g)
    requires q == g.(entry := q.entry) && q.entry == g.entry.(firstLiteral := q.entry.firstLiteral)
    ensures Backed(s, rules + [q])
  {
  }

  lemma InsertedKeeps(lengths: seq<nat>, it: nat, length: nat)
    requires Ascending(lengths) && it <= |lengths|
    requires forall j :: 0 <= j < it ==> lengths[j] < length
    requires it < |lengths| ==> length < lengths[it]
    ensures Ascending(lengths[..it] + [length] + lengths[it..])
    ensures forall n :: n in lengths ==> n in lengths[..it] + [length] + lengths[it..]
  {
    assert lengths == lengths[..it] + lengths[it..];
  }

  lemma SizesKept(m: Mode, g: Rule)
    requires Stored(m, g)
    ensures g.entry.literalPrefix.length == |g.parts.prefix| && g.entry.wildcardSuffix.length == |g.parts.suffix|
    ensures g.entry.minWildcardMatchLength == g.parts.minLength
  {
  }

  lemma IsWithFast(m: Mode, s: IndexState, t: IndexState, g: Rule, hash: bv64)
    requires |s.filter| == HashFilter.WORDS && Stored(m, g) && hash == PrefixHash(m, g)
    requires t.count == s.count + 1 && t.wild == (s.wild || g.entry.wildcardSuffix.length != 0)
    requires t.globalMin == Lower(s.globalMin, g.entry.literalPrefix.length + g.entry.minWildcardMatchLength)
    requires t.lengths == s.lengths && t.slow == s.slow && t.contexts == s.contexts
    requires t.buckets == s.buckets[HashKey(hash) := Pushed(VectorOf(s.buckets, hash), g.entry)]
    requires t.filter == HashFilter.Add(s.filter, hash)
    ensures t == WithFast(m, s, g)
  {
    hide Stored, PrefixHash, BucketOf, HashFilter.Add;
    SizesKept(m, g);
  }

  lemma ChainOf(t: State, s: State)
    requires |s.usage| == |s.chain| && |t.usage| == |t.chain| && Extends(t, s)
    ensures s.chain <= t.chain
  {
  }

  lemma StoredWithContext(m: Mode, g: Rule, q: Rule)
    requires Stored(m, g) && q == g.(entry := g.entry.(id := q.entry.id, contextIndex := q.entry.contextIndex))
    ensures Stored(m, q)
  {
  }

  /** The lengths tell which patterns begin with a wildcard. */
  lemma SlowEntry(m: Mode, g: Rule)
    requires Stored(m, g)
    ensures IsSlow(g.raw) <==> g.entry.literalPrefix.length == 0 && g.entry.wildcardSuffix.length > 0
  {
    LiteralsFit(g.raw, 0);
  }

  lemma PowerOf18()
    ensures Pow2(18) == MAX_SLOTS
  {
    assert Pow2(9) == 512;
  }

  lemma Below18(log: nat)
    requires Pow2(log) < Pow2(18)
    ensures 2 * Pow2(log) <= Pow2(18)
  {
    hide Pow2;
    if log >= 18 {
      Pow2Grows(18, log);
    } else {
      Pow2Grows(log, 18);
    }
  }

  lemma NothingBacked(s: State)
    ensures Backed(s, [])
  {
  }
}
