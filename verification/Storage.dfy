/** Where the strings of the registered patterns are kept in the arena, and why rollback never reaches them. */
module Storage {
  import opened Arenas
  import opened Characters
  import opened Globs
  import opened Meaning
  import opened Registration
  import opened Registry

  /** Whether the pool grants each allocation that a registration may ask for. */
  datatype Pool = Pool(stable: bool, tail: bool, context: bool, slow: bool, length: bool, table: bool, bucket: bool)

  /** A pattern string lies in a live block, from its character number from on. */
  ghost predicate Within(s: State, b: Block, from: nat, p: PatternString) {
    && b in s.live && b.slab < |s.chain| && from + p.length <= b.length
    && p.slab == s.chain[b.slab] && p.offset == b.offset + from
  }

  /** The pointers of an entry lead into live blocks: the suffix lies right behind the prefix. */
  ghost predicate Anchored(s: State, g: Rule) {
    && (g.parts.prefix + g.parts.suffix != [] ==>
          Within(s, g.stable, 0, g.entry.literalPrefix) &&
          Within(s, g.stable, |g.parts.prefix|, g.entry.wildcardSuffix))
    && (g.parts.tail != [] ==> Within(s, g.tail, 0, g.entry.tailAnchor))
  }

  /** The blocks hold the strings. */
  ghost predicate Kept(s: State, g: Rule)
    reads set x | x in s.chain :: x.Buffer
  {
    && (g.parts.prefix + g.parts.suffix != [] ==> Holds(s.chain, g.stable, 0, g.parts.prefix + g.parts.suffix))
    && (g.parts.tail != [] ==> Holds(s.chain, g.tail, 0, g.parts.tail))
  }

  ghost predicate Backed(s: State, rules: seq<Rule>)
    reads set x | x in s.chain :: x.Buffer
  {
    forall g :: g in rules ==> Anchored(s, g) && Kept(s, g)
  }

  /** What the search reads through the pointers is what was registered. */
  lemma BackedIsLegible(m: Mode, s: State, g: Rule)
    requires Stored(m, g) && Anchored(s, g) && Kept(s, g)
    ensures Legible(g)
  {
    hide Stored;
    assert g.entry.literalPrefix.length == |g.parts.prefix| && g.entry.wildcardSuffix.length == |g.parts.suffix| &&
           g.entry.tailAnchor.length == |g.parts.tail| by {
      LengthsKept(m, g);
    }
    if g.parts.prefix + g.parts.suffix != [] {
      var x := s.chain[g.stable.slab].Buffer[g.stable.offset..g.stable.offset + |g.parts.prefix + g.parts.suffix|];
      assert x == g.parts.prefix + g.parts.suffix;
      assert x[..|g.parts.prefix|] == g.parts.prefix && x[|g.parts.prefix|..] == g.parts.suffix;
    }
  }

  lemma LengthsKept(m: Mode, g: Rule)
    requires Stored(m, g)
    ensures g.entry.literalPrefix.length == |g.parts.prefix| && g.entry.wildcardSuffix.length == |g.parts.suffix|
    ensures g.entry.tailAnchor.length == |g.parts.tail|
  {
  }

  /** Every old block still holds what it held. */
  twostate predicate Untouched(s: State, new t: State)
    reads set x | x in t.chain :: x.Buffer
  {
    forall b, from, x :: b in s.live && old(Holds(s.chain, b, from, x)) ==> Holds(t.chain, b, from, x)
  }

  /** Carves a block for the text and copies it there. */
  method StoreText(arena: KStringArena, length: nat, text: seq<Char>, pool: bool)
    returns (ok: bool, at: PatternString, ghost block: Block)
    requires arena.Valid() && length == |text|
    modifies arena`m_Head, arena`m_Tail, arena`state, arena`Repr, arena.Repr
    ensures arena.Valid() && Extends(arena.state, old(arena.state)) && Untouched(old(arena.state), arena.state)
    ensures ok ==> at.length == length && Within(arena.state, block, 0, at) && block.length == length
    ensures ok ==> Holds(arena.state.chain, block, 0, text)
    ensures ok <==> Carves(arena.wide, old(arena.Room()), length, pool)
    ensures arena.Room() == if ok then RoomLeft(arena.wide, old(arena.Room()), length) else old(arena.Room())
    ensures old(arena.Repr) <= arena.Repr && fresh(arena.Repr - old(arena.Repr))
  {
    hide Layout, Extends, KStringArena.Linked;
    arena.Owned();
    var slab, offset := arena.Allocate(length, pool);
    at, block := PatternString(slab, offset, length), Block(0, 0, 0);
    if slab == null {
      return false, at, block;
    }
    arena.LastSlab();
    arena.Owned();
    block := arena.state.live[|arena.state.live| - 1];
    arena.Fill(offset, text);
    ok := true;
  }

  lemma {:induction false} LiteralsFit(raw: seq<Char>, p: nat)
    requires p <= |raw|
    ensures |Registration.Literals(raw, p)| <= LiteralsEnd(raw, p) - p
    ensures Registration.Literals(raw, p) == [] <==> LiteralsEnd(raw, p) == p
    decreases |raw| - p
  {
    if p < |raw| && !IsWildcard(raw[p]) {
      LiteralsFit(raw, if IsEscapePair(raw, p) then p + 2 else p + 1);
    }
  }

  /** The parsing phases of a registration: the strings of the pattern and the parts they make up. */
  method ParsePattern(m: Mode, raw: seq<Char>)
    returns (prefix: seq<Char>, wildPart: seq<Char>, lastWildcardEnd: nat, tail: seq<Char>, suffixMinLength: nat)
    requires Sound(m)
    ensures lastWildcardEnd <= |wildPart| && |prefix| + |wildPart| <= |raw| && |tail| <= |raw|
    ensures |prefix + wildPart| == TextLength(raw) && |tail| == TailCount(raw)
    ensures Compiles(m, raw, Parts(prefix, wildPart[..lastWildcardEnd], tail, suffixMinLength))
  {
    hide Compiles, Fold, Parse;
    var prefixRawLen, prefixUnescapedLen := ScanPrefix(raw);
    prefix := CopyLiterals(m, true, raw, 0, prefixRawLen);
    wildPart := CopyWildPart(m, raw, prefixRawLen);
    suffixMinLength := MinimumLength(wildPart);
    lastWildcardEnd := LastWildcardEnd(wildPart);
    var tailUnescapedLen := TailLength(wildPart, lastWildcardEnd);
    tail := CopyLiterals(m, false, wildPart, lastWildcardEnd, |wildPart|);
    assert |prefix| == prefixUnescapedLen && |tail| == tailUnescapedLen;
    LiteralsFit(raw, 0);
    LiteralsFit(wildPart, lastWildcardEnd);
    LastLiteralsFolded(m, raw[prefixRawLen..], 0);
    ScansCompile(m, raw, wildPart, lastWildcardEnd, Parts(prefix, wildPart[..lastWildcardEnd], tail, suffixMinLength));
  }

  /** Storing one more text keeps every registered string. */
  method StoreKept(arena: KStringArena, length: nat, text: seq<Char>, pool: bool, ghost rules: seq<Rule>)
    returns (ok: bool, at: PatternString, ghost block: Block)
    requires arena.Valid() && length == |text| && Backed(arena.state, rules)
    modifies arena`m_Head, arena`m_Tail, arena`state, arena`Repr, arena.Repr
    ensures arena.Valid() && Extends(arena.state, old(arena.state)) && Untouched(old(arena.state), arena.state)
    ensures Backed(arena.state, rules)
    ensures ok ==> at.length == length && Within(arena.state, block, 0, at) && block.length == length
    ensures ok ==> Holds(arena.state.chain, block, 0, text)
    ensures ok <==> Carves(arena.wide, old(arena.Room()), length, pool)
    ensures arena.Room() == if ok then RoomLeft(arena.wide, old(arena.Room()), length) else old(arena.Room())
    ensures old(arena.Repr) <= arena.Repr && fresh(arena.Repr - old(arena.Repr))
  {
    hide Layout, Extends, Holds, KStringArena.Linked;
    arena.LastSlab();
    ok, at, block := StoreText(arena, length, text, pool);
    arena.LastSlab();
    LiveGrows(arena.state, old(arena.state));
    forall q | q in rules
      ensures Anchored(arena.state, q) && Kept(arena.state, q)
    {
      assert old(Anchored(arena.state, q) && Kept(arena.state, q));
    }
  }

  lemma WithinGrows(t: State, s: State, b: Block, from: nat, p: PatternString)
    requires |s.usage| == |s.chain| && |t.usage| == |t.chain| && Extends(t, s) && Within(s, b, from, p)
    ensures Within(t, b, from, p)
  {
  }

  lemma LiveGrows(t: State, s: State)
    requires |s.usage| == |s.chain| && |t.usage| == |t.chain| && Extends(t, s)
    ensures s.chain <= t.chain && forall b :: b in s.live ==> b in t.live
  {
  }

  /** The room left behind a string that is stored only if it has characters. */
  function RoomBehind(wide: bool, room: int, length: nat): int {
    if length == 0 then room else RoomLeft(wide, room, length)
  }

  /** The text and then the tail get their memory: a slab is asked for only where the last one is too full. */
  predicate StringsFit(wide: bool, room: int, length: nat, tailLength: nat, pool: Pool) {
    && (length == 0 || Carves(wide, room, length, pool.stable))
    && (tailLength == 0 || Carves(wide, RoomBehind(wide, room, length), tailLength, pool.tail))
  }

  /** The characters of a pattern's stored text, and of its tail anchor. */
  function TextLength(raw: seq<Char>): nat {
    |Registration.Literals(raw, 0)| + (|raw| - LiteralsEnd(raw, 0))
  }

  function TailCount(raw: seq<Char>): nat {
    |LastLiterals(raw[LiteralsEnd(raw, 0)..], 0)|
  }

  /** The bound AddPattern puts on a pattern's length. */
  function LongestPattern(wide: bool): nat {
    (MAXULONG_PTR - MIN_SLAB) / CharSize(wide)
  }

  /** A pattern of admitted length gets its memory when the pool grants it: no guard of the arena is in the way. */
  lemma AdmittedFits(wide: bool, room: int, raw: seq<Char>, pool: Pool)
    requires |raw| <= LongestPattern(wide) && pool.stable && pool.tail
    ensures StringsFit(wide, room, TextLength(raw), TailCount(raw), pool)
  {
    hide RoomLeft, RoundUp;
    LiteralsFit(raw, 0);
    LastLiteralsFit(raw[LiteralsEnd(raw, 0)..], 0);
  }

  lemma {:induction false} LastLiteralsFit(raw: seq<Char>, p: nat)
    requires p <= |raw|
    ensures |LastLiterals(raw, p)| <= |raw| - p
    decreases |raw| - p
  {
    LiteralsFit(raw, p);
    if LiteralsEnd(raw, p) < |raw| {
      LastLiteralsFit(raw, LiteralsEnd(raw, p) + 1);
    }
  }

  /** The same when there is text at all. */
  method StoreIfAny(arena: KStringArena, text: seq<Char>, pool: bool, ghost rules: seq<Rule>)
    returns (ok: bool, at: PatternString, ghost block: Block)
    requires arena.Valid() && Backed(arena.state, rules)
    modifies arena`m_Head, arena`m_Tail, arena`state, arena`Repr, arena.Repr
    ensures arena.Valid() && Extends(arena.state, old(arena.state)) && Untouched(old(arena.state), arena.state)
    ensures Backed(arena.state, rules) && (ok ==> at.length == |text|)
    ensures ok && text != [] ==> Within(arena.state, block, 0, at) && block.length == |text|
    ensures ok && text != [] ==> Holds(arena.state.chain, block, 0, text)
    ensures ok <==> text == [] || Carves(arena.wide, old(arena.Room()), |text|, pool)
    ensures ok ==> arena.Room() == RoomBehind(arena.wide, old(arena.Room()), |text|)
    ensures old(arena.Repr) <= arena.Repr && fresh(arena.Repr - old(arena.Repr))
  {
    hide Layout, Extends, KStringArena.Linked;
    arena.LastSlab();
    ExtendsItself(arena.state);
    ok, at, block := true, PatternString(null, 0, 0), Block(0, 0, 0);
    if |text| > 0 {
      ok, at, block := StoreKept(arena, |text|, text, pool, rules);
    }
  }

  /** Carves and fills the two blocks of a pattern, each only if it has characters. */
  method StoreStrings(arena: KStringArena, text: seq<Char>, tail: seq<Char>, pool: Pool, ghost rules: seq<Rule>)
    returns (ok: bool, textAt: PatternString, tailAt: PatternString, ghost stable: Block, ghost tailBlock: Block)
    requires arena.Valid() && Backed(arena.state, rules)
    modifies arena`m_Head, arena`m_Tail, arena`state, arena`Repr, arena.Repr
    ensures arena.Valid() && Extends(arena.state, old(arena.state)) && Backed(arena.state, rules)
    ensures ok && text != [] ==> Within(arena.state, stable, 0, textAt) && textAt.length == stable.length == |text|
    ensures ok && text != [] ==> Holds(arena.state.chain, stable, 0, text)
    ensures ok && tail != [] ==>
              Within(arena.state, tailBlock, 0, tailAt) && Holds(arena.state.chain, tailBlock, 0, tail)
    ensures tailAt.length == |tail| || !ok
    ensures ok <==> StringsFit(arena.wide, old(arena.Room()), |text|, |tail|, pool)
    ensures old(arena.Repr) <= arena.Repr && fresh(arena.Repr - old(arena.Repr))
  {
    hide Layout, Extends, Holds, Kept, Anchored, KStringArena.Linked, Carves, RoomLeft;
    arena.LastSlab();
    tailAt, tailBlock := PatternString(null, 0, 0), Block(0, 0, 0);
    ok, textAt, stable := StoreIfAny(arena, text, pool.stable, rules);
    if !ok {
      return;
    }
    ghost var middle := arena.state;
    arena.LastSlab();
    ok, tailAt, tailBlock := StoreIfAny(arena, tail, pool.tail, rules);
    arena.LastSlab();
    ExtendsTransitive(arena.state, middle, old(arena.state));
    LiveGrows(arena.state, middle);
    if text != [] {
      WithinGrows(arena.state, middle, stable, 0, textAt);
    }
  }

  /**
    The transaction on the arena: the strings are carved and filled. What comes out is the entry, still
    without its context, and the rule it stands for.
   */
  method CompileParts(m: Mode, arena: KStringArena, raw: seq<Char>, segment: bool, pool: Pool, ghost rules: seq<Rule>)
    returns (ok: bool, entry: PatternEntry, ghost g: Rule)
    requires arena.Valid() && Sound(m) && IsText(m, raw)
    requires Backed(arena.state, rules)
    modifies arena`m_Head, arena`m_Tail, arena`state, arena`Repr, arena.Repr
    ensures arena.Valid() && Extends(arena.state, old(arena.state)) && Backed(arena.state, rules)
    ensures ok ==> Stored(m, g) && g.raw == raw && g.segment == segment && g.entry == entry && entry.firstLiteral == 0
    ensures ok <==> StringsFit(arena.wide, old(arena.Room()), TextLength(raw), TailCount(raw), pool)
    ensures ok ==> Anchored(arena.state, g) && Kept(arena.state, g)
    ensures old(arena.Repr) <= arena.Repr && fresh(arena.Repr - old(arena.Repr))
  {
    hide Compiles, Layout, Parse, Extends, KStringArena.Linked;
    var prefix, wildPart, lastWildcardEnd, tail, suffixMinLength := ParsePattern(m, raw);
    var stableAt, tailAt;
    ghost var stable, tailBlock;
    ok, stableAt, tailAt, stable, tailBlock := StoreStrings(arena, prefix + wildPart, tail, pool, rules);
    entry := PatternEntry(stableAt.(length := |prefix|),
                          stableAt.(offset := stableAt.offset + |prefix|, length := lastWildcardEnd),
                          tailAt, 0, 0, suffixMinLength, segment, 0);
    g := Rule(raw, segment, Parts(prefix, wildPart[..lastWildcardEnd], tail, suffixMinLength), entry, stable,
              tailBlock);
    if ok {
      PartOfBlock(arena.state.chain, stable, prefix, wildPart, lastWildcardEnd);
    }
  }

  lemma PartOfBlock(chain: seq<Slab>, b: Block, prefix: seq<Char>, wildPart: seq<Char>, end: nat)
    requires end <= |wildPart| && (prefix + wildPart != [] ==> Holds(chain, b, 0, prefix + wildPart))
    ensures prefix + wildPart[..end] != [] ==> Holds(chain, b, 0, prefix + wildPart[..end])
  {
    if prefix + wildPart != [] {
      var n := |prefix| + end;
      assert (prefix + wildPart)[..n] == prefix + wildPart[..end];
      assert chain[b.slab].Buffer[b.offset..b.offset + n] ==
             chain[b.slab].Buffer[b.offset..b.offset + |prefix + wildPart|][..n];
    }
  }

  /** Rolling back frees no slab that a registered string is in. */
  lemma BackedShrinks(s: State, t: State, rules: seq<Rule>)
    requires s.chain <= t.chain && Backed(t, rules) && forall g :: g in rules ==> Anchored(s, g)
    ensures Backed(s, rules)
  {
    forall g | g in rules
      ensures Kept(s, g)
    {
      assert Anchored(t, g) && Kept(t, g) && Anchored(s, g);
    }
  }
}
