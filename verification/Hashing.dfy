/** The block hash of literal prefixes, computed whole at registration and incrementally at search. */
module Hashing {
  import opened Bits
  import opened Blocks
  import opened Characters
  import NarrowLanes
  import WideLanes

  // ---------------------------------------------------------------------------------------------
  // Mix64
  // ---------------------------------------------------------------------------------------------

  const TWO32: nat := 0x1_0000_0000
  const TWO64: nat := 0x1_0000_0000_0000_0000
  const PRIME: nat := 0x8bb84b93962eacc9

  /** The low and high words of the 128-bit product, as _umul128 and __umulh return them. */
  function Product(state: nat): (r: (nat, nat))
    requires state < TWO64
    ensures r.0 < TWO64 && r.1 < TWO64
    ensures r.0 + r.1 * 0x1_0000_0000_0000_0000 == state * 0x8bb84b93962eacc9
  {
    assert state * PRIME < TWO64 * TWO64;
    (state * PRIME % TWO64, state * PRIME / TWO64)
  }

  /** The 32-bit fallback: four partial products and a carry column, every word kept to its width. */
  function ProductFrom32(state: nat): (r: (nat, nat))
    requires state < TWO64
  {
    var (al, ah) := (state % TWO32, state / TWO32);
    var (bl, bh) := (PRIME % TWO32, PRIME / TWO32);
    AddColumns(al * bl, ah * bl, al * bh, ah * bh)
  }

  function AddColumns(ll: nat, hl: nat, lh: nat, hh: nat): (r: (nat, nat)) {
    var cross := (ll / TWO32 + hl % TWO32 + lh % TWO32) % TWO64;
    var upper := (hl / TWO32 + lh / TWO32 + cross / TWO32 + hh) % TWO64;
    var lower := cross * TWO32 % TWO64 + ll % TWO32;
    (lower, upper)
  }

  lemma Quotient(p: nat, low: nat, high: nat)
    requires p == low + high * TWO64 && low < TWO64
    ensures p % TWO64 == low && p / TWO64 == high
  {
  }

  lemma Columns(ll: nat, hl: nat, lh: nat, hh: nat, cross: nat)
    requires cross == ll / TWO32 + hl % TWO32 + lh % TWO32
    ensures ll + (hl + lh) * TWO32 + hh * TWO64 ==
            ll % TWO32 + cross % TWO32 * TWO32 + (hl / TWO32 + lh / TWO32 + cross / TWO32 + hh) * TWO64
  {
    assert ll == ll / TWO32 * TWO32 + ll % TWO32;
    assert hl == hl / TWO32 * TWO32 + hl % TWO32;
    assert lh == lh / TWO32 * TWO32 + lh % TWO32;
    assert cross == cross / TWO32 * TWO32 + cross % TWO32;
  }

  /** No column overflows its word, so the two words are those of the exact sum. */
  lemma ColumnsExact(ll: nat, hl: nat, lh: nat, hh: nat, p: nat)
    requires p == ll + (hl + lh) * TWO32 + hh * TWO64 && p < TWO64 * TWO64
    requires ll < TWO64
    ensures AddColumns(ll, hl, lh, hh) == (p % TWO64, p / TWO64)
  {
    var cross := ll / TWO32 + hl % TWO32 + lh % TWO32;
    var low := ll % TWO32 + cross % TWO32 * TWO32;
    var high := hl / TWO32 + lh / TWO32 + cross / TWO32 + hh;
    Columns(ll, hl, lh, hh, cross);
    Quotient(p, low, high);
    Quotient(cross * TWO32, cross % TWO32 * TWO32, cross / TWO32);
    Small(cross);
    Small(high);
  }

  lemma Small(x: nat)
    requires x < TWO64
    ensures x % TWO64 == x
  {
  }

  lemma Expand(a: nat, b: nat, c: nat, d: nat)
    ensures (a + b * TWO32) * (c + d * TWO32) == a * c + (b * c + a * d) * TWO32 + b * d * TWO64
  {
    var u := c + d * TWO32;
    assert (a + b * TWO32) * u == a * u + b * u * TWO32;
    assert a * u == a * c + a * d * TWO32;
    assert b * u == b * c + b * d * TWO32;
  }

  /** Both builds mix the same words. */
  lemma FallbackIsProduct(state: nat)
    requires state < TWO64
    ensures ProductFrom32(state) == Product(state)
  {
    hide AddColumns;
    var (al, ah) := (state % TWO32, state / TWO32);
    var (bl, bh) := (PRIME % TWO32, PRIME / TWO32);
    Expand(al, ah, bl, bh);
    assert al * bl < TWO64;
    ColumnsExact(al * bl, ah * bl, al * bh, ah * bh, state * PRIME);
  }

  function Mix64(state: bv64): bv64 {
    var (low, high) := Product(state as nat);
    (low as bv64) ^ (high as bv64)
  }

  /** The step mixes both words of the product: the multiplier is 0x8bb84b93962eacc9. */
  lemma MixesWords(state: bv64, low: nat, high: nat)
    requires low < 0x1_0000_0000_0000_0000
    requires low + high * 0x1_0000_0000_0000_0000 == state as nat * 0x8bb84b93962eacc9
    ensures high < 0x1_0000_0000_0000_0000 && Mix64(state) == (low as bv64) ^ (high as bv64)
  {
    hide Product;
    WordsOf(state as nat, low, high);
    assert Product(state as nat) == (low, high);
  }

  lemma WordsOf(state: nat, low: nat, high: nat)
    requires state < TWO64 && low < TWO64 && low + high * TWO64 == state * 0x8bb84b93962eacc9
    ensures Product(state) == (low, high) && high < TWO64
  {
    Quotient(state * PRIME, low, high);
  }

  // ---------------------------------------------------------------------------------------------
  // CalculateHash
  // ---------------------------------------------------------------------------------------------

  /** The character moved to lane j. */
  function Shifted(m: Mode, c: Char, j: nat): bv64
    requires j < BlockLength(m)
  {
    if m.wide then WideLanes.Place(c, j) else NarrowLanes.Place(c, j)
  }

  /** One step of the hash: mixes a word into the state. */
  function MixIn(m: Mode, hash: bv64, w: bv64): bv64 {
    m.mix(hash ^ w)
  }

  /** The k characters from s on, packed lowest first. */
  function Pack(m: Mode, chars: seq<Char>, s: nat, k: nat): bv64
    requires k <= BlockLength(m) && s + k <= |chars|
  {
    if k == 0 then 0
    else if k == 1 then Shifted(m, chars[s], 0)
    else Or(Pack(m, chars, s, k - 1), Shifted(m, chars[s + k - 1], k - 1))
  }

  /** The state after n full blocks, from the state prev. */
  function HashBlocks(m: Mode, prev: bv64, chars: seq<Char>, n: nat): bv64
    requires n * BlockLength(m) <= |chars|
  {
    if n == 0 then
      prev
    else
      assert (n - 1) * BlockLength(m) + BlockLength(m) == n * BlockLength(m);
      MixIn(m, HashBlocks(m, prev, chars, n - 1), Load(m, chars, (n - 1) * BlockLength(m)))
  }

  /** The hash of the first length characters, from the state prev. */
  function HashFrom(m: Mode, prev: bv64, chars: seq<Char>, length: nat): bv64
    requires length <= |chars|
  {
    var chunks := length / BlockLength(m);
    var rest := length % BlockLength(m);
    if rest == 0 then HashBlocks(m, prev, chars, chunks)
    else MixIn(m, HashBlocks(m, prev, chars, chunks), Pack(m, chars, chunks * BlockLength(m), rest))
  }

  /** The prefix hash: the seed is 0. */
  function HashOf(m: Mode, chars: seq<Char>, length: nat): bv64
    requires length <= |chars|
  {
    HashFrom(m, 0, chars, length)
  }

  /** Equal prefixes have equal hashes. */
  lemma SamePrefixSameHash(m: Mode, chars: seq<Char>, others: seq<Char>, length: nat)
    requires length <= |chars| && length <= |others| && chars[..length] == others[..length]
    ensures HashOf(m, chars, length) == HashOf(m, others, length)
  {
    hide MixIn, Blocks.Load, Pack;
    var chunks := length / BlockLength(m);
    SameBlocks(m, chars, others, chunks);
    SamePack(m, chars, others, chunks * BlockLength(m), length % BlockLength(m));
  }

  lemma {:induction false} SameBlocks(m: Mode, chars: seq<Char>, others: seq<Char>, n: nat)
    requires n * BlockLength(m) <= |chars| && n * BlockLength(m) <= |others|
    requires forall i :: 0 <= i < n * BlockLength(m) ==> chars[i] == others[i]
    ensures HashBlocks(m, 0, chars, n) == HashBlocks(m, 0, others, n)
  {
    hide MixIn, Blocks.Load;
    if n > 0 {
      SameBlocks(m, chars, others, n - 1);
      assert (n - 1) * BlockLength(m) + BlockLength(m) == n * BlockLength(m);
      SameLoad(m, chars, others, (n - 1) * BlockLength(m));
    }
  }

  lemma {:induction false} SamePack(m: Mode, chars: seq<Char>, others: seq<Char>, s: nat, k: nat)
    requires k <= BlockLength(m) && s + k <= |chars| && s + k <= |others|
    requires forall i :: s <= i < s + k ==> chars[i] == others[i]
    ensures Pack(m, chars, s, k) == Pack(m, others, s, k)
  {
    hide Or, Shifted;
    if k > 0 {
      SamePack(m, chars, others, s, k - 1);
    }
  }

  lemma SameLoad(m: Mode, chars: seq<Char>, others: seq<Char>, s: nat)
    requires s + BlockLength(m) <= |chars| && s + BlockLength(m) <= |others|
    requires forall i :: s <= i < s + BlockLength(m) ==> chars[i] == others[i]
    ensures Load(m, chars, s) == Load(m, others, s)
  {
    assert chars[s] == others[s] && chars[s + 1] == others[s + 1] && chars[s + 2] == others[s + 2] &&
        chars[s + 3] == others[s + 3];
    if !m.wide {
      assert chars[s + 4] == others[s + 4] && chars[s + 5] == others[s + 5] && chars[s + 6] == others[s + 6] &&
          chars[s + 7] == others[s + 7];
    }
  }

  /** A whole block packed character by character is the loaded word. */
  lemma PackIsLoad(m: Mode, chars: seq<Char>, s: nat)
    requires s + BlockLength(m) <= |chars|
    ensures Pack(m, chars, s, BlockLength(m)) == Load(m, chars, s)
  {
    hide Or, WideLanes.Place, NarrowLanes.Place;
    assert Pack(m, chars, s, 1) == Shifted(m, chars[s], 0);
    assert Pack(m, chars, s, 3) == Or(Or(Shifted(m, chars[s], 0), Shifted(m, chars[s + 1], 1)),
                                      Shifted(m, chars[s + 2], 2));
    if !m.wide {
      assert Pack(m, chars, s, 5) == Or(Or(Pack(m, chars, s, 3), Shifted(m, chars[s + 3], 3)),
                                        Shifted(m, chars[s + 4], 4));
      assert Pack(m, chars, s, 7) == Or(Or(Pack(m, chars, s, 5), Shifted(m, chars[s + 5], 5)),
                                        Shifted(m, chars[s + 6], 6));
    }
  }

  /** Packs the characters left over after the last full block. */
  method PackRest(m: Mode, text: seq<Char>, s: nat, k: nat, fold: bool) returns (tail: bv64)
    requires k <= BlockLength(m) && s + k <= |text|
    ensures tail == Pack(m, if fold then FoldAll(m, text) else text, s, k)
  {
    hide Or, Shifted, ToUpperFast;
    tail := 0;
    for j := 0 to k
      invariant tail == Pack(m, if fold then FoldAll(m, text) else text, s, j)
    {
      var c := if fold then Fold(m, text[s + j]) else text[s + j];
      OrIdentities(Shifted(m, c, j));
      tail := Or(tail, Shifted(m, c, j));
    }
  }

  /** The hash of a whole text from a given state; a stored prefix is hashed from 0. */
  method CalculateHash(m: Mode, chars: seq<Char>, prevHash: bv64) returns (hash: bv64)
    ensures hash == HashFrom(m, prevHash, chars, |chars|)
  {
    hide MixIn, Blocks.Load;
    var n := BlockLength(m);
    var chunks := |chars| / n;
    hash := prevHash;
    for i := 0 to chunks
      invariant hash == HashBlocks(m, prevHash, chars, i)
    {
      hash := MixIn(m, hash, Load(m, chars, i * n));
    }
    var rest := |chars| - chunks * n;
    if rest > 0 {
      var tail := PackRest(m, chars, chunks * n, rest, false);
      hash := MixIn(m, hash, tail);
    }
  }

  /** The next text block as the search hashes it: folded as a word or character by character. */
  method FoldedBlock(m: Mode, text: seq<Char>, s: nat) returns (w: bv64)
    requires IsText(m, text) && s + BlockLength(m) <= |text|
    ensures w == Load(m, FoldAll(m, text), s)
  {
    hide Blocks.IsAsciiSwar, Blocks.ToUpperSwar, Blocks.Holds, Blocks.Load;
    w := Load(m, text, s);
    if m.insensitive {
      ghost var b, c := text[s..s + BlockLength(m)], FoldAll(m, text)[s..s + BlockLength(m)];
      assert c == FoldAll(m, b);
      if IsAsciiSwar(m, w) {
        LoadHolds(m, text, s);
        ToUpperHolds(m, w, b);
        FoldedText(m, text);
        LoadHolds(m, FoldAll(m, text), s);
        w := ToUpperSwar(m, w);
        SameBlock(m, w, c, Load(m, FoldAll(m, text), s), c);
      } else {
        w := PackRest(m, text, s, BlockLength(m), true);
        PackIsLoad(m, FoldAll(m, text), s);
      }
    } else {
      assert FoldAll(m, text) == text;
    }
  }

  lemma FoldedText(m: Mode, text: seq<Char>)
    requires IsText(m, text)
    ensures IsText(m, FoldAll(m, text))
  {
  }

  /** Advances the chunk state of the search to the full blocks below the next length. */
  method AdvanceChunks(m: Mode, text: seq<Char>, chunkHash: bv64, currentChunk: nat, targetChunks: nat)
    returns (hash: bv64)
    requires IsText(m, text) && currentChunk <= targetChunks && targetChunks * BlockLength(m) <= |text|
    requires currentChunk * BlockLength(m) <= |text| && chunkHash == HashBlocks(m, 0, FoldAll(m, text), currentChunk)
    ensures hash == HashBlocks(m, 0, FoldAll(m, text), targetChunks)
  {
    hide MixIn, Blocks.Load;
    hash := chunkHash;
    for i := currentChunk to targetChunks
      invariant i * BlockLength(m) <= |text| && hash == HashBlocks(m, 0, FoldAll(m, text), i)
    {
      assert i * BlockLength(m) + BlockLength(m) == (i + 1) * BlockLength(m) <= |text|;
      var w := FoldedBlock(m, text, i * BlockLength(m));
      hash := MixIn(m, hash, w);
    }
  }

  /** The hash of the folded text up to length, from the chunk state and the characters left over. */
  method HashFromChunks(m: Mode, text: seq<Char>, chunkHash: bv64, length: nat) returns (hash: bv64)
    requires IsText(m, text) && length <= |text|
    requires chunkHash == HashBlocks(m, 0, FoldAll(m, text), length / BlockLength(m))
    ensures hash == HashOf(m, FoldAll(m, text), length)
  {
    hide MixIn, Blocks.Load, Pack;
    var targetChunks := length / BlockLength(m);
    hash := chunkHash;
    var remainingChars := length - targetChunks * BlockLength(m);
    if remainingChars > 0 {
      var tail := PackRest(m, text, targetChunks * BlockLength(m), remainingChars, m.insensitive);
      if !m.insensitive {
        assert FoldAll(m, text) == text;
      }
      hash := MixIn(m, hash, tail);
    }
  }

  /** The chunk state stands at currentChunk full blocks, none of them past position n. */
  ghost predicate ChunksAt(m: Mode, text: seq<Char>, chunkHash: bv64, currentChunk: nat, n: nat) {
    && currentChunk * BlockLength(m) <= n && currentChunk * BlockLength(m) <= |text|
    && chunkHash == HashBlocks(m, 0, FoldAll(m, text), currentChunk)
  }

  lemma ChunksBegin(m: Mode, text: seq<Char>)
    ensures ChunksAt(m, text, 0, 0, 0)
  {
  }

  lemma ChunksStay(m: Mode, text: seq<Char>, chunkHash: bv64, currentChunk: nat, n: nat, later: nat)
    requires ChunksAt(m, text, chunkHash, currentChunk, n) && n <= later
    ensures ChunksAt(m, text, chunkHash, currentChunk, later)
  {
  }

  /** The incremental hash of the search: moves the chunk state on to length and gives the hash there. */
  method HashAtLength(m: Mode, text: seq<Char>, chunkHash: bv64, currentChunk: nat, length: nat)
    returns (newHash: bv64, newChunk: nat, hash: bv64)
    requires IsText(m, text) && length <= |text| && ChunksAt(m, text, chunkHash, currentChunk, length)
    ensures ChunksAt(m, text, newHash, newChunk, length) && hash == HashOf(m, FoldAll(m, text), length)
  {
    hide HashBlocks, HashOf, Blocks.Load;
    newChunk := length / BlockLength(m);
    newHash := AdvanceChunks(m, text, chunkHash, currentChunk, newChunk);
    hash := HashFromChunks(m, text, newHash, length);
  }

  /** The hash rolls: hashing whole blocks and then the rest from that state hashes the whole. */
  lemma {:induction false} HashRolls(m: Mode, prev: bv64, chars: seq<Char>, n: nat)
    requires n * BlockLength(m) <= |chars|
    ensures var k := n * BlockLength(m);
            HashFrom(m, HashBlocks(m, prev, chars, n), chars[k..], |chars| - k) == HashFrom(m, prev, chars, |chars|)
  {
    hide MixIn, Blocks.Load, Pack;
    var k := n * BlockLength(m);
    var chunks := |chars| / BlockLength(m);
    ChunksLeft(m, |chars|, n);
    BlocksRoll(m, prev, chars, n, chunks - n);
    MovedPack(m, chars, k, (chunks - n) * BlockLength(m), |chars| % BlockLength(m));
    assert k + (chunks - n) * BlockLength(m) == chunks * BlockLength(m);
  }

  lemma ChunksLeft(m: Mode, length: nat, n: nat)
    requires n * BlockLength(m) <= length
    ensures var k := n * BlockLength(m);
            && n <= length / BlockLength(m) && (length - k) / BlockLength(m) == length / BlockLength(m) - n
            && (length - k) % BlockLength(m) == length % BlockLength(m)
  {
  }

  lemma {:induction false} BlocksRoll(m: Mode, prev: bv64, chars: seq<Char>, n: nat, more: nat)
    requires (n + more) * BlockLength(m) <= |chars|
    ensures var k := n * BlockLength(m);
            && more * BlockLength(m) <= |chars| - k
            && HashBlocks(m, HashBlocks(m, prev, chars, n), chars[k..], more) == HashBlocks(m, prev, chars, n + more)
  {
    hide MixIn, Blocks.Load;
    if more > 0 {
      BlocksRoll(m, prev, chars, n, more - 1);
      MovedLoad(m, chars, n * BlockLength(m), (more - 1) * BlockLength(m));
      assert (n + more) * BlockLength(m) == n * BlockLength(m) + (more - 1) * BlockLength(m) + BlockLength(m);
    }
  }

  lemma MovedLoad(m: Mode, chars: seq<Char>, k: nat, s: nat)
    requires k + s + BlockLength(m) <= |chars|
    ensures Load(m, chars[k..], s) == Load(m, chars, k + s)
  {
    hide WideLanes.Place, NarrowLanes.Place, Or;
  }

  lemma {:induction false} MovedPack(m: Mode, chars: seq<Char>, k: nat, s: nat, n: nat)
    requires n <= BlockLength(m) && k + s + n <= |chars|
    ensures Pack(m, chars[k..], s, n) == Pack(m, chars, k + s, n)
  {
    hide Shifted, Or;
    if n > 0 {
      MovedPack(m, chars, k, s, n - 1);
    }
  }
}
