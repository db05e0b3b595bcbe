/** The 1024-bit hash-existence filter. */
module HashFilter {

  const WORDS: nat := 16

  function WordOf(hash: bv64): (i: nat)
    ensures i < WORDS
  {
    ((hash >> 6) & 15) as nat
  }

  function SetBit(word: bv64, hash: bv64): bv64 {
    word | (1 << ((hash & 63) as bv7))
  }

  predicate TestBit(word: bv64, hash: bv64) {
    (word >> ((hash & 63) as bv7)) & 1 == 1
  }

  predicate Test(filter: seq<bv64>, hash: bv64)
    requires |filter| == WORDS
  {
    TestBit(filter[WordOf(hash)], hash)
  }

  function Add(filter: seq<bv64>, hash: bv64): (r: seq<bv64>)
    requires |filter| == WORDS
    ensures |r| == WORDS
  {
    filter[WordOf(hash) := SetBit(filter[WordOf(hash)], hash)]
  }

  lemma SetBitExact(word: bv64, hash: bv64, other: bv64)
    ensures TestBit(SetBit(word, hash), other) <==> TestBit(word, other) || other & 63 == hash & 63
  {
  }

  lemma SamePlace(hash: bv64, other: bv64)
    ensures other & 1023 == hash & 1023 <==> other & 63 == hash & 63 && (other >> 6) & 15 == (hash >> 6) & 15
  {
  }

  /** Adding a hash marks exactly the hashes with the same ten low bits, and removes none. */
  lemma AddExact(filter: seq<bv64>, hash: bv64, other: bv64)
    requires |filter| == WORDS
    ensures Test(Add(filter, hash), other) <==> Test(filter, other) || other & 1023 == hash & 1023
  {
    hide SetBit, TestBit;
    SamePlace(hash, other);
    SetBitExact(filter[WordOf(hash)], hash, other);
  }

  /** A new filter holds nothing. */
  lemma NothingHeld(filter: seq<bv64>, hash: bv64)
    requires |filter| == WORDS && forall i :: 0 <= i < WORDS ==> filter[i] == 0
    ensures !Test(filter, hash)
  {
  }
}
