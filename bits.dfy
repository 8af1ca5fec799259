/**
 * The 64-bit leaf bitmap (`ui64`) and the handful of word operations the
 * leaves apply to it. A word is given by its 64 bits, bit i being
 * `(w >> i) & 1`; every operator is defined bit by bit, so `1ULL << i`,
 * `~0ULL << k`, `&`, `|`, `~`, `countr_zero` and `countl_zero` keep their
 * C++ meaning for shift amounts below 64.
 */
module Bits {
  const WordBits: nat := 64

  type Word = w: seq<bool> | |w| == WordBits witness seq(WordBits, _ => false)

  /** `0ULL` */
  function Zero(): Word
  {
    seq(WordBits, _ => false)
  }

  /** `1ULL << i` */
  function Single(i: nat): Word
    requires i < WordBits
  {
    seq(WordBits, j => j == i)
  }

  /** `0xFFFFFFFFFFFFFFFFu << k` */
  function OnesFrom(k: nat): Word
    requires k < WordBits
  {
    seq(WordBits, j => j >= k)
  }

  /** `a & b` */
  function And(a: Word, b: Word): Word
  {
    seq(WordBits, j requires 0 <= j < WordBits => a[j] && b[j])
  }

  /** `a | b` */
  function Or(a: Word, b: Word): Word
  {
    seq(WordBits, j requires 0 <= j < WordBits => a[j] || b[j])
  }

  /** `~a` */
  function Not(a: Word): Word
  {
    seq(WordBits, j requires 0 <= j < WordBits => !a[j])
  }

  /** The set of bit positions that are set: the keys a leaf bitmap stands for. */
  ghost function Elems(w: Word): set<int>
  {
    set i: int | 0 <= i < WordBits && w[i]
  }

  /** `w != 0` */
  predicate NonZero(w: Word)
  {
    exists i :: 0 <= i < WordBits && w[i]
  }

  /** The lowest set bit at or above position k, or 64. */
  function LowestFrom(w: Word, k: nat): (r: nat)
    requires k <= WordBits
    ensures k <= r <= WordBits
    ensures r < WordBits ==> w[r]
    ensures forall j | k <= j < r :: !w[j]
    decreases WordBits - k
  {
    if k == WordBits then WordBits
    else if w[k] then k
    else LowestFrom(w, k + 1)
  }

  /** The highest set bit below position k, or -1. */
  function HighestBelow(w: Word, k: nat): (r: int)
    requires k <= WordBits
    ensures -1 <= r < k
    ensures r >= 0 ==> w[r]
    ensures forall j | r < j < k :: !w[j]
  {
    if k == 0 then -1
    else if w[k - 1] then k - 1
    else HighestBelow(w, k - 1)
  }

  /** `custom::countr_zero`: 64 for a zero word, else the lowest set bit. */
  function CountrZero(w: Word): (r: nat)
    ensures r <= WordBits
    ensures r == WordBits <==> Elems(w) == {}
    ensures r < WordBits ==> r in Elems(w) && forall j | j in Elems(w) :: r <= j
  {
    NonZeroElems(w);
    if !NonZero(w) then WordBits else LowestFrom(w, 0)
  }

  /** `custom::countl_zero`: 64 for a zero word, else 63 minus the highest set bit. */
  function CountlZero(w: Word): (r: nat)
    ensures r <= WordBits
    ensures r == WordBits <==> Elems(w) == {}
    ensures r < WordBits ==> 63 - r in Elems(w) && forall j | j in Elems(w) :: j <= 63 - r
  {
    NonZeroElems(w);
    if !NonZero(w) then WordBits else 63 - HighestBelow(w, WordBits)
  }

  // ---- what each operator does to the set of positions ----

  lemma ElemsZero()
    ensures Elems(Zero()) == {}
  {}

  lemma ElemsSingle(i: nat)
    requires i < WordBits
    ensures Elems(Single(i)) == {i}
  {}

  lemma ElemsOnesFrom(k: nat)
    requires k < WordBits
    ensures forall j :: j in Elems(OnesFrom(k)) <==> k <= j < WordBits
  {}

  lemma ElemsAnd(a: Word, b: Word)
    ensures Elems(And(a, b)) == Elems(a) * Elems(b)
  {}

  lemma ElemsOr(a: Word, b: Word)
    ensures Elems(Or(a, b)) == Elems(a) + Elems(b)
  {}

  lemma ElemsNot(a: Word)
    ensures forall j :: j in Elems(Not(a)) <==> 0 <= j < WordBits && j !in Elems(a)
  {}

  /** `w & ~(1ULL << i)` clears exactly bit i. */
  lemma ElemsClear(w: Word, i: nat)
    requires i < WordBits
    ensures Elems(And(w, Not(Single(i)))) == Elems(w) - {i}
  {}

  lemma NonZeroElems(w: Word)
    ensures NonZero(w) <==> Elems(w) != {}
  {
    if NonZero(w) {
      var i :| 0 <= i < WordBits && w[i];
      assert i in Elems(w);
    }
  }

  /** Only the zero word stands for no position. */
  lemma ElemsInjectiveAtZero(w: Word)
    requires Elems(w) == {}
    ensures w == Zero()
  {
    forall j | 0 <= j < WordBits
      ensures w[j] == Zero()[j]
    {
      assert j !in Elems(w);
    }
  }
}
