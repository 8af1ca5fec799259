/**
 * The abstract meaning shared by every van Emde Boas variant: a node stands
 * for a finite set of keys, `-1` is the "no key" answer, and `min`/`max`
 * fields, successor and predecessor are judged against that set.
 */
module VebSpec {
  /** The source's "no key" value for `min`, `max`, successor and predecessor. */
  const None: int := -1

  /** m is the least key of the set, or -1 for the empty set. */
  ghost predicate IsMinOf(m: int, keys: set<int>)
  {
    (keys == {} && m == None) || (m in keys && forall k | k in keys :: m <= k)
  }

  /** m is the greatest key of the set, or -1 for the empty set. */
  ghost predicate IsMaxOf(m: int, keys: set<int>)
  {
    (keys == {} && m == None) || (m in keys && forall k | k in keys :: k <= m)
  }

  /** r is the smallest key strictly above x, or -1 when there is none. */
  ghost predicate IsSuccessor(r: int, keys: set<int>, x: int)
  {
    (r == None && forall k | k in keys :: k <= x)
    || (r in keys && x < r && forall k | k in keys && x < k :: r <= k)
  }

  /** r is the largest key strictly below x, or -1 when there is none. */
  ghost predicate IsPredecessor(r: int, keys: set<int>, x: int)
  {
    (r == None && forall k | k in keys :: x <= k)
    || (r in keys && r < x && forall k | k in keys && k < x :: k <= r)
  }

  /** Every key lies in the universe `[0, u)`. */
  ghost predicate InUniverse(keys: set<int>, u: int)
  {
    forall k | k in keys :: 0 <= k < u
  }

  /** The answer is unique: successor and predecessor are functions of the set. */
  lemma SuccessorUnique(r1: int, r2: int, keys: set<int>, x: int)
    requires IsSuccessor(r1, keys, x) && IsSuccessor(r2, keys, x)
    ensures r1 == r2
  {
    if r1 != None && r2 != None {
      assert r1 <= r2 && r2 <= r1;
    }
  }

  lemma PredecessorUnique(r1: int, r2: int, keys: set<int>, x: int)
    requires IsPredecessor(r1, keys, x) && IsPredecessor(r2, keys, x)
    ensures r1 == r2
  {
    if r1 != None && r2 != None {
      assert r1 <= r2 && r2 <= r1;
    }
  }

  /** A key outside `[min, max]` is absent, and inside a one-key range it
      is the key. */
  lemma RangeKeys(keys: set<int>, min: int, max: int, x: int)
    requires IsMinOf(min, keys) && IsMaxOf(max, keys) && 0 <= x
    ensures x > max || x < min ==> x !in keys
    ensures min == max && min <= x <= max ==> keys == {x}
  {
    if min == max && min <= x <= max {
      assert x == min && min in keys;
      assert forall k | k in keys :: k == x;
    }
  }

  /** How the keys, `min` and `max` of a node with at least two keys
      relate before and after deleting x, where y is the key that leaves
      the clusters and m1 the new `min`. */
  lemma DelSeveralKeys(keys: set<int>, m0: int, max: int, x: int, y: int, m1: int)
    requires IsMinOf(m0, keys) && IsMaxOf(max, keys) && 0 <= m0 != max && m0 <= x <= max
    requires x == m0 ==> IsMinOf(y, keys - {m0}) && m1 == y
    requires x != m0 ==> y == x && m1 == m0
    ensures (keys - {x}) - {m1} == (keys - {m0}) - {y}
    ensures keys - {x} == (keys - {m0}) - {y} + {m1} && m1 in keys
    ensures IsMinOf(m1, keys - {x}) && m1 != None
    ensures forall k | k in (keys - {m0}) - {y} :: m1 < k
    ensures y == max ==> forall k | k in (keys - {m0}) - {y} :: k < y
    ensures y != max ==> IsMaxOf(max, keys - {x})
  {
    assert max in keys - {m0};
  }

  /** How the keys, `min` and `max` of a node with keys relate before and
      after inserting: `least` is the new `min` and y the key that goes
      below it (the inserted key, or the old `min` it displaced). */
  lemma InsertKeys(keys: set<int>, min: int, max: int, least: int, y: int)
    requires IsMinOf(min, keys) && IsMaxOf(max, keys) && min != None
    requires (least == min && min < y) || (0 <= least < min && y == min)
    ensures IsMinOf(least, keys + {least, y}) && least != None
    ensures IsMaxOf(if y > max then y else max, keys + {least, y})
    ensures keys + {least, y} - {least} == keys - {min} + {y}
  {}
}
