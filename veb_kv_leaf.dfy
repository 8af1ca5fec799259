/**
 * `VebKVLeaf`: the key-value van Emde Boas leaf. Its keys are kept exactly
 * as in `VebKLeaf` (`min`, `max` and a 64-bit bitmap holding every key but
 * `min`); the value of `min` lives in `minVal` and the value of every other
 * key k in slot k of the array `vals`.
 */
module VebKVLeaves {
  import opened Bits
  import opened VebGlobal
  import opened VebSpec

  class KVLeaf<V(0)> {
    const u: int
    var min: int
    var max: int
    var bitmap: Word
    var minVal: V
    /** `new V[u]`, allocated once by the constructor. */
    const vals: array<V>

    /** The key layout of `VebKLeaf`, and one array slot per key of the universe. */
    ghost predicate Valid()
      reads this
    {
      1 <= u <= Cutoff && vals.Length == u
      && (min == None ==> max == None && bitmap == Zero())
      && (min != None ==>
            0 <= min <= max < u
            && min !in Elems(bitmap)
            && (forall i | i in Elems(bitmap) :: min < i <= max)
            && (min < max ==> max in Elems(bitmap)))
    }

    /** The keys this leaf stands for. */
    ghost function Keys(): set<int>
      reads this
    {
      if min == None then {} else {min} + Elems(bitmap)
    }

    /** The key-value pairs this leaf stands for: `min` maps to `minVal`
        and every bitmap key to its slot of `vals`. */
    ghost function Contents(): (m: map<int, V>)
      reads this, vals
      requires Valid()
      ensures m.Keys == Keys()
    {
      map k | k in Keys() :: if k == min then minVal else vals[k]
    }

    lemma KeysFacts()
      requires Valid()
      ensures InUniverse(Keys(), u)
      ensures IsMinOf(min, Keys()) && IsMaxOf(max, Keys())
      ensures (min == None) == (Keys() == {})
    {}

    constructor (u: int)
      requires 1 <= u <= Cutoff
      ensures Valid() && Contents() == map[] && this.u == u && fresh(vals)
    {
      this.u := u;
      min := None;
      max := None;
      bitmap := Zero();
      vals := new V[u];
    }

    /** `makeMeReusable`: back to the empty leaf; the array is kept. */
    method MakeMeReusable()
      requires 1 <= u <= Cutoff && vals.Length == u
      modifies this
      ensures Valid() && Contents() == map[]
      ensures min == None && max == None && bitmap == Zero() && minVal == old(minVal)
    {
      min := None;
      max := None;
      bitmap := Zero();
    }

    /** `member` */
    function Member(x: int): (b: bool)
      reads this
      requires Valid() && 0 <= x < u
      ensures b == (x in Keys())
    {
      ElemsAnd(bitmap, Single(x));
      ElemsSingle(x);
      NonZeroElems(And(bitmap, Single(x)));
      x == min || x == max || NonZero(And(bitmap, Single(x)))
    }

    /** `getValue`: the value of a key that is `max` or the only key; every
        key but a `min` that has company is read from `vals`. */
    function GetValue(x: int): (v: V)
      reads this, vals
      requires Valid() && x in Keys() && (x == min ==> min == max)
      ensures v == Contents()[x]
    {
      if min == max then minVal else vals[x]
    }

    /** `successor`: the smallest key above x with its value. The value half
        of a "no successor" answer is left unspecified. */
    method Successor(x: int) returns (r: int, v: V)
      requires Valid() && 0 <= x < u
      ensures IsSuccessor(r, Keys(), x)
      ensures r != None ==> v == Contents()[r]
    {
      if min == None {
        return None, minVal;
      }
      if x < min {
        return min, minVal;
      }
      if x >= max {
        return None, minVal;
      }
      if min == max {
        return None, minVal;
      }
      var mask := OnesFrom(x + 1);
      ElemsAnd(bitmap, mask);
      ElemsOnesFrom(x + 1);
      assert max in Elems(And(bitmap, mask));
      assert forall k | k in Keys() && x < k :: k in Elems(And(bitmap, mask));
      var consecutiveZerosOnRight := CountrZero(And(bitmap, mask));
      if consecutiveZerosOnRight == WordBits {
        return None, minVal;
      }
      return consecutiveZerosOnRight, vals[consecutiveZerosOnRight];
    }

    /** `predecessor`: the largest key below x with its value; `max` is
        answered from `minVal` when it is the only key. */
    method Predecessor(x: int) returns (r: int, v: V)
      requires Valid() && 0 <= x < u
      ensures IsPredecessor(r, Keys(), x)
      ensures r != None ==> v == Contents()[r]
    {
      if min == None {
        return None, minVal;
      }
      if x > max {
        if min == max {
          return max, minVal;
        }
        return max, vals[max];
      }
      if x <= min {
        return None, minVal;
      }
      if min == max {
        return None, minVal;
      }
      var mask := Not(OnesFrom(x));
      ElemsAnd(bitmap, mask);
      ElemsNot(OnesFrom(x));
      ElemsOnesFrom(x);
      assert forall k | k in Keys() && k < x :: k == min || k in Elems(And(bitmap, mask));
      var consecutiveZerosOnLeft := CountlZero(And(bitmap, mask));
      var firstSetBitBeforeMe := WordBits - consecutiveZerosOnLeft - 1;
      if firstSetBitBeforeMe == None {
        return min, minVal;
      }
      return firstSetBitBeforeMe, vals[firstSetBitBeforeMe];
    }

    /** `insertToEmptyVEB`: the first pair goes into `min`, `max` and `minVal`. */
    method InsertToEmpty(x: int, val: V)
      requires Valid() && Keys() == {} && 0 <= x < u
      modifies this
      ensures Valid() && Contents() == map[x := val]
      ensures min == x && max == x && bitmap == Zero() && minVal == val
    {
      ElemsZero();
      min := x;
      max := x;
      minVal := val;
    }

    /** `upsert`: x maps to val afterwards, whether or not it was present;
        true exactly when x was absent. */
    method Upsert(x: int, val: V) returns (inserted: bool)
      requires Valid() && 0 <= x < u
      modifies this, vals
      ensures Valid() && Contents() == old(Contents())[x := val]
      ensures inserted == (x !in old(Contents()))
    {
      if x == min {
        minVal := val;
        return false;
      }
      if x == max {
        vals[x] := val;
        return false;
      }
      if min == None {
        InsertToEmpty(x, val);
        return true;
      }
      if x < min {
        inserted := UpsertUnder(x, val);
      } else {
        inserted := UpsertAbove(x, val);
      }
    }

    /** The swapping branch of `upsert`: x becomes `min` with val, and the
        old `min` with its value moves to its bit and slot. */
    method UpsertUnder(x: int, val: V) returns (inserted: bool)
      requires Valid() && 0 <= x < min
      modifies this, vals
      ensures Valid() && Contents() == old(Contents())[x := val]
      ensures inserted
    {
      var y, w := min, minVal;
      min, minVal := x, val;
      ElemsAnd(bitmap, Single(y));
      ElemsSingle(y);
      NonZeroElems(And(bitmap, Single(y)));
      ElemsOr(bitmap, Single(y));
      inserted := !NonZero(And(bitmap, Single(y)));
      if inserted {
        bitmap := Or(bitmap, Single(y));
      }
      vals[y] := w;
      // The closing `max` update cannot fire here: the old `min` is not
      // above `max`.
      assert Keys() == old(Keys()) + {x};
    }

    /** The rest of `upsert`, for a key above `min` other than `max`: its
        bit is set if clear and its slot is written. */
    method UpsertAbove(x: int, val: V) returns (inserted: bool)
      requires Valid() && min != None && min < x < u && x != max
      modifies this, vals
      ensures Valid() && Contents() == old(Contents())[x := val]
      ensures inserted == (x !in old(Contents()))
    {
      ElemsAnd(bitmap, Single(x));
      ElemsSingle(x);
      NonZeroElems(And(bitmap, Single(x)));
      ElemsOr(bitmap, Single(x));
      inserted := !NonZero(And(bitmap, Single(x)));
      if inserted {
        bitmap := Or(bitmap, Single(x));
      }
      vals[x] := val;
      if x > max {
        max := x;
      }
      assert Keys() == old(Keys()) + {x};
    }

    /** `insert`: a present key keeps its value and the answer is false;
        an absent one is added with val and the answer is true. */
    method Insert(x: int, val: V) returns (inserted: bool)
      requires Valid() && 0 <= x < u
      modifies this, vals
      ensures Valid()
      ensures x in old(Contents()) ==> Contents() == old(Contents())
      ensures x !in old(Contents()) ==> Contents() == old(Contents())[x := val]
      ensures inserted == (x !in old(Contents()))
    {
      if x == min || x == max {
        return false;
      }
      if min == None {
        InsertToEmpty(x, val);
        return true;
      }
      if x < min {
        inserted := InsertUnder(x, val);
      } else {
        inserted := InsertAbove(x, val);
      }
    }

    /** The swapping branch of `insert`: x becomes `min` with val, and the
        old `min` with its value moves to its bit and slot. */
    method InsertUnder(x: int, val: V) returns (inserted: bool)
      requires Valid() && 0 <= x < min
      modifies this, vals
      ensures Valid() && Contents() == old(Contents())[x := val]
      ensures inserted
    {
      var y, w := min, minVal;
      min, minVal := x, val;
      ElemsAnd(bitmap, Single(y));
      ElemsSingle(y);
      NonZeroElems(And(bitmap, Single(y)));
      ElemsOr(bitmap, Single(y));
      inserted := !NonZero(And(bitmap, Single(y)));
      if inserted {
        bitmap := Or(bitmap, Single(y));
        vals[y] := w;
      }
      // The closing `max` update cannot fire here: the old `min` is not
      // above `max`.
      assert Keys() == old(Keys()) + {x};
    }

    /** The rest of `insert`, for a key above `min` other than `max`: a
        clear bit is set and its slot written; a set one is left alone. */
    method InsertAbove(x: int, val: V) returns (inserted: bool)
      requires Valid() && min != None && min < x < u && x != max
      modifies this, vals
      ensures Valid()
      ensures x in old(Contents()) ==> Contents() == old(Contents())
      ensures x !in old(Contents()) ==> Contents() == old(Contents())[x := val]
      ensures inserted == (x !in old(Contents()))
    {
      ElemsAnd(bitmap, Single(x));
      ElemsSingle(x);
      NonZeroElems(And(bitmap, Single(x)));
      ElemsOr(bitmap, Single(x));
      inserted := !NonZero(And(bitmap, Single(x)));
      if inserted {
        bitmap := Or(bitmap, Single(x));
        vals[x] := val;
      }
      if x > max {
        max := x;
      }
      assert Keys() == old(Keys()) + {x};
    }

    /** `del`: true exactly when x was present; x loses its pair and every
        other key keeps its value. Deleting `min` promotes the lowest bit
        together with its value into `minVal`. */
    method Del(x: int) returns (erased: bool)
      requires Valid() && 0 <= x < u
      modifies this
      ensures Valid() && Contents() == old(Contents()) - {x}
      ensures erased == (x in old(Contents()))
    {
      if x > max || x < min {
        return false;
      }
      if min == max {
        if min == x {
          min := None;
          max := None;
          bitmap := Zero();
          return true;
        }
        return false;
      }
      if x == min {
        DelMin();
        return true;
      }
      erased := DelAbove(x);
    }

    /** The `x == min` branch of `del` when `min` has company: the lowest
        bit, with its value from `vals`, becomes `min`. */
    method DelMin()
      requires Valid() && min != max
      modifies this
      ensures Valid() && Contents() == old(Contents()) - {old(min)}
    {
      var consecutiveZerosOnRight := CountrZero(bitmap);
      ElemsClear(bitmap, consecutiveZerosOnRight);
      ghost var x := min;
      min := consecutiveZerosOnRight;
      minVal := vals[min];
      bitmap := And(bitmap, Not(Single(consecutiveZerosOnRight)));
      assert Keys() == old(Keys()) - {x};
    }

    /** The rest of `del`, for a key above `min`: its bit is cleared if set,
        and a deleted `max` is replaced by the highest remaining bit, or by
        `min` when none is left. */
    method DelAbove(x: int) returns (erased: bool)
      requires Valid() && min < x <= max
      modifies this
      ensures Valid() && Contents() == old(Contents()) - {x}
      ensures erased == (x in old(Contents()))
    {
      var mask := Single(x);
      ElemsAnd(bitmap, mask);
      ElemsSingle(x);
      NonZeroElems(And(bitmap, mask));
      if !NonZero(And(bitmap, mask)) {
        return false;
      }
      ElemsClear(bitmap, x);
      bitmap := And(bitmap, Not(mask));
      if x == max {
        var consecutiveZerosOnLeft := CountlZero(bitmap);
        var newMax := WordBits - consecutiveZerosOnLeft - 1;
        max := if newMax == None then min else newMax;
      }
      assert Keys() == old(Keys()) - {x};
      return true;
    }
  }
}
