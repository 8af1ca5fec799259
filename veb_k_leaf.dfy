/**
 * `VebKLeaf`: a key-only van Emde Boas node for a universe of at most 64
 * keys. It keeps `min` and `max` in fields and every key other than `min`
 * as a bit of a 64-bit bitmap.
 */
module VebKLeaves {
  import opened Bits
  import opened VebGlobal
  import opened VebSpec

  class KLeaf {
    const u: int
    var min: int
    var max: int
    var bitmap: Word

    /** `min` is the least key and kept out of the bitmap; `max` is the
        greatest key and, unless it equals `min`, a bit of the bitmap. */
    ghost predicate Valid()
      reads this
    {
      1 <= u <= Cutoff
      && (min == None ==> max == None && bitmap == Zero())
      && (min != None ==>
            0 <= min <= max < u
            && min !in Elems(bitmap)
            && (forall i | i in Elems(bitmap) :: min < i <= max)
            && (min < max ==> max in Elems(bitmap)))
    }

    /** The keys this leaf stands for. */
    ghost function Keys(): set<int>
      reads this
    {
      if min == None then {} else {min} + Elems(bitmap)
    }

    lemma KeysFacts()
      requires Valid()
      ensures InUniverse(Keys(), u)
      ensures IsMinOf(min, Keys()) && IsMaxOf(max, Keys())
      ensures (min == None) == (Keys() == {})
      ensures min != None && min == max ==> Keys() == {min}
    {}

    constructor (u: int)
      requires 1 <= u <= Cutoff
      ensures Valid() && Keys() == {} && this.u == u
    {
      this.u := u;
      min := None;
      max := None;
      bitmap := Zero();
    }

    /** `makeMeReusable`: back to the empty leaf, whatever it held. */
    method MakeMeReusable()
      requires 1 <= u <= Cutoff
      modifies this
      ensures Valid() && Keys() == {}
      ensures min == None && max == None && bitmap == Zero()
      ensures old(Valid() && Keys() == {}) ==> unchanged(this)
    {
      min := None;
      max := None;
      bitmap := Zero();
    }

    /** `member` */
    function Member(x: int): (b: bool)
      reads this
      requires Valid() && 0 <= x < u
      ensures b == (x in Keys())
    {
      ElemsAnd(bitmap, Single(x));
      ElemsSingle(x);
      NonZeroElems(And(bitmap, Single(x)));
      x == min || x == max || NonZero(And(bitmap, Single(x)))
    }

    /** `successor`: the smallest key above x, found with a mask and `countr_zero`. */
    method Successor(x: int) returns (r: int)
      requires Valid() && 0 <= x < u
      ensures IsSuccessor(r, Keys(), x)
    {
      if min == None {
        return None;
      }
      if x < min {
        return min;
      }
      if x >= max {
        return None;
      }
      if min == max {
        return None;
      }
      var mask := OnesFrom(x + 1);
      ElemsAnd(bitmap, mask);
      ElemsOnesFrom(x + 1);
      assert max in Elems(And(bitmap, mask));
      assert forall k | k in Keys() && x < k :: k in Elems(And(bitmap, mask));
      var consecutiveZerosOnRight := CountrZero(And(bitmap, mask));
      return if consecutiveZerosOnRight == WordBits then None else consecutiveZerosOnRight;
    }

    /** `predecessor`: the largest key below x, found with a mask and
        `countl_zero`, falling back to `min`, which the bitmap does not hold. */
    method Predecessor(x: int) returns (r: int)
      requires Valid() && 0 <= x < u
      ensures IsPredecessor(r, Keys(), x)
    {
      if min == None {
        return None;
      }
      if x > max {
        return max;
      }
      if x <= min {
        return None;
      }
      if min == max {
        return None;
      }
      var mask := Not(OnesFrom(x));
      ElemsAnd(bitmap, mask);
      ElemsNot(OnesFrom(x));
      ElemsOnesFrom(x);
      assert forall k | k in Keys() && k < x :: k == min || k in Elems(And(bitmap, mask));
      var consecutiveZerosOnLeft := CountlZero(And(bitmap, mask));
      var firstSetBitBeforeMe := WordBits - consecutiveZerosOnLeft - 1;
      return if firstSetBitBeforeMe == None then min else firstSetBitBeforeMe;
    }

    /** `insertToEmptyVEB`: the first key goes into `min` and `max` only. */
    method InsertToEmpty(x: int)
      requires Valid() && Keys() == {} && 0 <= x < u
      modifies this
      ensures Valid() && Keys() == {x}
      ensures min == x && max == x && bitmap == Zero()
    {
      ElemsZero();
      min := x;
      max := x;
    }

    /** `insert`: true exactly when x was absent; the key set gains x. */
    method Insert(x: int) returns (inserted: bool)
      requires Valid() && 0 <= x < u
      modifies this
      ensures Valid() && Keys() == old(Keys()) + {x}
      ensures inserted == (x !in old(Keys()))
    {
      if x == min || x == max {
        return false;
      }
      if min == None {
        InsertToEmpty(x);
        return true;
      }
      inserted := false;
      var y := x;
      if y < min {
        inserted := true;
        y, min := min, y;
      }
      ElemsAnd(bitmap, Single(y));
      ElemsSingle(y);
      NonZeroElems(And(bitmap, Single(y)));
      ElemsOr(bitmap, Single(y));
      inserted := !NonZero(And(bitmap, Single(y)));
      bitmap := Or(bitmap, Single(y));
      if y > max {
        max := y;
      }
    }

    /** `del`: true exactly when x was present; the key set loses x. Deleting
        `min` promotes the lowest bit, deleting `max` demotes it to the highest
        remaining bit or to `min`, and the last key leaves an all-zero leaf. */
    method Del(x: int) returns (erased: bool)
      requires Valid() && 0 <= x < u
      modifies this
      ensures Valid() && Keys() == old(Keys()) - {x}
      ensures erased == (x in old(Keys()))
    {
      if x > max || x < min {
        return false;
      }
      if min == max {
        if min == x {
          min := None;
          max := None;
          bitmap := Zero();
          return true;
        }
        return false;
      }
      if x == min {
        var consecutiveZerosOnRight := CountrZero(bitmap);
        ElemsClear(bitmap, consecutiveZerosOnRight);
        min := consecutiveZerosOnRight;
        bitmap := And(bitmap, Not(Single(consecutiveZerosOnRight)));
        return true;
      }
      var mask := Single(x);
      ElemsAnd(bitmap, mask);
      ElemsSingle(x);
      NonZeroElems(And(bitmap, mask));
      if !NonZero(And(bitmap, mask)) {
        return false;
      }
      ElemsClear(bitmap, x);
      bitmap := And(bitmap, Not(mask));
      if x == max {
        var consecutiveZerosOnLeft := CountlZero(bitmap);
        var newMax := WordBits - consecutiveZerosOnLeft - 1;
        max := if newMax == None then min else newMax;
      }
      return true;
    }
  }
}
