/**
 * How an internal van Emde Boas node spreads its keys. Every key other than
 * `min` lives in cluster `x / clusterSize` at offset `x % clusterSize`; the
 * summary holds the numbers of the non-empty clusters. The lemmas below say
 * how membership, insertion, deletion, successor, predecessor, minimum and
 * maximum of the whole set follow from the same questions asked of one
 * cluster and of the summary.
 */
module VebLayout {
  import opened VebSpec
  import opened VebGlobal

  /** The key at offset l of cluster h: `INDEX(h, l, ui)`. */
  function At(h: int, l: int, cs: int): int
  {
    h * cs + l
  }

  /** The offsets held by cluster h. */
  ghost function Slice(keys: set<int>, h: int, cs: int): set<int>
  {
    set l | 0 <= l < cs && At(h, l, cs) in keys
  }

  /** The numbers of the non-empty clusters: what the summary holds. */
  ghost function Occupied(keys: set<int>, n: int, cs: int): set<int>
  {
    set h | 0 <= h < n && Slice(keys, h, cs) != {}
  }

  /** The abstraction of an internal node: ck[h] are the offsets in cluster h,
      sk the summary's keys, and `min` is kept out of both. */
  ghost predicate Spread(min: int, max: int, keys: set<int>, ck: seq<set<int>>, sk: set<int>, cs: int, n: int)
  {
    cs > 0 && n > 0 && |ck| == n
    && InUniverse(keys, cs * n)
    && IsMinOf(min, keys) && IsMaxOf(max, keys)
    && (forall h | 0 <= h < n :: ck[h] == Slice(keys - {min}, h, cs))
    && sk == Occupied(keys - {min}, n, cs)
  }

  // ---- arithmetic on (cluster, offset) pairs ----

  lemma IndexSplit(h: int, l: int, cs: int)
    requires cs > 0 && 0 <= l < cs
    ensures At(h, l, cs) / cs == h && At(h, l, cs) % cs == l
  {
    DivUnique(At(h, l, cs), cs, h);
  }

  /** A key is determined by its cluster and offset. */
  lemma IndexOf(x: int, cs: int)
    requires cs > 0
    ensures x == At(x / cs, x % cs, cs) && 0 <= x % cs < cs
  {}

  /** Cluster h at offset l lies in the universe of n clusters. */
  lemma AtBound(h: int, l: int, cs: int, n: int)
    requires cs > 0 && 0 <= h < n && 0 <= l < cs
    ensures 0 <= At(h, l, cs) < cs * n
  {
    MulLe(cs, h + 1, n);
    assert cs * (h + 1) == h * cs + cs;
    MulLe(cs, 0, h);
  }

  /** Keys in an earlier cluster are smaller. */
  lemma ClusterOrder(a: int, b: int, cs: int)
    requires cs > 0 && a / cs < b / cs
    ensures a < b
  {
    IndexOf(a, cs);
    IndexOf(b, cs);
    MulLe(cs, a / cs + 1, b / cs);
  }

  /** Smaller keys are in the same or an earlier cluster. */
  lemma ClusterMono(a: int, b: int, cs: int)
    requires cs > 0 && a <= b
    ensures a / cs <= b / cs
  {
    if a / cs > b / cs {
      ClusterOrder(b, a, cs);
    }
  }

  lemma ClusterBound(x: int, cs: int, n: int)
    requires cs > 0 && n > 0 && 0 <= x < cs * n
    ensures 0 <= x / cs < n
  {
    IndexOf(x, cs);
    if x / cs >= n {
      MulLe(cs, n, x / cs);
    }
  }

  // ---- membership, insertion and deletion ----

  /** `member`: x is a key exactly when its offset is in its cluster. */
  lemma SliceMember(keys: set<int>, cs: int, x: int)
    requires cs > 0
    ensures x in keys <==> x % cs in Slice(keys, x / cs, cs)
  {
    IndexOf(x, cs);
  }

  /** The one offset of cluster h that stands for x, if any. */
  lemma AtIs(x: int, cs: int, h: int, l: int)
    requires cs > 0 && 0 <= l < cs
    ensures At(h, l, cs) == x <==> h == x / cs && l == x % cs
  {
    IndexOf(x, cs);
    IndexSplit(h, l, cs);
  }

  /** Adding x adds its offset to its own cluster and changes no other. */
  lemma SliceInsert(keys: set<int>, cs: int, x: int, h: int)
    requires cs > 0
    ensures Slice(keys + {x}, h, cs) == Slice(keys, h, cs) + (if h == x / cs then {x % cs} else {})
  {
    var lhs, rhs := Slice(keys + {x}, h, cs), Slice(keys, h, cs) + (if h == x / cs then {x % cs} else {});
    IndexOf(x, cs);
    forall l | l in lhs ensures l in rhs { AtIs(x, cs, h, l); }
    forall l | l in rhs ensures l in lhs { if l !in Slice(keys, h, cs) { AtIs(x, cs, h, l); } }
  }

  /** Removing x removes its offset from its own cluster and changes no other. */
  lemma SliceDelete(keys: set<int>, cs: int, x: int, h: int)
    requires cs > 0
    ensures Slice(keys - {x}, h, cs) == Slice(keys, h, cs) - (if h == x / cs then {x % cs} else {})
  {
    var lhs, rhs := Slice(keys - {x}, h, cs), Slice(keys, h, cs) - (if h == x / cs then {x % cs} else {});
    IndexOf(x, cs);
    forall l | l in lhs ensures l in rhs { AtIs(x, cs, h, l); }
    forall l | l in rhs ensures l in lhs { AtIs(x, cs, h, l); }
  }

  /** Adding the key at cluster h, offset l: cluster h gains offset l, no
      other cluster changes, and h becomes occupied. */
  lemma PlaceInsert(keys: set<int>, n: int, cs: int, h: int, l: int)
    requires cs > 0 && n > 0 && 0 <= h < n && 0 <= l < cs && InUniverse(keys, cs * n)
    ensures InUniverse(keys + {At(h, l, cs)}, cs * n)
    ensures Occupied(keys + {At(h, l, cs)}, n, cs) == Occupied(keys, n, cs) + {h}
    ensures forall h' :: Slice(keys + {At(h, l, cs)}, h', cs) == Slice(keys, h', cs) + (if h' == h then {l} else {})
  {
    var x := At(h, l, cs);
    IndexSplit(h, l, cs);
    AtBound(h, l, cs, n);
    OccupiedInsert(keys, n, cs, x);
    forall h' ensures Slice(keys + {x}, h', cs) == Slice(keys, h', cs) + (if h' == h then {l} else {}) {
      SliceInsert(keys, cs, x, h');
    }
  }

  /** Removing the key at cluster h, offset l: cluster h loses offset l,
      no other cluster changes, and h stays occupied unless it emptied. */
  lemma PlaceDelete(keys: set<int>, n: int, cs: int, h: int, l: int)
    requires cs > 0 && n > 0 && 0 <= h < n && 0 <= l < cs && InUniverse(keys, cs * n)
    ensures InUniverse(keys - {At(h, l, cs)}, cs * n)
    ensures forall h' :: Slice(keys - {At(h, l, cs)}, h', cs) == Slice(keys, h', cs) - (if h' == h then {l} else {})
    ensures Occupied(keys - {At(h, l, cs)}, n, cs)
         == if Slice(keys - {At(h, l, cs)}, h, cs) == {} then Occupied(keys, n, cs) - {h} else Occupied(keys, n, cs)
  {
    var x := At(h, l, cs);
    IndexSplit(h, l, cs);
    AtBound(h, l, cs, n);
    OccupiedDelete(keys, n, cs, x);
    forall h' ensures Slice(keys - {x}, h', cs) == Slice(keys, h', cs) - (if h' == h then {l} else {}) {
      SliceDelete(keys, cs, x, h');
    }
  }

  lemma OccupiedInsert(keys: set<int>, n: int, cs: int, x: int)
    requires cs > 0 && n > 0 && 0 <= x < cs * n
    ensures Occupied(keys + {x}, n, cs) == Occupied(keys, n, cs) + {x / cs}
  {
    ClusterBound(x, cs, n);
    forall h | 0 <= h < n
      ensures Slice(keys + {x}, h, cs) == Slice(keys, h, cs) + (if h == x / cs then {x % cs} else {})
    {
      SliceInsert(keys, cs, x, h);
    }
  }

  lemma OccupiedDelete(keys: set<int>, n: int, cs: int, x: int)
    requires cs > 0 && n > 0 && 0 <= x < cs * n
    ensures Occupied(keys - {x}, n, cs)
         == if Slice(keys - {x}, x / cs, cs) == {} then Occupied(keys, n, cs) - {x / cs} else Occupied(keys, n, cs)
  {
    ClusterBound(x, cs, n);
    forall h | 0 <= h < n
      ensures Slice(keys - {x}, h, cs) == Slice(keys, h, cs) - (if h == x / cs then {x % cs} else {})
    {
      SliceDelete(keys, cs, x, h);
    }
  }

  /** No keys: every cluster is empty and none is occupied. */
  lemma NoKeysLayout(n: int, cs: int)
    ensures Occupied({}, n, cs) == {}
    ensures forall h :: Slice({}, h, cs) == {}
  {
  }

  /** The summary is empty exactly when every cluster is. */
  lemma OccupiedEmpty(keys: set<int>, n: int, cs: int)
    requires cs > 0 && n > 0 && InUniverse(keys, cs * n)
    ensures (Occupied(keys, n, cs) == {}) == (keys == {})
  {
    if Occupied(keys, n, cs) == {} {
      forall x | x in keys
        ensures false
      {
        OccupiedHas(keys, n, cs, x);
      }
    }
  }

  /** A key's cluster is in the summary. */
  lemma OccupiedHas(keys: set<int>, n: int, cs: int, x: int)
    requires cs > 0 && n > 0 && 0 <= x < cs * n && x in keys
    ensures x / cs in Occupied(keys, n, cs)
  {
    ClusterBound(x, cs, n);
    SliceMember(keys, cs, x);
  }

  /** Comparing a key with the key at offset l of cluster h. */
  lemma AtLe(h: int, l: int, cs: int, k: int)
    requires cs > 0 && 0 <= l < cs
    requires h < k / cs || (h == k / cs && l <= k % cs)
    ensures At(h, l, cs) <= k
  {
    IndexOf(k, cs);
    if h < k / cs {
      MulLe(cs, h + 1, k / cs);
    }
  }

  lemma AtGe(h: int, l: int, cs: int, k: int)
    requires cs > 0 && 0 <= l < cs
    requires k / cs < h || (k / cs == h && k % cs <= l)
    ensures k <= At(h, l, cs)
  {
    IndexOf(k, cs);
    if k / cs < h {
      MulLe(cs, k / cs + 1, h);
    }
  }

  /** Two keys of one cluster are ordered like their offsets. */
  lemma SameClusterOrder(a: int, b: int, cs: int)
    requires cs > 0 && a < b
    ensures a / cs <= b / cs
    ensures a / cs == b / cs ==> a % cs < b % cs
  {
    ClusterMono(a, b, cs);
    IndexOf(a, cs);
    IndexOf(b, cs);
  }

  // ---- successor ----

  /** The successor lies in x's own cluster when that cluster has a key above x's offset. */
  lemma SuccessorInCluster(keys: set<int>, cs: int, x: int, off: int)
    requires cs > 0 && x >= 0
    requires IsSuccessor(off, Slice(keys, x / cs, cs), x % cs) && off != None
    ensures IsSuccessor(At(x / cs, off, cs), keys, x)
  {
    var h, l := x / cs, x % cs;
    var r := At(h, off, cs);
    assert off in Slice(keys, h, cs);
    IndexOf(x, cs);
    assert r in keys && x < r;
    forall k | k in keys && x < k
      ensures r <= k
    {
      SliceMember(keys, cs, k);
      SameClusterOrder(x, k, cs);
      AtLe(h, off, cs, k);
    }
  }

  /** k lies above x and x's own cluster has nothing above x's offset: then
      k lies in a later, occupied cluster. */
  lemma LaterCluster(keys: set<int>, n: int, cs: int, x: int, k: int)
    requires cs > 0 && n > 0 && InUniverse(keys, cs * n) && 0 <= x
    requires forall o | o in Slice(keys, x / cs, cs) :: o <= x % cs
    requires k in keys && x < k
    ensures x / cs < k / cs && k / cs in Occupied(keys, n, cs)
  {
    SliceMember(keys, cs, k);
    SameClusterOrder(x, k, cs);
    OccupiedHas(keys, n, cs, k);
  }

  /** When x's own cluster has nothing above x's offset, the successor is the
      minimum of the next occupied cluster, or there is none. */
  lemma SuccessorBeyond(keys: set<int>, n: int, cs: int, x: int, hs: int, m: int)
    requires cs > 0 && n > 0 && InUniverse(keys, cs * n) && 0 <= x
    requires forall o | o in Slice(keys, x / cs, cs) :: o <= x % cs
    requires IsSuccessor(hs, Occupied(keys, n, cs), x / cs)
    requires hs != None ==> IsMinOf(m, Slice(keys, hs, cs))
    ensures IsSuccessor(if hs == None then None else At(hs, m, cs), keys, x)
  {
    if hs == None {
      NoLaterCluster(keys, n, cs, x);
    } else {
      NextCluster(keys, n, cs, x, hs, m);
    }
  }

  lemma NoLaterCluster(keys: set<int>, n: int, cs: int, x: int)
    requires cs > 0 && n > 0 && InUniverse(keys, cs * n) && 0 <= x
    requires forall o | o in Slice(keys, x / cs, cs) :: o <= x % cs
    requires forall h | h in Occupied(keys, n, cs) :: h <= x / cs
    ensures forall k | k in keys :: k <= x
  {
    forall k | k in keys
      ensures k <= x
    {
      if x < k {
        LaterCluster(keys, n, cs, x, k);
      }
    }
  }

  lemma NextCluster(keys: set<int>, n: int, cs: int, x: int, hs: int, m: int)
    requires cs > 0 && n > 0 && InUniverse(keys, cs * n) && 0 <= x
    requires forall o | o in Slice(keys, x / cs, cs) :: o <= x % cs
    requires x / cs < hs
    requires forall h | h in Occupied(keys, n, cs) && x / cs < h :: hs <= h
    requires IsMinOf(m, Slice(keys, hs, cs)) && m != None
    ensures IsSuccessor(At(hs, m, cs), keys, x)
  {
    var r := At(hs, m, cs);
    assert m in Slice(keys, hs, cs);
    IndexSplit(hs, m, cs);
    ClusterOrder(x, r, cs);
    forall k | k in keys && x < k
      ensures r <= k
    {
      LaterCluster(keys, n, cs, x, k);
      SliceMember(keys, cs, k);
      AtLe(hs, m, cs, k);
    }
  }

  // ---- predecessor ----

  /** The predecessor lies in x's own cluster when that cluster has a key below x's offset. */
  lemma PredecessorInCluster(keys: set<int>, cs: int, x: int, off: int)
    requires cs > 0 && x >= 0
    requires IsPredecessor(off, Slice(keys, x / cs, cs), x % cs) && off != None
    ensures IsPredecessor(At(x / cs, off, cs), keys, x)
  {
    var h := x / cs;
    var r := At(h, off, cs);
    assert off in Slice(keys, h, cs);
    IndexOf(x, cs);
    assert r in keys && r < x;
    forall k | k in keys && k < x
      ensures k <= r
    {
      SliceMember(keys, cs, k);
      SameClusterOrder(k, x, cs);
      AtGe(h, off, cs, k);
    }
  }

  /** k lies below x and x's own cluster has nothing below x's offset: then
      k lies in an earlier, occupied cluster. */
  lemma EarlierCluster(keys: set<int>, n: int, cs: int, x: int, k: int)
    requires cs > 0 && n > 0 && InUniverse(keys, cs * n) && 0 <= x
    requires forall o | o in Slice(keys, x / cs, cs) :: x % cs <= o
    requires k in keys && k < x
    ensures k / cs < x / cs && k / cs in Occupied(keys, n, cs)
  {
    SliceMember(keys, cs, k);
    SameClusterOrder(k, x, cs);
    OccupiedHas(keys, n, cs, k);
  }

  /** When x's own cluster has nothing below x's offset, the predecessor is
      the maximum of the previous occupied cluster, or there is none. */
  lemma PredecessorBeyond(keys: set<int>, n: int, cs: int, x: int, hp: int, m: int)
    requires cs > 0 && n > 0 && InUniverse(keys, cs * n) && 0 <= x
    requires forall o | o in Slice(keys, x / cs, cs) :: x % cs <= o
    requires IsPredecessor(hp, Occupied(keys, n, cs), x / cs)
    requires hp != None ==> IsMaxOf(m, Slice(keys, hp, cs))
    ensures IsPredecessor(if hp == None then None else At(hp, m, cs), keys, x)
  {
    if hp == None {
      NoEarlierCluster(keys, n, cs, x);
    } else {
      PreviousCluster(keys, n, cs, x, hp, m);
    }
  }

  lemma NoEarlierCluster(keys: set<int>, n: int, cs: int, x: int)
    requires cs > 0 && n > 0 && InUniverse(keys, cs * n) && 0 <= x
    requires forall o | o in Slice(keys, x / cs, cs) :: x % cs <= o
    requires forall h | h in Occupied(keys, n, cs) :: x / cs <= h
    ensures forall k | k in keys :: x <= k
  {
    forall k | k in keys
      ensures x <= k
    {
      if k < x {
        EarlierCluster(keys, n, cs, x, k);
      }
    }
  }

  lemma PreviousCluster(keys: set<int>, n: int, cs: int, x: int, hp: int, m: int)
    requires cs > 0 && n > 0 && InUniverse(keys, cs * n) && 0 <= x
    requires forall o | o in Slice(keys, x / cs, cs) :: x % cs <= o
    requires 0 <= hp < x / cs
    requires forall h | h in Occupied(keys, n, cs) && h < x / cs :: h <= hp
    requires IsMaxOf(m, Slice(keys, hp, cs)) && m != None
    ensures IsPredecessor(At(hp, m, cs), keys, x)
  {
    var r := At(hp, m, cs);
    assert m in Slice(keys, hp, cs);
    IndexSplit(hp, m, cs);
    ClusterOrder(r, x, cs);
    forall k | k in keys && k < x
      ensures k <= r
    {
      EarlierCluster(keys, n, cs, x, k);
      SliceMember(keys, cs, k);
      AtGe(hp, m, cs, k);
    }
  }

  // ---- minimum and maximum ----

  /** The least key is the minimum of the first occupied cluster. */
  lemma MinOfClusters(keys: set<int>, n: int, cs: int, hm: int, m: int)
    requires cs > 0 && n > 0 && InUniverse(keys, cs * n)
    requires IsMinOf(hm, Occupied(keys, n, cs)) && hm != None
    requires IsMinOf(m, Slice(keys, hm, cs))
    ensures IsMinOf(At(hm, m, cs), keys)
  {
    assert m in Slice(keys, hm, cs);
    forall k | k in keys
      ensures At(hm, m, cs) <= k
    {
      OccupiedHas(keys, n, cs, k);
      SliceMember(keys, cs, k);
      AtLe(hm, m, cs, k);
    }
  }

  /** The greatest key is the maximum of the last occupied cluster. */
  lemma MaxOfClusters(keys: set<int>, n: int, cs: int, hM: int, m: int)
    requires cs > 0 && n > 0 && InUniverse(keys, cs * n)
    requires IsMaxOf(hM, Occupied(keys, n, cs)) && hM != None
    requires IsMaxOf(m, Slice(keys, hM, cs))
    ensures IsMaxOf(At(hM, m, cs), keys)
  {
    assert m in Slice(keys, hM, cs);
    forall k | k in keys
      ensures k <= At(hM, m, cs)
    {
      OccupiedHas(keys, n, cs, k);
      SliceMember(keys, cs, k);
      AtGe(hM, m, cs, k);
    }
  }

  /** When every key is below y and y's cluster holds keys, that cluster is
      the last occupied one. */
  lemma LastCluster(keys: set<int>, n: int, cs: int, y: int)
    requires cs > 0 && n > 0 && 0 <= y < cs * n
    requires forall k | k in keys :: k < y
    requires Slice(keys, y / cs, cs) != {}
    ensures IsMaxOf(y / cs, Occupied(keys, n, cs))
  {
    ClusterBound(y, cs, n);
    forall h | h in Occupied(keys, n, cs)
      ensures h <= y / cs
    {
      var l :| l in Slice(keys, h, cs);
      IndexSplit(h, l, cs);
      ClusterMono(At(h, l, cs), y, cs);
    }
  }

  // ---- putting `min` back ----

  /** Above `min`, the successor among the other keys is the successor. */
  lemma LiftSuccessor(min: int, keys: set<int>, x: int, r: int)
    requires IsMinOf(min, keys) && (min == None || min <= x) && 0 <= x
    requires IsSuccessor(r, keys - {min}, x)
    ensures IsSuccessor(r, keys, x)
  {
    if r == None {
      forall k | k in keys
        ensures k <= x
      {
        if k != min {
          assert k in keys - {min};
        }
      }
    } else {
      forall k | k in keys && x < k
        ensures r <= k
      {
        assert k in keys - {min};
      }
    }
  }

  /** Below x, the predecessor among the other keys beats `min`, which is smaller than all. */
  lemma LiftPredecessor(min: int, keys: set<int>, x: int, r: int)
    requires IsMinOf(min, keys) && min != None && r != None
    requires forall k | k in keys :: 0 <= k
    requires IsPredecessor(r, keys - {min}, x)
    ensures IsPredecessor(r, keys, x)
  {
    forall k | k in keys && k < x
      ensures k <= r
    {
      if k != min {
        assert k in keys - {min};
      }
    }
  }

  /** With no other key below x, `min` is the predecessor if it is below x. */
  lemma MinIsPredecessor(min: int, keys: set<int>, x: int)
    requires IsMinOf(min, keys)
    requires forall k | k in keys :: 0 <= k
    requires IsPredecessor(None, keys - {min}, x)
    ensures IsPredecessor(if min != None && x > min then min else None, keys, x)
  {
    forall k | k in keys && k != min
      ensures x <= k
    {
      assert k in keys - {min};
    }
  }
}
