/**
 * `VebKVInternal`, the key-value van Emde Boas node above the cutoff, as a
 * value. A node keeps its least key in `min` with the value in `minVal`,
 * its greatest key in `max`, and every other key x with its value in
 * cluster `x / clusterSize` at offset `x % clusterSize`; the key-only
 * summary holds the numbers of the non-empty clusters. Clusters of a
 * universe at or below the cutoff are `VebKVLeaf`s, seen here as the map
 * their `Contents()` stands for; summaries are seen as the set of keys
 * their `VebK` tree stands for.
 */
module VebKV {
  import opened VebGlobal
  import opened VebSpec
  import opened VebLayout
  import opened Optionals

  /** One cluster slot: `nullptr` (`Nil`), a leaf, an internal node whose
      keys were all deleted (`Blank`, `min == max == -1`), or a node with
      keys. A node's universe is not stored; it is passed alongside. */
  datatype KVTree<V> =
    | Nil
    | Leaf(pairs: map<int, V>)
    | Blank
    | Node(min: int, max: int, minVal: V, summary: set<int>, clusters: seq<KVTree<V>>)

  function ClusterSize(u: int): int
    requires IsPow2(u)
  {
    DivideNode(u).clusterSize
  }

  function NClusters(u: int): int
    requires IsPow2(u)
  {
    DivideNode(u).nClusters
  }

  // ---- the summary and the leaves, read as sets ----

  /** The least member of `keys` above x, or -1: the answer a summary or a
      leaf gives to `successor(x)`. */
  function Next(keys: set<int>, x: int, n: int): (r: int)
    requires -1 <= x && InUniverse(keys, n)
    ensures IsSuccessor(r, keys, x)
    decreases n - x
  {
    if x + 1 >= n then None
    else if x + 1 in keys then x + 1
    else Next(keys, x + 1, n)
  }

  /** The greatest member of `keys` below x, or -1: the answer a summary
      or a leaf gives to `predecessor(x)`. */
  function Prev(keys: set<int>, x: int): (r: int)
    requires forall k | k in keys :: 0 <= k
    ensures IsPredecessor(r, keys, x)
    decreases x
  {
    if x <= 0 then None
    else if x - 1 in keys then x - 1
    else Prev(keys, x - 1)
  }

  /** The least key of a set of the universe, or -1: a `min` field. */
  function MinKey(keys: set<int>, n: int): (m: int)
    requires InUniverse(keys, n)
    ensures IsMinOf(m, keys)
  {
    var m := Next(keys, -1, n);
    assert m == None ==> keys == {} by {
      if m == None {
        forall k | k in keys
          ensures false
        {}
      }
    }
    m
  }

  /** The greatest key of a set of the universe, or -1: a `max` field. */
  function MaxKey(keys: set<int>, n: int): (m: int)
    requires InUniverse(keys, n)
    ensures IsMaxOf(m, keys)
  {
    Prev(keys, n)
  }

  // ---- what a tree stands for ----

  /** The value a tree of universe u gives key k: `minVal` for `min`, else
      whatever cluster `k / clusterSize` gives offset `k % clusterSize`. */
  ghost function Lookup<V>(t: KVTree<V>, u: int, k: int): Optional<V>
    decreases t
  {
    match t
    case Nil => Absent
    case Blank => Absent
    case Leaf(pairs) => if 0 <= k < u then Find(pairs, k) else Absent
    case Node(min, _, minVal, _, clusters) =>
      if k == min then Present(minVal)
      else if !IsPow2(u) || k < 0 || u <= k then Absent
      else
        var cs := ClusterSize(u);
        if 0 < cs && k / cs < |clusters| then Lookup(clusters[k / cs], cs, k % cs) else Absent
  }

  /** The keys a tree of universe u holds. */
  ghost function Keys<V>(t: KVTree<V>, u: int): set<int>
  {
    set k | 0 <= k < u && Lookup(t, u, k).Present?
  }

  /** The node invariant: a non-null cluster is valid and holds keys, every
      key but `min` sits in its cluster, `min` and `max` are the extremes,
      and the summary names exactly the non-empty clusters. */
  ghost predicate Valid<V>(t: KVTree<V>, u: int)
    decreases t
  {
    match t
    case Nil => false
    case Leaf(pairs) => IsPow2(u) && u <= Cutoff && InUniverse(pairs.Keys, u)
    case Blank => IsPow2(u) && u > Cutoff
    case Node(min, max, _, summary, clusters) =>
      IsPow2(u) && u > Cutoff && |clusters| == NClusters(u)
      && (forall h | 0 <= h < |clusters| && clusters[h] != Nil ::
            Valid(clusters[h], ClusterSize(u)) && Keys(clusters[h], ClusterSize(u)) != {})
      && min != None && IsMinOf(min, Keys(t, u)) && IsMaxOf(max, Keys(t, u))
      && (forall h | 0 <= h < |clusters| ::
            Keys(clusters[h], ClusterSize(u)) == Slice(Keys(t, u) - {min}, h, ClusterSize(u)))
      && summary == Occupied(Keys(t, u) - {min}, NClusters(u), ClusterSize(u))
  }

  /** The split of a universe above the cutoff. */
  lemma Split(u: int)
    requires IsPow2(u) && u > Cutoff
    ensures ClusterSize(u) * NClusters(u) == u
    ensures 2 <= ClusterSize(u) < u && 2 <= NClusters(u) < u
    ensures IsPow2(ClusterSize(u)) && IsPow2(NClusters(u))
  {
    DivideNodeSplits(u);
    DivideNodeShrinks(u);
  }

  /** A leaf stands for its map. */
  lemma LeafKeys<V>(t: KVTree<V>, u: int)
    requires Valid(t, u) && t.Leaf?
    ensures Keys(t, u) == t.pairs.Keys
    ensures forall k :: Lookup(t, u, k) == Find(t.pairs, k)
  {}

  /** Nothing is stored outside the universe. */
  lemma LookupOutside<V>(t: KVTree<V>, u: int, k: int)
    requires Valid(t, u) && (k < 0 || u <= k)
    ensures Lookup(t, u, k) == Absent
  {
    if t.Node? {
      assert t.min in Keys(t, u);
    }
  }

  /** Below `min`, a node's key k is looked up in its cluster. */
  lemma LookupBelow<V>(t: KVTree<V>, u: int, k: int)
    requires t.Node? && IsPow2(u) && u > Cutoff && |t.clusters| == NClusters(u)
    requires 0 <= k < u && k != t.min
    ensures 0 <= k / ClusterSize(u) < NClusters(u) && 0 <= k % ClusterSize(u) < ClusterSize(u)
    ensures Lookup(t, u, k) == Lookup(t.clusters[k / ClusterSize(u)], ClusterSize(u), k % ClusterSize(u))
  {
    Split(u);
    DivModBounds(k, ClusterSize(u), NClusters(u));
  }

  /** Key `INDEX(h, l)` of a node, other than `min`, is offset l of cluster h. */
  lemma LookupAt<V>(t: KVTree<V>, u: int, h: int, l: int)
    requires t.Node? && IsPow2(u) && u > Cutoff && |t.clusters| == NClusters(u)
    requires 0 <= h < NClusters(u) && 0 <= l < ClusterSize(u) && At(h, l, ClusterSize(u)) != t.min
    ensures 0 <= At(h, l, ClusterSize(u)) < u
    ensures Lookup(t, u, At(h, l, ClusterSize(u))) == Lookup(t.clusters[h], ClusterSize(u), l)
  {
    Split(u);
    AtBound(h, l, ClusterSize(u), NClusters(u));
    IndexSplit(h, l, ClusterSize(u));
  }

  /** What `Valid` says of a node's clusters and summary, for the keys other
      than `min`. */
  lemma NodeFacts<V>(t: KVTree<V>, u: int)
    requires Valid(t, u) && t.Node?
    ensures InUniverse(Keys(t, u) - {t.min}, ClusterSize(u) * NClusters(u))
    ensures 0 <= t.min <= t.max < u
    ensures (t.max == t.min) == (Keys(t, u) - {t.min} == {})
    ensures (t.summary == {}) == (Keys(t, u) - {t.min} == {})
    ensures forall k | k in Keys(t, u) - {t.min} :: t.min < k <= t.max
  {
    Split(u);
    var rest := Keys(t, u) - {t.min};
    OccupiedEmpty(rest, NClusters(u), ClusterSize(u));
    if t.max != t.min {
      assert t.max in rest;
    }
  }

  // ---- the fields a parent reads off a cluster ----

  /** Enough of `Valid` to read a cluster's `min` and `max` fields. */
  ghost predicate Shaped<V>(t: KVTree<V>, u: int)
  {
    t.Leaf? ==> InUniverse(t.pairs.Keys, u)
  }

  /** A cluster's `min`; -1 for a null or emptied cluster. */
  function MinOf<V>(t: KVTree<V>, u: int): (m: int)
    requires Shaped(t, u)
    ensures t.Nil? || Valid(t, u) ==> IsMinOf(m, Keys(t, u))
  {
    match t
    case Nil => assert Keys(t, u) == {}; None
    case Blank => assert Keys(t, u) == {}; None
    case Leaf(pairs) => assert Keys(t, u) == pairs.Keys; MinKey(pairs.Keys, u)
    case Node(min, _, _, _, _) => min
  }

  /** A cluster's `max`; -1 for a null or emptied cluster. */
  function MaxOf<V>(t: KVTree<V>, u: int): (m: int)
    requires Shaped(t, u)
    ensures t.Nil? || Valid(t, u) ==> IsMaxOf(m, Keys(t, u))
  {
    match t
    case Nil => assert Keys(t, u) == {}; None
    case Blank => assert Keys(t, u) == {}; None
    case Leaf(pairs) => assert Keys(t, u) == pairs.Keys; MaxKey(pairs.Keys, u)
    case Node(_, max, _, _, _) => max
  }

  /** A cluster's `minVal`, read from a cluster that holds keys. */
  function MinVal<V>(t: KVTree<V>, u: int): (v: V)
    requires Valid(t, u) && Keys(t, u) != {}
    ensures Lookup(t, u, MinOf(t, u)) == Present(v)
  {
    match t
    case Leaf(pairs) => LeafKeys(t, u); pairs[MinOf(t, u)]
    case Node(_, _, minVal, _, _) => minVal
  }

  /** Every cluster of a valid node can have its fields read. */
  lemma ClustersShaped<V>(t: KVTree<V>, u: int)
    requires Valid(t, u) && t.Node?
    ensures forall h | 0 <= h < |t.clusters| :: Shaped(t.clusters[h], ClusterSize(u))
  {
    forall h | 0 <= h < |t.clusters|
      ensures Shaped(t.clusters[h], ClusterSize(u))
    {
      if t.clusters[h] != Nil {
        assert Valid(t.clusters[h], ClusterSize(u));
      }
    }
  }

  /** A cluster the summary names is allocated, valid and holds keys. */
  lemma Occupant<V>(t: KVTree<V>, u: int, h: int)
    requires Valid(t, u) && t.Node? && h in t.summary
    ensures 0 <= h < |t.clusters| && t.clusters[h] != Nil
    ensures Valid(t.clusters[h], ClusterSize(u)) && Keys(t.clusters[h], ClusterSize(u)) != {}
  {
    var none: KVTree<V> := Nil;
    assert Keys(none, ClusterSize(u)) == {};
  }

  /** Where a node's `max`, when it is not `min`, is kept: it is the `max`
      of cluster `max / clusterSize`, at offset `max % clusterSize`. */
  lemma MaxPlace<V>(t: KVTree<V>, u: int)
    requires Valid(t, u) && t.Node? && t.max != t.min
    ensures 0 <= t.max / ClusterSize(u) < |t.clusters|
    ensures t.clusters[t.max / ClusterSize(u)] != Nil
    ensures Valid(t.clusters[t.max / ClusterSize(u)], ClusterSize(u))
    ensures MaxOf(t.clusters[t.max / ClusterSize(u)], ClusterSize(u)) == t.max % ClusterSize(u)
    ensures Lookup(t, u, t.max) == Lookup(t.clusters[t.max / ClusterSize(u)], ClusterSize(u), t.max % ClusterSize(u))
  {
    NodeFacts(t, u);
    var cs, rest := ClusterSize(u), Keys(t, u) - {t.min};
    var h, l := t.max / cs, t.max % cs;
    LookupBelow(t, u, t.max);
    SliceMember(rest, cs, t.max);
    assert l in Keys(t.clusters[h], cs);
    forall o | o in Slice(rest, h, cs)
      ensures o <= l
    {
      IndexOf(t.max, cs);
    }
    ClustersShaped(t, u);
    var m := MaxOf(t.clusters[h], cs);
    assert m <= l && l <= m;
  }

  /** `getValue(x)` for the key its callers pass, a cluster's `max`:
      `minVal` when that is `min`, else what the cluster below gives. */
  function GetValue<V>(t: KVTree<V>, u: int, x: int): (v: Optional<V>)
    requires t.Nil? || Valid(t, u)
    requires x == MaxOf(t, u)
    ensures v == Lookup(t, u, x)
    decreases t
  {
    match t
    case Nil => Absent
    case Blank => Absent
    case Leaf(pairs) => LeafKeys(t, u); Find(pairs, x)
    case Node(min, _, minVal, _, clusters) =>
      if x == min then Present(minVal)
      else
        MaxPlace(t, u);
        GetValue(clusters[x / ClusterSize(u)], ClusterSize(u), x % ClusterSize(u))
  }

  // ---- queries ----

  /** `member(x)`: `min` and `max` answer at once, a null cluster means
      absent, otherwise the cluster is asked. */
  function Member<V>(t: KVTree<V>, u: int, x: int): (b: bool)
    requires Valid(t, u) && 0 <= x < u
    decreases t
  {
    match t
    case Leaf(pairs) => x in pairs
    case Blank => false
    case Node(min, max, _, _, clusters) =>
      if x == min || x == max then true
      else
        Split(u);
        DivModBounds(x, ClusterSize(u), NClusters(u));
        var h := x / ClusterSize(u);
        if clusters[h] == Nil then false
        else Member(clusters[h], ClusterSize(u), x % ClusterSize(u))
  }

  /** `successor(x)`: the least key above x with its value, or -1 with no
      value. */
  function Successor<V>(t: KVTree<V>, u: int, x: int): (r: (int, Optional<V>))
    requires Valid(t, u) && 0 <= x < u
    decreases t
  {
    match t
    case Leaf(pairs) =>
      var k := Next(pairs.Keys, x, u);
      (k, Find(pairs, k))
    case Blank => (None, Absent)
    case Node(min, _, minVal, summary, clusters) =>
      if x < min then (min, Present(minVal))
      else
        Split(u);
        var cs, nc := ClusterSize(u), NClusters(u);
        DivModBounds(x, cs, nc);
        var h, l := x / cs, x % cs;
        ClustersShaped(t, u);
        if clusters[h] != Nil && MaxOf(clusters[h], cs) != None && l < MaxOf(clusters[h], cs) then
          var (offset, v) := Successor(clusters[h], cs, l);
          (At(h, offset, cs), v)
        else if summary == {} then (None, Absent)
        else
          var succCluster := Next(summary, h, nc);
          if succCluster == None then (None, Absent)
          else
            Occupant(t, u, succCluster);
            var c := clusters[succCluster];
            (At(succCluster, MinOf(c, cs), cs), Present(MinVal(c, cs)))
  }

  /** `predecessor(x)`: the greatest key below x with its value, or -1 with
      no value. */
  function Predecessor<V>(t: KVTree<V>, u: int, x: int): (r: (int, Optional<V>))
    requires Valid(t, u) && 0 <= x < u
    decreases t
  {
    match t
    case Leaf(pairs) =>
      var k := Prev(pairs.Keys, x);
      (k, Find(pairs, k))
    case Blank => (None, Absent)
    case Node(min, max, minVal, summary, clusters) =>
      if x > max && max == min then (max, Present(minVal))
      else
        Split(u);
        var cs, nc := ClusterSize(u), NClusters(u);
        DivModBounds(x, cs, nc);
        var h, l := x / cs, x % cs;
        ClustersShaped(t, u);
        if clusters[h] != Nil && MinOf(clusters[h], cs) != None && MinOf(clusters[h], cs) < l then
          var (offset, v) := Predecessor(clusters[h], cs, l);
          (At(h, offset, cs), v)
        else if summary == {} then (None, Absent)
        else
          var predCluster := Prev(summary, h);
          if predCluster == None then
            if x > min then (min, Present(minVal)) else (None, Absent)
          else
            var c := clusters[predCluster];
            var answer := MaxOf(c, cs);
            (At(predCluster, answer, cs), GetValue(c, cs, answer))
  }

  // ---- what the queries answer ----

  /** `member` answers exactly the keys the tree holds. */
  lemma {:induction false} MemberCorrect<V>(t: KVTree<V>, u: int, x: int)
    requires Valid(t, u) && 0 <= x < u
    ensures Member(t, u, x) == (x in Keys(t, u))
    decreases t
  {
    match t
    case Leaf(pairs) =>
      LeafKeys(t, u);
    case Blank =>
    case Node(min, max, _, _, clusters) =>
      if x != min && x != max {
        LookupBelow(t, u, x);
        var cs := ClusterSize(u);
        if clusters[x / cs] != Nil {
          MemberCorrect(clusters[x / cs], cs, x % cs);
        }
      }
  }

  /** `successor` answers the least key above x, and the value that key
      holds (none for -1). */
  lemma {:induction false} SuccessorCorrect<V>(t: KVTree<V>, u: int, x: int)
    requires Valid(t, u) && 0 <= x < u
    ensures IsSuccessor(Successor(t, u, x).0, Keys(t, u), x)
    ensures Successor(t, u, x).1 == Lookup(t, u, Successor(t, u, x).0)
    decreases t, 1
  {
    match t
    case Leaf(pairs) =>
      LeafKeys(t, u);
    case Blank =>
      assert Keys(t, u) == {};
    case Node(min, _, _, _, clusters) =>
      if x >= min {
        Split(u);
        var cs := ClusterSize(u);
        DivModBounds(x, cs, NClusters(u));
        var h, l := x / cs, x % cs;
        ClustersShaped(t, u);
        if clusters[h] != Nil && MaxOf(clusters[h], cs) != None && l < MaxOf(clusters[h], cs) {
          SuccessorWithin(t, u, x, h, l);
        } else {
          SuccessorAcross(t, u, x, h, l);
        }
      }
  }

  /** `successor` when x's own cluster holds a key above x: the cluster's
      answer, lifted. */
  lemma {:induction false} SuccessorWithin<V>(t: KVTree<V>, u: int, x: int, h: int, l: int)
    requires Valid(t, u) && t.Node? && t.min <= x < u
    requires h == x / ClusterSize(u) && l == x % ClusterSize(u) && 0 <= h < |t.clusters|
    requires t.clusters[h] != Nil && Shaped(t.clusters[h], ClusterSize(u))
    requires MaxOf(t.clusters[h], ClusterSize(u)) != None && l < MaxOf(t.clusters[h], ClusterSize(u))
    ensures IsSuccessor(Successor(t, u, x).0, Keys(t, u), x)
    ensures Successor(t, u, x).1 == Lookup(t, u, Successor(t, u, x).0)
    decreases t, 0
  {
    NodeFacts(t, u);
    Split(u);
    var cs := ClusterSize(u);
    DivModBounds(x, cs, NClusters(u));
    var keys := Keys(t, u);
    SuccessorCorrect(t.clusters[h], cs, l);
    var offset := Successor(t.clusters[h], cs, l).0;
    SuccessorInCluster(keys - {t.min}, cs, x, offset);
    LiftSuccessor(t.min, keys, x, Successor(t, u, x).0);
    LookupAt(t, u, h, offset);
  }

  /** `successor` when x's own cluster has nothing above x: the least key of
      the next non-empty cluster the summary names, or none. */
  lemma SuccessorAcross<V>(t: KVTree<V>, u: int, x: int, h: int, l: int)
    requires Valid(t, u) && t.Node? && t.min <= x < u
    requires h == x / ClusterSize(u) && l == x % ClusterSize(u) && 0 <= h < |t.clusters|
    requires Shaped(t.clusters[h], ClusterSize(u))
    requires !(t.clusters[h] != Nil && MaxOf(t.clusters[h], ClusterSize(u)) != None && l < MaxOf(t.clusters[h], ClusterSize(u)))
    ensures IsSuccessor(Successor(t, u, x).0, Keys(t, u), x)
    ensures Successor(t, u, x).1 == Lookup(t, u, Successor(t, u, x).0)
  {
    NodeFacts(t, u);
    Split(u);
    var cs, nc := ClusterSize(u), NClusters(u);
    DivModBounds(x, cs, nc);
    var keys := Keys(t, u);
    LookupOutside(t, u, None);
    if t.summary != {} {
      var sc := Next(t.summary, h, nc);
      var m := if sc == None then 0 else MinOf(t.clusters[sc], cs);
      SuccessorBeyond(keys - {t.min}, nc, cs, x, sc, m);
      LiftSuccessor(t.min, keys, x, Successor(t, u, x).0);
      if sc != None {
        LookupAt(t, u, sc, m);
      }
    }
  }

  /** `predecessor` answers the greatest key below x, and the value that
      key holds (none for -1). */
  lemma {:induction false} PredecessorCorrect<V>(t: KVTree<V>, u: int, x: int)
    requires Valid(t, u) && 0 <= x < u
    ensures IsPredecessor(Predecessor(t, u, x).0, Keys(t, u), x)
    ensures Predecessor(t, u, x).1 == Lookup(t, u, Predecessor(t, u, x).0)
    decreases t, 1
  {
    match t
    case Leaf(pairs) =>
      LeafKeys(t, u);
    case Blank =>
      assert Keys(t, u) == {};
    case Node(min, max, _, _, clusters) =>
      if x > max && max == min {
        NodeFacts(t, u);
      } else {
        Split(u);
        var cs := ClusterSize(u);
        DivModBounds(x, cs, NClusters(u));
        var h, l := x / cs, x % cs;
        ClustersShaped(t, u);
        if clusters[h] != Nil && MinOf(clusters[h], cs) != None && MinOf(clusters[h], cs) < l {
          PredecessorWithin(t, u, x, h, l);
        } else {
          PredecessorAcross(t, u, x, h, l);
        }
      }
  }

  /** `predecessor` when x's own cluster holds a key below x: the cluster's
      answer, lifted. */
  lemma {:induction false} PredecessorWithin<V>(t: KVTree<V>, u: int, x: int, h: int, l: int)
    requires Valid(t, u) && t.Node? && 0 <= x < u && !(x > t.max && t.max == t.min)
    requires h == x / ClusterSize(u) && l == x % ClusterSize(u) && 0 <= h < |t.clusters|
    requires t.clusters[h] != Nil && Shaped(t.clusters[h], ClusterSize(u))
    requires MinOf(t.clusters[h], ClusterSize(u)) != None && MinOf(t.clusters[h], ClusterSize(u)) < l
    ensures IsPredecessor(Predecessor(t, u, x).0, Keys(t, u), x)
    ensures Predecessor(t, u, x).1 == Lookup(t, u, Predecessor(t, u, x).0)
    decreases t, 0
  {
    NodeFacts(t, u);
    Split(u);
    var cs := ClusterSize(u);
    DivModBounds(x, cs, NClusters(u));
    var keys := Keys(t, u);
    PredecessorCorrect(t.clusters[h], cs, l);
    var offset := Predecessor(t.clusters[h], cs, l).0;
    PredecessorInCluster(keys - {t.min}, cs, x, offset);
    LiftPredecessor(t.min, keys, x, Predecessor(t, u, x).0);
    LookupAt(t, u, h, offset);
  }

  /** `predecessor` when x's own cluster has nothing below x: the greatest
      key of the previous non-empty cluster the summary names, else `min`
      if it is below x, else none. */
  lemma PredecessorAcross<V>(t: KVTree<V>, u: int, x: int, h: int, l: int)
    requires Valid(t, u) && t.Node? && 0 <= x < u && !(x > t.max && t.max == t.min)
    requires h == x / ClusterSize(u) && l == x % ClusterSize(u) && 0 <= h < |t.clusters|
    requires Shaped(t.clusters[h], ClusterSize(u))
    requires !(t.clusters[h] != Nil && MinOf(t.clusters[h], ClusterSize(u)) != None && MinOf(t.clusters[h], ClusterSize(u)) < l)
    ensures IsPredecessor(Predecessor(t, u, x).0, Keys(t, u), x)
    ensures Predecessor(t, u, x).1 == Lookup(t, u, Predecessor(t, u, x).0)
  {
    NodeFacts(t, u);
    Split(u);
    var cs, nc := ClusterSize(u), NClusters(u);
    DivModBounds(x, cs, nc);
    var keys := Keys(t, u);
    LookupOutside(t, u, None);
    if t.summary != {} {
      var pc := Prev(t.summary, h);
      var m := if pc == None then 0 else MaxOf(t.clusters[pc], cs);
      PredecessorBeyond(keys - {t.min}, nc, cs, x, pc, m);
      if pc == None {
        MinIsPredecessor(t.min, keys, x);
      } else {
        LiftPredecessor(t.min, keys, x, Predecessor(t, u, x).0);
        LookupAt(t, u, pc, m);
      }
    }
  }

  // ---- updates ----

  /** A pool node of universe u after `insertToEmptyVEB(x, val)`: a leaf
      holding one pair, or a node whose clusters are all null. */
  function Single<V>(u: int, x: int, val: V): (t: KVTree<V>)
    requires IsPow2(u)
  {
    if u <= Cutoff then Leaf(map[x := val])
    else Node(x, x, val, {}, seq(NClusters(u), _ => Nil))
  }

  /** The one-pair node holds x with val and nothing else. */
  lemma SingleCorrect<V>(u: int, x: int, val: V)
    requires IsPow2(u) && 0 <= x < u
    ensures Valid(Single(u, x, val), u) && Keys(Single(u, x, val), u) == {x}
    ensures forall k :: Lookup(Single(u, x, val), u, k) == if k == x then Present(val) else Absent
  {
    var t := Single(u, x, val);
    if u > Cutoff {
      forall k
        ensures Lookup(t, u, k) == if k == x then Present(val) else Absent
      {
        if k != x && 0 <= k < u {
          LookupBelow(t, u, k);
        }
      }
      Split(u);
      assert Keys(t, u) == {x};
      OccupiedEmpty({}, NClusters(u), ClusterSize(u));
      forall h | 0 <= h < |t.clusters|
        ensures Keys(t.clusters[h], ClusterSize(u)) == Slice(Keys(t, u) - {x}, h, ClusterSize(u))
      {
        assert Keys(t, u) - {x} == {};
      }
    }
  }

  /** Keys follow from values. */
  lemma KeysOf<V>(c: KVTree<V>, c0: KVTree<V>, u: int, l: int, o: Optional<V>)
    requires forall k :: Lookup(c, u, k) == if k == l then o else Lookup(c0, u, k)
    requires 0 <= l < u
    ensures Keys(c, u) == (if o.Present? then Keys(c0, u) + {l} else Keys(c0, u) - {l})
  {
    assert forall k :: Lookup(c, u, k) == if k == l then o else Lookup(c0, u, k);
  }

  /** The last step of `upsert` and `insert` on a node with keys: the node
      keeps (or takes) `least` with value lv as its `min`, and y, which is
      the old `min` or the key inserted, goes to offset l of cluster h, now
      c, which differs from the old cluster only in holding o at l. */
  lemma PlacedLookup<V>(t: KVTree<V>, u: int, least: int, lv: V, y: int, h: int, l: int, o: Optional<V>, c: KVTree<V>)
    requires Valid(t, u) && t.Node? && o.Present?
    requires (least == t.min && lv == t.minVal && t.min < y < u)
          || (0 <= least < t.min && y == t.min && o == Present(t.minVal))
    requires h == y / ClusterSize(u) && l == y % ClusterSize(u) && 0 <= h < |t.clusters|
    requires forall k :: Lookup(c, ClusterSize(u), k) == if k == l then o else Lookup(t.clusters[h], ClusterSize(u), k)
    ensures var t' := Node(least, if y > t.max then y else t.max, lv, t.summary + {h}, t.clusters[h := c]);
      (forall k :: Lookup(t', u, k) == if k == y then o else if k == least then Present(lv) else Lookup(t, u, k))
      && Keys(t', u) == Keys(t, u) + {least, y}
  {
    var t' := Node(least, if y > t.max then y else t.max, lv, t.summary + {h}, t.clusters[h := c]);
    forall k
      ensures Lookup(t', u, k) == if k == y then o else if k == least then Present(lv) else Lookup(t, u, k)
    {
      PlacedAt(t, u, least, lv, y, h, l, o, c, k);
    }
    assert Keys(t', u) == Keys(t, u) + {least, y} by {
      forall k | 0 <= k < u
        ensures k in Keys(t', u) <==> k in Keys(t, u) + {least, y}
      {}
    }
  }

  /** Key k of a node rebuilt from t with `min` `least` and cluster h
      replaced by c: any key but `least` is read from its cluster. */
  lemma RebuiltAt<V>(t: KVTree<V>, u: int, least: int, h: int, c: KVTree<V>, t': KVTree<V>, k: int)
    requires t.Node? && IsPow2(u) && u > Cutoff && |t.clusters| == NClusters(u) && 0 <= h < |t.clusters|
    requires t'.Node? && t'.min == least && t'.clusters == t.clusters[h := c]
    requires 0 <= k < u && k != least
    ensures 0 <= k / ClusterSize(u) < NClusters(u) && 0 <= k % ClusterSize(u) < ClusterSize(u)
    ensures Lookup(t', u, k) == if k / ClusterSize(u) == h then Lookup(c, ClusterSize(u), k % ClusterSize(u))
                               else Lookup(t.clusters[k / ClusterSize(u)], ClusterSize(u), k % ClusterSize(u))
  {
    LookupBelow(t', u, k);
  }

  /** One key of the node `PlacedLookup` describes. */
  lemma PlacedAt<V>(t: KVTree<V>, u: int, least: int, lv: V, y: int, h: int, l: int, o: Optional<V>, c: KVTree<V>, k: int)
    requires Valid(t, u) && t.Node? && o.Present?
    requires (least == t.min && lv == t.minVal && t.min < y < u)
          || (0 <= least < t.min && y == t.min && o == Present(t.minVal))
    requires h == y / ClusterSize(u) && l == y % ClusterSize(u) && 0 <= h < |t.clusters|
    requires forall k :: Lookup(c, ClusterSize(u), k) == if k == l then o else Lookup(t.clusters[h], ClusterSize(u), k)
    ensures var t' := Node(least, if y > t.max then y else t.max, lv, t.summary + {h}, t.clusters[h := c]);
      Lookup(t', u, k) == if k == y then o else if k == least then Present(lv) else Lookup(t, u, k)
  {
    NodeFacts(t, u);
    var t' := Node(least, if y > t.max then y else t.max, lv, t.summary + {h}, t.clusters[h := c]);
    if k != least {
      if 0 <= k < u {
        Split(u);
        IndexOf(y, ClusterSize(u));
        IndexOf(k, ClusterSize(u));
        RebuiltAt(t, u, least, h, c, t', k);
        if k != t.min {
          LookupBelow(t, u, k);
        }
      } else {
        LookupOutside(t, u, k);
      }
    }
  }

  /** ... and the node is valid. */
  lemma PlaceBelow<V>(t: KVTree<V>, u: int, least: int, lv: V, y: int, h: int, l: int, o: Optional<V>, c: KVTree<V>)
    requires Valid(t, u) && t.Node? && o.Present?
    requires (least == t.min && lv == t.minVal && t.min < y < u)
          || (0 <= least < t.min && y == t.min && o == Present(t.minVal))
    requires h == y / ClusterSize(u) && l == y % ClusterSize(u) && 0 <= h < |t.clusters|
    requires Valid(c, ClusterSize(u))
    requires forall k :: Lookup(c, ClusterSize(u), k) == if k == l then o else Lookup(t.clusters[h], ClusterSize(u), k)
    ensures var t' := Node(least, if y > t.max then y else t.max, lv, t.summary + {h}, t.clusters[h := c]);
      Valid(t', u)
      && Keys(t', u) == Keys(t, u) + {least, y}
      && forall k :: Lookup(t', u, k) == if k == y then o else if k == least then Present(lv) else Lookup(t, u, k)
  {
    NodeFacts(t, u);
    Split(u);
    var cs, nc := ClusterSize(u), NClusters(u);
    var t' := Node(least, if y > t.max then y else t.max, lv, t.summary + {h}, t.clusters[h := c]);
    var keys, rest := Keys(t, u), Keys(t, u) - {t.min};
    PlacedLookup(t, u, least, lv, y, h, l, o, c);
    InsertKeys(keys, t.min, t.max, least, y);
    KeysOf(c, t.clusters[h], cs, l, o);
    PlacedSlices(t, u, y, c);
    ValidNode(t', u, rest + {y});
  }

  /** The clusters and summary `upsert` and `insert` leave: y's cluster is
      c, which gained y's offset, and they spread the old keys other than
      `min`, with y. */
  lemma PlacedSlices<V>(t: KVTree<V>, u: int, y: int, c: KVTree<V>)
    requires Valid(t, u) && t.Node? && 0 <= y < u
    requires IsPow2(u) && IsPow2(ClusterSize(u)) && 0 <= y / ClusterSize(u) < |t.clusters|
    requires Valid(c, ClusterSize(u))
    requires Keys(c, ClusterSize(u)) == Keys(t.clusters[y / ClusterSize(u)], ClusterSize(u)) + {y % ClusterSize(u)}
    ensures var h, cs := y / ClusterSize(u), ClusterSize(u);
      var clusters := t.clusters[h := c];
      var rest := Keys(t, u) - {t.min} + {y};
      (forall j | 0 <= j < |clusters| && clusters[j] != Nil :: Valid(clusters[j], cs) && Keys(clusters[j], cs) != {})
      && (forall j | 0 <= j < |clusters| :: Keys(clusters[j], cs) == Slice(rest, j, cs))
      && t.summary + {h} == Occupied(rest, NClusters(u), cs)
  {
    NodeFacts(t, u);
    Split(u);
    var cs, nc := ClusterSize(u), NClusters(u);
    var rest := Keys(t, u) - {t.min};
    IndexOf(y, cs);
    forall j | 0 <= j < |t.clusters|
      ensures Keys(t.clusters[y / cs := c][j], cs) == Slice(rest + {y}, j, cs)
    {
      SliceInsert(rest, cs, y, j);
    }
    OccupiedInsert(rest, nc, cs, y);
  }

  /** `upsert(x, val)`: x holds val afterwards. `min` is overwritten in
      place; below an existing `min` the new key takes its place and the old
      `min` moves down; any other key goes down to its cluster. */
  function Upsert<V>(t: KVTree<V>, u: int, x: int, val: V): (r: (KVTree<V>, bool))
    requires Valid(t, u) && 0 <= x < u
    decreases t, 1
  {
    match t
    case Leaf(pairs) => (Leaf(pairs[x := val]), x !in pairs)
    case Blank => (Single(u, x, val), true)
    case Node(min, _, minVal, _, _) =>
      if x == min then (t.(minVal := val), false)
      else if x < min then UpsertBelow(t, u, x, val, min, minVal)
      else UpsertBelow(t, u, min, minVal, x, val)
  }

  /** The rest of `upsert` once x and `min` are in order: the node's `min`
      becomes `least` with lv, and y goes down with w to cluster
      `y / clusterSize`; a null cluster is allocated, named in the summary
      and given its one pair, otherwise the cluster is asked. */
  function UpsertBelow<V>(t: KVTree<V>, u: int, least: int, lv: V, y: int, w: V): (r: (KVTree<V>, bool))
    requires Valid(t, u) && t.Node? && 0 <= y < u
    ensures r.0.Node? && r.0.min == least && r.0.minVal == lv
    decreases t, 0
  {
    Split(u);
    var cs := ClusterSize(u);
    DivModBounds(y, cs, NClusters(u));
    var h, l := y / cs, y % cs;
    var (c, inserted, summary') :=
      if t.clusters[h] == Nil then (Single(cs, l, w), true, t.summary + {h})
      else
        var (c, ins) := Upsert(t.clusters[h], cs, l, w);
        (c, ins, t.summary);
    (Node(least, if y > t.max then y else t.max, lv, summary', t.clusters[h := c]), inserted)
  }

  /** `insert(x, val)`: as `upsert`, except that a key already present keeps
      its value; `min` and `max` are answered at once. */
  function Insert<V>(t: KVTree<V>, u: int, x: int, val: V): (r: (KVTree<V>, bool))
    requires Valid(t, u) && 0 <= x < u
    decreases t, 1
  {
    match t
    case Leaf(pairs) => if x in pairs then (t, false) else (Leaf(pairs[x := val]), true)
    case Blank => (Single(u, x, val), true)
    case Node(min, max, minVal, _, _) =>
      if x == min || x == max then (t, false)
      else if x < min then InsertBelow(t, u, x, val, min, minVal)
      else InsertBelow(t, u, min, minVal, x, val)
  }

  /** The rest of `insert` once x and `min` are in order, as `UpsertBelow`
      but asking the cluster to `insert`. */
  function InsertBelow<V>(t: KVTree<V>, u: int, least: int, lv: V, y: int, w: V): (r: (KVTree<V>, bool))
    requires Valid(t, u) && t.Node? && 0 <= y < u
    ensures r.0.Node? && r.0.min == least && r.0.minVal == lv
    decreases t, 0
  {
    Split(u);
    var cs := ClusterSize(u);
    DivModBounds(y, cs, NClusters(u));
    var h, l := y / cs, y % cs;
    var (c, inserted, summary') :=
      if t.clusters[h] == Nil then (Single(cs, l, w), true, t.summary + {h})
      else
        var (c, ins) := Insert(t.clusters[h], cs, l, w);
        (c, ins, t.summary);
    (Node(least, if y > t.max then y else t.max, lv, summary', t.clusters[h := c]), inserted)
  }

  /** A cluster in use is named by the summary. */
  lemma InSummary<V>(t: KVTree<V>, u: int, h: int)
    requires Valid(t, u) && t.Node? && 0 <= h < |t.clusters| && t.clusters[h] != Nil
    ensures h in t.summary
  {
    assert Slice(Keys(t, u) - {t.min}, h, ClusterSize(u)) != {};
  }

  /** `min` is kept out of its cluster. */
  lemma MinNotBelow<V>(t: KVTree<V>, u: int)
    requires Valid(t, u) && t.Node?
    ensures 0 <= t.min / ClusterSize(u) < |t.clusters|
    ensures Lookup(t.clusters[t.min / ClusterSize(u)], ClusterSize(u), t.min % ClusterSize(u)) == Absent
  {
    NodeFacts(t, u);
    Split(u);
    DivModBounds(t.min, ClusterSize(u), NClusters(u));
    SliceMember(Keys(t, u) - {t.min}, ClusterSize(u), t.min);
  }

  /** `upsert` of the node's own `min` rewrites `minVal` only. */
  lemma UpsertMin<V>(t: KVTree<V>, u: int, val: V)
    requires Valid(t, u) && t.Node?
    ensures Valid(t.(minVal := val), u)
    ensures forall k :: Lookup(t.(minVal := val), u, k) == if k == t.min then Present(val) else Lookup(t, u, k)
  {
    var t' := t.(minVal := val);
    forall k
      ensures Lookup(t', u, k) == if k == t.min then Present(val) else Lookup(t, u, k)
    {}
    assert Keys(t', u) == Keys(t, u);
  }

  /** After `upsert`, x holds val, every other key is unchanged, the tree is
      still valid, and the answer is true exactly when x was absent. */
  lemma {:induction false} UpsertCorrect<V>(t: KVTree<V>, u: int, x: int, val: V)
    requires Valid(t, u) && 0 <= x < u
    ensures Valid(Upsert(t, u, x, val).0, u)
    ensures forall k :: Lookup(Upsert(t, u, x, val).0, u, k) == if k == x then Present(val) else Lookup(t, u, k)
    ensures Upsert(t, u, x, val).1 == Lookup(t, u, x).Absent?
    decreases t, 2
  {
    match t
    case Leaf(pairs) =>
      LeafKeys(t, u);
    case Blank =>
      SingleCorrect(u, x, val);
    case Node(min, _, minVal, _, _) =>
      if x == min {
        UpsertMin(t, u, val);
      } else if x < min {
        NodeFacts(t, u);
        assert x !in Keys(t, u);
        UpsertBelowCorrect(t, u, x, val, min, minVal);
      } else {
        UpsertBelowCorrect(t, u, min, minVal, x, val);
      }
  }

  /** `UpsertBelow` puts w at y and lv at `least`, and leaves every other key
      alone; the answer is true exactly when y had no pair below the node's
      `min` (the old `min` moving down always lands in a free slot). */
  lemma {:induction false} UpsertBelowCorrect<V>(t: KVTree<V>, u: int, least: int, lv: V, y: int, w: V)
    requires Valid(t, u) && t.Node? && 0 <= y < u
    requires (least == t.min && lv == t.minVal && t.min < y)
          || (0 <= least < t.min && y == t.min && w == t.minVal)
    ensures Valid(UpsertBelow(t, u, least, lv, y, w).0, u)
    ensures forall k :: Lookup(UpsertBelow(t, u, least, lv, y, w).0, u, k) ==
                        if k == y then Present(w) else if k == least then Present(lv) else Lookup(t, u, k)
    ensures UpsertBelow(t, u, least, lv, y, w).1 == (y == t.min || Lookup(t, u, y).Absent?)
    decreases t, 1
  {
    Split(u);
    var cs := ClusterSize(u);
    DivModBounds(y, cs, NClusters(u));
    if y == t.min {
      MinNotBelow(t, u);
    } else {
      LookupBelow(t, u, y);
    }
    var h := y / cs;
    var c, ins := ClusterUpserted(t, u, h, y % cs, w);
    PlaceBelow(t, u, least, lv, y, h, y % cs, Present(w), c);
    UpsertBelowIs(t, u, least, lv, y, w, c, ins);
  }

  /** `upsert` below `min` in terms of what it does to cluster h: the node that
      results, and whether a key was added. */
  lemma UpsertBelowIs<V>(t: KVTree<V>, u: int, least: int, lv: V, y: int, w: V, c: KVTree<V>, ins: bool)
    requires Valid(t, u) && t.Node? && 0 <= y < u && IsPow2(ClusterSize(u))
    requires 0 <= y / ClusterSize(u) < |t.clusters| && 0 <= y % ClusterSize(u) < ClusterSize(u)
    requires t.clusters[y / ClusterSize(u)] != Nil ==>
               y / ClusterSize(u) in t.summary && Valid(t.clusters[y / ClusterSize(u)], ClusterSize(u))
    requires (c, ins) == if t.clusters[y / ClusterSize(u)] == Nil then (Single(ClusterSize(u), y % ClusterSize(u), w), true)
                         else Upsert(t.clusters[y / ClusterSize(u)], ClusterSize(u), y % ClusterSize(u), w)
    ensures UpsertBelow(t, u, least, lv, y, w)
         == (Node(least, if y > t.max then y else t.max, lv, t.summary + {y / ClusterSize(u)}, t.clusters[y / ClusterSize(u) := c]), ins)
  {
    var h := y / ClusterSize(u);
    if t.clusters[h] != Nil {
      assert t.summary + {h} == t.summary;
    }
  }

  /** What `upsert` leaves in cluster h: a new one-pair cluster if it was
      null, else the cluster's own `upsert`. */
  lemma {:induction false} ClusterUpserted<V>(t: KVTree<V>, u: int, h: int, l: int, w: V) returns (c: KVTree<V>, ins: bool)
    requires Valid(t, u) && t.Node? && IsPow2(u) && IsPow2(ClusterSize(u))
    requires 0 <= h < |t.clusters| && 0 <= l < ClusterSize(u)
    ensures (c, ins) == if t.clusters[h] == Nil then (Single(ClusterSize(u), l, w), true)
                        else Upsert(t.clusters[h], ClusterSize(u), l, w)
    ensures Valid(c, ClusterSize(u))
    ensures forall k :: Lookup(c, ClusterSize(u), k) == if k == l then Present(w) else Lookup(t.clusters[h], ClusterSize(u), k)
    ensures ins == Lookup(t.clusters[h], ClusterSize(u), l).Absent?
    ensures t.clusters[h] != Nil ==> h in t.summary && Valid(t.clusters[h], ClusterSize(u))
    decreases t, 0
  {
    Split(u);
    if t.clusters[h] == Nil {
      SingleCorrect(ClusterSize(u), l, w);
      c, ins := Single(ClusterSize(u), l, w), true;
    } else {
      UpsertCorrect(t.clusters[h], ClusterSize(u), l, w);
      InSummary(t, u, h);
      var r := Upsert(t.clusters[h], ClusterSize(u), l, w);
      c, ins := r.0, r.1;
    }
  }

  /** After `insert`, an absent x holds val, a present one keeps its value,
      every other key is unchanged, the tree is still valid, and the answer
      is true exactly when x was absent. */
  lemma {:induction false} InsertCorrect<V>(t: KVTree<V>, u: int, x: int, val: V)
    requires Valid(t, u) && 0 <= x < u
    ensures Valid(Insert(t, u, x, val).0, u)
    ensures forall k :: Lookup(Insert(t, u, x, val).0, u, k) ==
                        if k == x && Lookup(t, u, x).Absent? then Present(val) else Lookup(t, u, k)
    ensures Insert(t, u, x, val).1 == Lookup(t, u, x).Absent?
    decreases t, 2
  {
    match t
    case Leaf(pairs) =>
      LeafKeys(t, u);
    case Blank =>
      SingleCorrect(u, x, val);
    case Node(min, max, minVal, _, _) =>
      if x == max || x == min {
        NodeFacts(t, u);
        assert x in Keys(t, u);
      } else if x < min {
        NodeFacts(t, u);
        assert x !in Keys(t, u);
        InsertBelowCorrect(t, u, x, val, min, minVal);
      } else {
        InsertBelowCorrect(t, u, min, minVal, x, val);
      }
  }

  /** What `insert` leaves in cluster h: a new one-pair cluster if it was
      null, else the cluster's own `insert`. */
  lemma {:induction false} ClusterInserted<V>(t: KVTree<V>, u: int, h: int, l: int, w: V) returns (c: KVTree<V>, ins: bool)
    requires Valid(t, u) && t.Node? && IsPow2(u) && IsPow2(ClusterSize(u))
    requires 0 <= h < |t.clusters| && 0 <= l < ClusterSize(u)
    ensures (c, ins) == if t.clusters[h] == Nil then (Single(ClusterSize(u), l, w), true)
                        else Insert(t.clusters[h], ClusterSize(u), l, w)
    ensures Valid(c, ClusterSize(u))
    ensures forall k :: Lookup(c, ClusterSize(u), k) ==
                        if k == l && Lookup(t.clusters[h], ClusterSize(u), l).Absent? then Present(w)
                        else Lookup(t.clusters[h], ClusterSize(u), k)
    ensures ins == Lookup(t.clusters[h], ClusterSize(u), l).Absent?
    ensures t.clusters[h] != Nil ==> h in t.summary && Valid(t.clusters[h], ClusterSize(u))
    decreases t, 0
  {
    Split(u);
    if t.clusters[h] == Nil {
      SingleCorrect(ClusterSize(u), l, w);
      c, ins := Single(ClusterSize(u), l, w), true;
    } else {
      InsertCorrect(t.clusters[h], ClusterSize(u), l, w);
      InSummary(t, u, h);
      var r := Insert(t.clusters[h], ClusterSize(u), l, w);
      c, ins := r.0, r.1;
    }
  }

  /** `InsertBelow` puts lv at `least`, gives y the pair w only if it had
      none, and leaves every other key alone; the answer is as for
      `UpsertBelow`. */
  lemma {:induction false} InsertBelowCorrect<V>(t: KVTree<V>, u: int, least: int, lv: V, y: int, w: V)
    requires Valid(t, u) && t.Node? && 0 <= y < u
    requires (least == t.min && lv == t.minVal && t.min < y)
          || (0 <= least < t.min && y == t.min && w == t.minVal)
    ensures Valid(InsertBelow(t, u, least, lv, y, w).0, u)
    ensures forall k :: Lookup(InsertBelow(t, u, least, lv, y, w).0, u, k) ==
                        if k == y && Lookup(t, u, y).Absent? then Present(w)
                        else if k == least then Present(lv) else Lookup(t, u, k)
    ensures InsertBelow(t, u, least, lv, y, w).1 == (y == t.min || Lookup(t, u, y).Absent?)
    decreases t, 1
  {
    Split(u);
    var cs := ClusterSize(u);
    DivModBounds(y, cs, NClusters(u));
    if y == t.min {
      MinNotBelow(t, u);
    } else {
      LookupBelow(t, u, y);
    }
    var h := y / cs;
    var c, ins := ClusterInserted(t, u, h, y % cs, w);
    var o := if y == t.min || Lookup(t, u, y).Absent? then Present(w) else Lookup(t, u, y);
    PlaceBelow(t, u, least, lv, y, h, y % cs, o, c);
    InsertBelowIs(t, u, least, lv, y, w, c, ins);
  }

  /** `insert` below `min` in terms of what it does to cluster h: the node that
      results, and whether a key was added. */
  lemma InsertBelowIs<V>(t: KVTree<V>, u: int, least: int, lv: V, y: int, w: V, c: KVTree<V>, ins: bool)
    requires Valid(t, u) && t.Node? && 0 <= y < u && IsPow2(ClusterSize(u))
    requires 0 <= y / ClusterSize(u) < |t.clusters| && 0 <= y % ClusterSize(u) < ClusterSize(u)
    requires t.clusters[y / ClusterSize(u)] != Nil ==>
               y / ClusterSize(u) in t.summary && Valid(t.clusters[y / ClusterSize(u)], ClusterSize(u))
    requires (c, ins) == if t.clusters[y / ClusterSize(u)] == Nil then (Single(ClusterSize(u), y % ClusterSize(u), w), true)
                         else Insert(t.clusters[y / ClusterSize(u)], ClusterSize(u), y % ClusterSize(u), w)
    ensures InsertBelow(t, u, least, lv, y, w)
         == (Node(least, if y > t.max then y else t.max, lv, t.summary + {y / ClusterSize(u)}, t.clusters[y / ClusterSize(u) := c]), ins)
  {
    var h := y / ClusterSize(u);
    if t.clusters[h] != Nil {
      assert t.summary + {h} == t.summary;
    }
  }

  // ---- deletion ----

  /** The summary holds cluster numbers, and every cluster's fields can be read. */
  lemma SummaryFacts<V>(t: KVTree<V>, u: int)
    requires Valid(t, u) && t.Node?
    ensures InUniverse(t.summary, NClusters(u)) && |t.clusters| == NClusters(u)
    ensures forall h | 0 <= h < |t.clusters| :: Shaped(t.clusters[h], ClusterSize(u))
  {
    ClustersShaped(t, u);
  }

  /** Deleting `min` from a node with company promotes the least key of the
      first cluster the summary names, together with its value. */
  lemma Promoted<V>(t: KVTree<V>, u: int)
    requires Valid(t, u) && t.Node? && t.min != t.max
    ensures InUniverse(t.summary, NClusters(u)) && |t.clusters| == NClusters(u)
    ensures var first := MinKey(t.summary, NClusters(u));
      first in t.summary && 0 <= first < |t.clusters|
      && Valid(t.clusters[first], ClusterSize(u)) && Keys(t.clusters[first], ClusterSize(u)) != {}
    ensures var first := MinKey(t.summary, NClusters(u));
      var y := At(first, MinOf(t.clusters[first], ClusterSize(u)), ClusterSize(u));
      IsMinOf(y, Keys(t, u) - {t.min}) && t.min < y <= t.max
      && Lookup(t, u, y) == Present(MinVal(t.clusters[first], ClusterSize(u)))
  {
    NodeFacts(t, u);
    Split(u);
    SummaryFacts(t, u);
    var cs, nc := ClusterSize(u), NClusters(u);
    var rest := Keys(t, u) - {t.min};
    OccupiedEmpty(rest, nc, cs);
    var first := MinKey(t.summary, nc);
    Occupant(t, u, first);
    var c := t.clusters[first];
    var m := MinOf(c, cs);
    assert Keys(c, cs) == Slice(rest, first, cs);
    MinOfClusters(rest, nc, cs, first, m);
    LookupAt(t, u, first, m);
  }

  /** `del(x)`: a key outside `[min, max]` is absent at once; the only key
      leaves the node emptied; deleting `min` promotes the first cluster's
      least key, which is then the key deleted below. */
  function Del<V>(t: KVTree<V>, u: int, x: int): (r: (KVTree<V>, bool))
    requires Valid(t, u) && 0 <= x < u
    ensures Shaped(r.0, u)
    decreases t, 1
  {
    match t
    case Leaf(pairs) => (Leaf(pairs - {x}), x in pairs)
    case Blank => (Blank, false)
    case Node(min, max, minVal, summary, clusters) =>
      if x > max || x < min then (t, false)
      else if min == max then
        if min == x then (Blank, true) else (t, false)
      else if x == min then
        Promoted(t, u);
        var cs := ClusterSize(u);
        var first := MinKey(summary, NClusters(u));
        var y := At(first, MinOf(clusters[first], cs), cs);
        DelBelow(t, u, y, MinVal(clusters[first], cs), y)
      else
        DelBelow(t, u, min, minVal, x)
  }

  /** The rest of `del` on a node with company: the node's `min` is now
      `least` with value lv, and y leaves its cluster. A cluster left empty
      is released and dropped from the summary; when y was `max`, the new
      `max` is read off y's cluster or, if that emptied, off the last
      cluster the summary still names, or is `min` when none is left. */
  function DelBelow<V>(t: KVTree<V>, u: int, least: int, lv: V, y: int): (r: (KVTree<V>, bool))
    requires Valid(t, u) && t.Node? && t.min < y <= t.max
    ensures r.0.Node?
    decreases t, 0
  {
    NodeFacts(t, u);
    SummaryFacts(t, u);
    Split(u);
    var cs, nc := ClusterSize(u), NClusters(u);
    DivModBounds(y, cs, nc);
    var h, l := y / cs, y % cs;
    if t.clusters[h] == Nil then (Node(least, t.max, lv, t.summary, t.clusters), false)
    else
      var (c, erased) := Del(t.clusters[h], cs, l);
      if MinOf(c, cs) == None then
        var summary := t.summary - {h};
        var clusters := t.clusters[h := Nil];
        var max :=
          if y != t.max then t.max
          else
            var summaryMax := MaxKey(summary, nc);
            if summaryMax == None then least else At(summaryMax, MaxOf(clusters[summaryMax], cs), cs);
        (Node(least, max, lv, summary, clusters), erased)
      else
        (Node(least, if y == t.max then At(h, MaxOf(c, cs), cs) else t.max, lv, t.summary, t.clusters[h := c]), erased)
  }

  /** With one more key below them all, the greatest key is unchanged, or
      is that key when it is alone. */
  lemma MaxWithLeast(rest: set<int>, least: int, m: int)
    requires IsMaxOf(m, rest) && 0 <= least
    requires forall k | k in rest :: least < k
    ensures IsMaxOf(if m == None then least else m, rest + {least})
  {}

  /** The shared setting of the deletion lemmas: x is deleted from a node
      with company, y is the key that leaves the clusters and `least` the
      node's `min` afterwards, holding lv. */
  ghost predicate Deleting<V>(t: KVTree<V>, u: int, x: int, y: int, least: int, lv: V)
  {
    Valid(t, u) && t.Node? && t.min != t.max && t.min <= x <= t.max && t.min < y <= t.max
    && (x == t.min ==> IsMinOf(y, Keys(t, u) - {t.min}) && least == y && Lookup(t, u, y) == Present(lv))
    && (x != t.min ==> y == x && least == t.min && lv == t.minVal)
  }

  /** When y was `max` and its cluster keeps keys, the new `max` is that
      cluster's `max`. */
  lemma MaxAfterKept<V>(t: KVTree<V>, u: int, x: int, y: int, least: int, lv: V, c: KVTree<V>)
    requires Deleting(t, u, x, y, least, lv) && y == t.max
    requires IsPow2(u) && IsPow2(ClusterSize(u)) && 0 <= y / ClusterSize(u) < |t.clusters|
    requires Valid(c, ClusterSize(u)) && Keys(c, ClusterSize(u)) != {}
    requires Keys(c, ClusterSize(u)) == Keys(t.clusters[y / ClusterSize(u)], ClusterSize(u)) - {y % ClusterSize(u)}
    ensures IsMaxOf(At(y / ClusterSize(u), MaxOf(c, ClusterSize(u)), ClusterSize(u)), Keys(t, u) - {x})
  {
    NodeFacts(t, u);
    Split(u);
    var cs, nc := ClusterSize(u), NClusters(u);
    var h, l := y / cs, y % cs;
    var keys, rest := Keys(t, u), Keys(t, u) - {t.min};
    DelSeveralKeys(keys, t.min, t.max, x, y, least);
    var rest' := rest - {y};
    SliceDelete(rest, cs, y, h);
    LastCluster(rest', nc, cs, y);
    MaxOfClusters(rest', nc, cs, h, MaxOf(c, cs));
    MaxWithLeast(rest', least, At(h, MaxOf(c, cs), cs));
  }

  /** When y was `max` and its cluster emptied, the new `max` is the `max`
      of the last cluster the summary still names, or `min` when there is
      none. */
  lemma MaxAfterEmptied<V>(t: KVTree<V>, u: int, x: int, y: int, least: int, lv: V)
    requires Deleting(t, u, x, y, least, lv) && y == t.max
    requires IsPow2(u) && IsPow2(ClusterSize(u)) && 0 <= y / ClusterSize(u) < |t.clusters|
    requires Keys(t.clusters[y / ClusterSize(u)], ClusterSize(u)) - {y % ClusterSize(u)} == {}
    ensures InUniverse(t.summary - {y / ClusterSize(u)}, NClusters(u)) && |t.clusters| == NClusters(u)
    ensures forall h | 0 <= h < |t.clusters| :: Shaped(t.clusters[h], ClusterSize(u))
    ensures var sm := MaxKey(t.summary - {y / ClusterSize(u)}, NClusters(u));
      sm == None || (0 <= sm < |t.clusters| && sm != y / ClusterSize(u))
    ensures var sm := MaxKey(t.summary - {y / ClusterSize(u)}, NClusters(u));
      var clusters := t.clusters[y / ClusterSize(u) := Nil];
      IsMaxOf(if sm == None then least else At(sm, MaxOf(clusters[sm], ClusterSize(u)), ClusterSize(u)), Keys(t, u) - {x})
  {
    NodeFacts(t, u);
    Split(u);
    SummaryFacts(t, u);
    var cs, nc := ClusterSize(u), NClusters(u);
    var h, l := y / cs, y % cs;
    var keys, rest := Keys(t, u), Keys(t, u) - {t.min};
    DelSeveralKeys(keys, t.min, t.max, x, y, least);
    var rest' := rest - {y};
    SliceDelete(rest, cs, y, h);
    OccupiedDelete(rest, nc, cs, y);
    var clusters := t.clusters[h := Nil];
    var sm := MaxKey(t.summary - {h}, nc);
    if sm == None {
      OccupiedEmpty(rest', nc, cs);
      MaxWithLeast(rest', least, None);
    } else {
      Occupant(t, u, sm);
      SliceDelete(rest, cs, y, sm);
      var m := MaxOf(clusters[sm], cs);
      MaxOfClusters(rest', nc, cs, sm, m);
      MaxWithLeast(rest', least, At(sm, m, cs));
    }
  }

  /** The node `del` leaves behind: `least` holds lv as `min`, y's cluster
      is c, which lost y's offset and is released when empty, and the
      summary drops a released cluster. Every key but x keeps its value. */
  lemma TakenLookup<V>(t: KVTree<V>, u: int, x: int, y: int, least: int, lv: V, c: KVTree<V>, max': int)
    requires Deleting(t, u, x, y, least, lv)
    requires IsPow2(u) && IsPow2(ClusterSize(u)) && 0 <= y / ClusterSize(u) < |t.clusters|
    requires Valid(c, ClusterSize(u))
    requires forall k :: Lookup(c, ClusterSize(u), k) ==
                         if k == y % ClusterSize(u) then Absent else Lookup(t.clusters[y / ClusterSize(u)], ClusterSize(u), k)
    ensures var h := y / ClusterSize(u);
      var emptied := Keys(c, ClusterSize(u)) == {};
      var t' := Node(least, max', lv, if emptied then t.summary - {h} else t.summary, t.clusters[h := if emptied then Nil else c]);
      (forall k :: Lookup(t', u, k) == if k == x then Absent else Lookup(t, u, k))
      && Keys(t', u) == Keys(t, u) - {x}
  {
    NodeFacts(t, u);
    Split(u);
    MinNotBelow(t, u);
    var cs, nc := ClusterSize(u), NClusters(u);
    var h, l := y / cs, y % cs;
    IndexOf(y, cs);
    var emptied := Keys(c, cs) == {};
    var c' := if emptied then Nil else c;
    var t' := Node(least, max', lv, if emptied then t.summary - {h} else t.summary, t.clusters[h := c']);
    assert forall j :: Lookup(c', cs, j) == Lookup(c, cs, j) by {
      forall j ensures Lookup(c', cs, j) == Lookup(c, cs, j) {
        if emptied && 0 <= j < cs {
          assert j !in Keys(c, cs);
        } else if emptied {
          LookupOutside(c, cs, j);
        }
      }
    }
    forall k
      ensures Lookup(t', u, k) == if k == x then Absent else Lookup(t, u, k)
    {
      TakenAt(t, u, x, y, least, lv, c', if emptied then t.summary - {h} else t.summary, max', k);
    }
    assert Keys(t', u) == Keys(t, u) - {x} by {
      forall k | 0 <= k < u
        ensures k in Keys(t', u) <==> k in Keys(t, u) - {x}
      {}
    }
  }

  /** One key of the node `TakenLookup` describes, with y's cluster
      replaced by c, which differs from it only in lacking y's offset. */
  lemma TakenAt<V>(t: KVTree<V>, u: int, x: int, y: int, least: int, lv: V, c: KVTree<V>,
                                      summary: set<int>, max': int, k: int)
    requires Deleting(t, u, x, y, least, lv)
    requires IsPow2(u) && IsPow2(ClusterSize(u)) && 0 <= y / ClusterSize(u) < |t.clusters|
    requires forall k :: Lookup(c, ClusterSize(u), k) ==
                         if k == y % ClusterSize(u) then Absent else Lookup(t.clusters[y / ClusterSize(u)], ClusterSize(u), k)
    ensures var t' := Node(least, max', lv, summary, t.clusters[y / ClusterSize(u) := c]);
      Lookup(t', u, k) == if k == x then Absent else Lookup(t, u, k)
  {
    NodeFacts(t, u);
    MinNotBelow(t, u);
    var t' := Node(least, max', lv, summary, t.clusters[y / ClusterSize(u) := c]);
    if k != least {
      if 0 <= k < u {
        Split(u);
        IndexOf(y, ClusterSize(u));
        IndexOf(k, ClusterSize(u));
        RebuiltAt(t, u, least, y / ClusterSize(u), c, t', k);
        if k != t.min {
          LookupBelow(t, u, k);
        }
      } else {
        LookupOutside(t, u, k);
      }
    }
  }

  /** The node invariant, from its parts: rest is the keys other than `min`. */
  lemma ValidNode<V>(t: KVTree<V>, u: int, rest: set<int>)
    requires t.Node? && IsPow2(u) && u > Cutoff && |t.clusters| == NClusters(u) && t.min != None
    requires IsMinOf(t.min, Keys(t, u)) && IsMaxOf(t.max, Keys(t, u)) && rest == Keys(t, u) - {t.min}
    requires forall h | 0 <= h < |t.clusters| && t.clusters[h] != Nil ::
               Valid(t.clusters[h], ClusterSize(u)) && Keys(t.clusters[h], ClusterSize(u)) != {}
    requires forall h | 0 <= h < |t.clusters| :: Keys(t.clusters[h], ClusterSize(u)) == Slice(rest, h, ClusterSize(u))
    requires t.summary == Occupied(rest, NClusters(u), ClusterSize(u))
    ensures Valid(t, u)
  {}

  /** The clusters and summary `del` leaves: y's cluster is c, released
      when empty, and they spread the old keys other than `min`, less y. */
  lemma TakenSlices<V>(t: KVTree<V>, u: int, y: int, c: KVTree<V>)
    requires Valid(t, u) && t.Node? && t.min < y < u
    requires IsPow2(u) && IsPow2(ClusterSize(u)) && 0 <= y / ClusterSize(u) < |t.clusters|
    requires Valid(c, ClusterSize(u))
    requires Keys(c, ClusterSize(u)) == Keys(t.clusters[y / ClusterSize(u)], ClusterSize(u)) - {y % ClusterSize(u)}
    ensures var h, cs := y / ClusterSize(u), ClusterSize(u);
      var emptied := Keys(c, cs) == {};
      var clusters := t.clusters[h := if emptied then Nil else c];
      var rest := Keys(t, u) - {t.min} - {y};
      (forall j | 0 <= j < |clusters| && clusters[j] != Nil :: Valid(clusters[j], cs) && Keys(clusters[j], cs) != {})
      && (forall j | 0 <= j < |clusters| :: Keys(clusters[j], cs) == Slice(rest, j, cs))
      && (if emptied then t.summary - {h} else t.summary) == Occupied(rest, NClusters(u), cs)
  {
    TakenKept(t, u, y, c);
    TakenClusters(t, u, y, c);
    TakenSummary(t, u, y, c);
  }

  /** ... every cluster left in place is valid and holds keys ... */
  lemma TakenKept<V>(t: KVTree<V>, u: int, y: int, c: KVTree<V>)
    requires Valid(t, u) && t.Node?
    requires 0 <= y / ClusterSize(u) < |t.clusters| && Valid(c, ClusterSize(u))
    ensures var h, cs := y / ClusterSize(u), ClusterSize(u);
      var clusters := t.clusters[h := if Keys(c, cs) == {} then Nil else c];
      forall j | 0 <= j < |clusters| && clusters[j] != Nil :: Valid(clusters[j], cs) && Keys(clusters[j], cs) != {}
  {
  }

  /** ... and the summary loses h exactly when that emptied cluster h. */
  lemma TakenSummary<V>(t: KVTree<V>, u: int, y: int, c: KVTree<V>)
    requires Valid(t, u) && t.Node? && t.min < y < u
    requires IsPow2(u) && IsPow2(ClusterSize(u)) && 0 <= y / ClusterSize(u) < |t.clusters|
    requires Valid(c, ClusterSize(u))
    requires Keys(c, ClusterSize(u)) == Keys(t.clusters[y / ClusterSize(u)], ClusterSize(u)) - {y % ClusterSize(u)}
    ensures var h, cs := y / ClusterSize(u), ClusterSize(u);
      (if Keys(c, cs) == {} then t.summary - {h} else t.summary)
        == Occupied(Keys(t, u) - {t.min} - {y}, NClusters(u), cs)
  {
    var cs := ClusterSize(u);
    var h := y / cs;
    var rest := Keys(t, u) - {t.min};
    Split(u);
    assert InUniverse(rest, cs * NClusters(u)) by {
      NodeFacts(t, u);
    }
    SliceDelete(rest, cs, y, h);
    OccupiedDelete(rest, NClusters(u), cs, y);
  }

  /** The clusters after `del` of y below `min`: cluster `y / clusterSize`
      has lost offset `y % clusterSize`, and is null if that emptied it. */
  lemma TakenClusters<V>(t: KVTree<V>, u: int, y: int, c: KVTree<V>)
    requires Valid(t, u) && t.Node? && t.min < y < u
    requires IsPow2(u) && IsPow2(ClusterSize(u)) && 0 <= y / ClusterSize(u) < |t.clusters|
    requires Valid(c, ClusterSize(u))
    requires Keys(c, ClusterSize(u)) == Keys(t.clusters[y / ClusterSize(u)], ClusterSize(u)) - {y % ClusterSize(u)}
    ensures var h, cs := y / ClusterSize(u), ClusterSize(u);
      var clusters := t.clusters[h := if Keys(c, cs) == {} then Nil else c];
      forall j | 0 <= j < |clusters| :: Keys(clusters[j], cs) == Slice(Keys(t, u) - {t.min} - {y}, j, cs)
  {
    NodeFacts(t, u);
    var cs := ClusterSize(u);
    var h := y / cs;
    var clusters := t.clusters[h := if Keys(c, cs) == {} then Nil else c];
    var rest := Keys(t, u) - {t.min};
    forall j | 0 <= j < |clusters|
      ensures Keys(clusters[j], cs) == Slice(rest - {y}, j, cs)
    {
      SliceDelete(rest, cs, y, j);
      if j == h && Keys(c, cs) == {} {
        var none: KVTree<V> := Nil;
        assert Keys(none, cs) == {};
      }
    }
  }

  /** ... and it is a valid node. */
  lemma TakenValid<V>(t: KVTree<V>, u: int, x: int, y: int, least: int, lv: V, c: KVTree<V>, max': int)
    requires Deleting(t, u, x, y, least, lv)
    requires IsPow2(u) && IsPow2(ClusterSize(u)) && 0 <= y / ClusterSize(u) < |t.clusters|
    requires Valid(c, ClusterSize(u))
    requires forall k :: Lookup(c, ClusterSize(u), k) ==
                         if k == y % ClusterSize(u) then Absent else Lookup(t.clusters[y / ClusterSize(u)], ClusterSize(u), k)
    requires IsMaxOf(max', Keys(t, u) - {x})
    ensures var h := y / ClusterSize(u);
      var emptied := Keys(c, ClusterSize(u)) == {};
      var t' := Node(least, max', lv, if emptied then t.summary - {h} else t.summary, t.clusters[h := if emptied then Nil else c]);
      Valid(t', u) && Keys(t', u) == Keys(t, u) - {x}
  {
    NodeFacts(t, u);
    Split(u);
    var cs := ClusterSize(u);
    var h := y / cs;
    IndexOf(y, cs);
    var emptied := Keys(c, cs) == {};
    var t' := Node(least, max', lv, if emptied then t.summary - {h} else t.summary, t.clusters[h := if emptied then Nil else c]);
    TakenLookup(t, u, x, y, least, lv, c, max');
    var keys := Keys(t, u);
    DelSeveralKeys(keys, t.min, t.max, x, y, least);
    KeysOf(c, t.clusters[h], cs, y % cs, Absent);
    TakenSlices(t, u, y, c);
    ValidNode(t', u, keys - {t.min} - {y});
  }

  /** After `del`, x is gone, every other key keeps its value, the tree is
      still valid, and the answer is true exactly when x was present. */
  lemma {:induction false} DelCorrect<V>(t: KVTree<V>, u: int, x: int)
    requires Valid(t, u) && 0 <= x < u
    ensures Valid(Del(t, u, x).0, u)
    ensures forall k :: Lookup(Del(t, u, x).0, u, k) == if k == x then Absent else Lookup(t, u, k)
    ensures Del(t, u, x).1 == Lookup(t, u, x).Present?
    decreases t, 2
  {
    match t
    case Leaf(pairs) =>
      LeafKeys(t, u);
    case Blank =>
    case Node(min, max, minVal, summary, clusters) =>
      NodeFacts(t, u);
      if x > max || x < min {
        assert x !in Keys(t, u);
      } else if min == max {
        RangeKeys(Keys(t, u), min, max, x);
        forall k
          ensures Lookup(Blank, u, k) == if k == x then Absent else Lookup(t, u, k)
        {
          if k != x && 0 <= k < u {
            assert k !in Keys(t, u);
          } else if k != x {
            LookupOutside(t, u, k);
          }
        }
      } else if x == min {
        Promoted(t, u);
        var cs := ClusterSize(u);
        var first := MinKey(summary, NClusters(u));
        var y := At(first, MinOf(clusters[first], cs), cs);
        DelBelowCorrect(t, u, x, y, y, MinVal(clusters[first], cs));
      } else {
        DelBelowCorrect(t, u, x, x, min, minVal);
      }
  }

  /** The part of `del` below `min`: y leaves its cluster, the summary and
      `max` follow, and `least` with lv becomes the node's `min`. */
  lemma {:induction false} DelBelowCorrect<V>(t: KVTree<V>, u: int, x: int, y: int, least: int, lv: V)
    requires Deleting(t, u, x, y, least, lv)
    ensures Valid(DelBelow(t, u, least, lv, y).0, u)
    ensures forall k :: Lookup(DelBelow(t, u, least, lv, y).0, u, k) == if k == x then Absent else Lookup(t, u, k)
    ensures DelBelow(t, u, least, lv, y).1 == Lookup(t, u, x).Present?
    decreases t, 1
  {
    NodeFacts(t, u);
    SummaryFacts(t, u);
    Split(u);
    var cs, nc := ClusterSize(u), NClusters(u);
    DivModBounds(y, cs, nc);
    var h, l := y / cs, y % cs;
    LookupBelow(t, u, y);
    if t.clusters[h] == Nil {
      assert DelBelow(t, u, least, lv, y) == (Node(least, t.max, lv, t.summary, t.clusters), false);
    } else {
      DelCorrect(t.clusters[h], cs, l);
      var r := Del(t.clusters[h], cs, l);
      var c := r.0;
      KeysOf(c, t.clusters[h], cs, l, Absent);
      var emptied := Keys(c, cs) == {};
      var max';
      if y != t.max {
        max' := t.max;
        DelSeveralKeys(Keys(t, u), t.min, t.max, x, y, least);
      } else if emptied {
        MaxAfterEmptied(t, u, x, y, least, lv);
        var sm := MaxKey(t.summary - {h}, nc);
        max' := if sm == None then least else At(sm, MaxOf(t.clusters[h := Nil][sm], cs), cs);
      } else {
        MaxAfterKept(t, u, x, y, least, lv, c);
        max' := At(h, MaxOf(c, cs), cs);
      }
      TakenValid(t, u, x, y, least, lv, c, max');
      TakenLookup(t, u, x, y, least, lv, c, max');
      assert DelBelow(t, u, least, lv, y) ==
        (Node(least, max', lv, if emptied then t.summary - {h} else t.summary, t.clusters[h := if emptied then Nil else c]), r.1);
    }
  }

  // ---- the max read of `del` as the source writes it ----

  /** What `PTR_TO_KLEAF(clusters[summaryMax])->max` reads off a cluster:
      the word where a leaf keeps `max`. A leaf gives its `max`, but an
      internal node keeps its `summary` pointer there, which is null (0)
      while the node holds a single key or none, and otherwise the address
      `addr` of that summary. The summary only names filled clusters, so a
      null cluster is never read. */
  function LeafMaxWord<V>(c: KVTree<V>, cs: int, addr: int): (w: int)
    requires Shaped(c, cs)
    ensures c.Leaf? ==> w == MaxOf(c, cs)
  {
    match c
    case Leaf(_) => MaxOf(c, cs)
    case Node(_, _, _, summary, _) => if summary == {} then 0 else addr
    case Blank => 0
    case Nil => 0
  }

  /** `del` below `min` as written: DelBelow, except that the new `max`
      after emptying y's cluster is `INDEX(summaryMax, w)` with w the word
      LeafMaxWord reads off the last cluster still named. While clusters
      are leaves it is DelBelow. */
  function DelBelowAsWritten<V>(t: KVTree<V>, u: int, least: int, lv: V, y: int, addr: int): (r: (KVTree<V>, bool))
    requires Valid(t, u) && t.Node? && t.min < y <= t.max
    ensures r.0.Node? && IsPow2(u) && (ClusterSize(u) <= Cutoff ==> r == DelBelow(t, u, least, lv, y))
  {
    NodeFacts(t, u);
    SummaryFacts(t, u);
    Split(u);
    var cs, nc := ClusterSize(u), NClusters(u);
    DivModBounds(y, cs, nc);
    var h, l := y / cs, y % cs;
    if t.clusters[h] == Nil then (Node(least, t.max, lv, t.summary, t.clusters), false)
    else
      var (c, erased) := Del(t.clusters[h], cs, l);
      if MinOf(c, cs) == None then
        var summary := t.summary - {h};
        var clusters := t.clusters[h := Nil];
        var summaryMax := MaxKey(summary, nc);
        if y != t.max then (Node(least, t.max, lv, summary, clusters), erased)
        else if summaryMax == None then (Node(least, least, lv, summary, clusters), erased)
        else
          LeafCluster(t, u, summaryMax);
          (Node(least, At(summaryMax, LeafMaxWord(clusters[summaryMax], cs, addr), cs), lv, summary, clusters), erased)
      else
        (Node(least, if y == t.max then At(h, MaxOf(c, cs), cs) else t.max, lv, t.summary, t.clusters[h := c]), erased)
  }

  /** A cluster the summary names is filled; at or below the cutoff it is a
      leaf. */
  lemma LeafCluster<V>(t: KVTree<V>, u: int, h: int)
    requires Valid(t, u) && t.Node? && h in t.summary
    ensures IsPow2(u) && 0 <= h < |t.clusters| && Shaped(t.clusters[h], ClusterSize(u))
    ensures t.clusters[h] != Nil && (ClusterSize(u) <= Cutoff ==> t.clusters[h].Leaf?)
  {
    NodeFacts(t, u);
    SummaryFacts(t, u);
    var cs := ClusterSize(u);
    Occupant(t, u, h);
  }

  // ---- an input on which the read goes wrong ----

  /** The powers of two the example below needs. */
  lemma SmallPowers()
    ensures IsPow2(128) && IsPow2(16384)
    ensures ClusterSize(128) == 8 && NClusters(128) == 16
    ensures ClusterSize(16384) == 128 && NClusters(16384) == 128
  {
    assert Pow2(3) == 8;
    assert Pow2(4) == 16;
    assert Pow2(7) == 128;
    assert Pow2(14) == 16384 by {
      assert Pow2(10) == 1024;
    }
    Pow2IsPow2(7);
    Pow2IsPow2(14);
  }

  /** An internal node of universe 128 holding the single key k with value
      0: no summary, every cluster null. */
  function Lone(k: int): KVTree<int>
  {
    Node(k, k, 0, {}, seq(16, _ => Nil))
  }

  lemma LoneValid(k: int)
    requires 0 <= k < 128
    ensures Valid(Lone(k), 128) && Keys(Lone(k), 128) == {k}
  {
    LoneShaped(Lone(k), k);
  }

  /** Any node of universe 128 laid out as Lone(k) is valid and holds k. */
  lemma LoneShaped(t: KVTree<int>, k: int)
    requires 0 <= k < 128 && t.Node? && t.min == k && t.max == k && t.summary == {} && |t.clusters| == 16
    requires forall h | 0 <= h < 16 :: t.clusters[h] == Nil
    ensures Valid(t, 128) && Keys(t, 128) == {k}
  {
    SmallPowers();
    LoneKeys(t, k);
    forall h | 0 <= h < 16
      ensures Keys(t.clusters[h], 8) == Slice(Keys(t, 128) - {k}, h, 8)
    {
      assert Keys(t.clusters[h], 8) == {};
    }
    OccupiedEmpty({}, 16, 8);
    assert Keys(t, 128) - {k} == {};
    ValidNode(t, 128, Keys(t, 128) - {k});
  }

  lemma LoneKeys(t: KVTree<int>, k: int)
    requires 0 <= k < 128 && t.Node? && t.min == k && t.max == k && t.summary == {} && |t.clusters| == 16
    requires forall h | 0 <= h < 16 :: t.clusters[h] == Nil
    ensures Keys(t, 128) == {k}
  {
    SmallPowers();
    forall j | 0 <= j < 128
      ensures Lookup(t, 128, j).Present? <==> j == k
    {
      if j != k {
        assert j / 8 < 16;
        assert t.clusters[j / 8] == Nil;
      }
    }
  }

  /** Keys {0, 200, 300} in universe 2^14, whose clusters of 128 are
      internal nodes: 200 is offset 72 of cluster 1, 300 offset 44 of
      cluster 2. */
  function ThreeKeys(): KVTree<int>
  {
    Node(0, 300, 0, {1, 2}, seq(128, h => if h == 1 then Lone(72) else if h == 2 then Lone(44) else Nil))
  }

  lemma ThreeKeysKeys(t: KVTree<int>, u: int)
    requires t == ThreeKeys() && u == 16384
    ensures Keys(t, u) == {0, 200, 300}
  {
    SmallPowers();
    LoneValid(72);
    LoneValid(44);
    forall k | 0 <= k < u
      ensures Lookup(t, u, k).Present? <==> k in {0, 200, 300}
    {
      if k != 0 {
        var h, l := k / 128, k % 128;
        assert k == 128 * h + l && 0 <= l < 128 && h < 128;
        assert Lookup(t, u, k) == Lookup(t.clusters[h], 128, l);
        if h == 1 {
          assert l in Keys(Lone(72), 128) <==> l == 72;
        } else if h == 2 {
          assert l in Keys(Lone(44), 128) <==> l == 44;
        }
      }
    }
  }

  /** The offsets {200, 300} leave in each cluster of 128. */
  lemma TwoKeysSlice(h: int)
    requires 0 <= h < 128
    ensures Slice({200, 300}, h, 128) == if h == 1 then {72} else if h == 2 then {44} else {}
  {
    var s := Slice({200, 300}, h, 128);
    forall l | l in s
      ensures (h == 1 && l == 72) || (h == 2 && l == 44)
    {
    }
    if h == 1 {
      assert At(1, 72, 128) == 200;
      assert 72 in s;
    } else if h == 2 {
      assert At(2, 44, 128) == 300;
      assert 44 in s;
    }
  }

  /** The summary of {200, 300} in clusters of 128. */
  lemma TwoKeysOccupied()
    ensures Occupied({200, 300}, 128, 128) == {1, 2}
  {
    forall h | 0 <= h < 128
      ensures Slice({200, 300}, h, 128) != {} <==> h in {1, 2}
    {
      TwoKeysSlice(h);
    }
  }

  lemma ThreeKeysSlices(t: KVTree<int>, u: int)
    requires t == ThreeKeys() && u == 16384
    ensures t.Node? && Keys(t, u) - {t.min} == {200, 300} && ClusterSize(u) == 128 && |t.clusters| == 128
    ensures forall h | 0 <= h < |t.clusters| :: Keys(t.clusters[h], ClusterSize(u)) == Slice({200, 300}, h, ClusterSize(u))
  {
    SmallPowers();
    LoneValid(72);
    LoneValid(44);
    ThreeKeysKeys(t, u);
    forall h | 0 <= h < 128
      ensures Keys(t.clusters[h], 128) == Slice({200, 300}, h, 128)
    {
      TwoKeysSlice(h);
      if h != 1 && h != 2 {
        assert t.clusters[h] == Nil;
        assert Keys(t.clusters[h], 128) == {};
      }
    }
  }

  /** Validity of a node of universe 2^14 shaped like ThreeKeys, from the
      facts the lemmas above establish about it. */
  lemma ThreeKeysAssembled(t: KVTree<int>, u: int)
    requires t.Node? && u == 16384 && t.min == 0 && t.max == 300 && t.summary == {1, 2} && |t.clusters| == 128
    requires Keys(t, u) == {0, 200, 300}
    requires forall h | 0 <= h < 128 :: Keys(t.clusters[h], 128) == Slice({200, 300}, h, 128)
    requires forall h | 0 <= h < 128 && t.clusters[h] != Nil :: h == 1 || h == 2
    requires t.clusters[1] == Lone(72) && t.clusters[2] == Lone(44)
    ensures Valid(t, u)
  {
    SmallPowers();
    LoneValid(72);
    LoneValid(44);
    TwoKeysOccupied();
    ValidNode(t, u, {200, 300});
  }

  /** ThreeKeys is a valid tree of universe 2^14 holding {0, 200, 300}. */
  lemma ThreeKeysValid(t: KVTree<int>, u: int)
    requires t == ThreeKeys() && u == 16384
    ensures Valid(t, u) && Keys(t, u) == {0, 200, 300}
    ensures t.Node? && t.min == 0 && t.max == 300 && t.minVal == 0 && t.summary == {1, 2}
    ensures |t.clusters| == 128 && t.clusters[1] == Lone(72) && t.clusters[2] == Lone(44)
  {
    ThreeKeysKeys(t, u);
    ThreeKeysSlices(t, u);
    ThreeKeysAssembled(t, u);
  }

  /** When y is `max` and its cluster h empties, the new `max` comes from
      sm, the last cluster the summary still names: its `max` in DelBelow,
      the word LeafMaxWord reads off it in DelBelowAsWritten. */
  lemma MaxFromLastCluster<V>(t: KVTree<V>, u: int, least: int, lv: V, y: int, h: int, sm: int, addr: int)
    requires Valid(t, u) && t.Node? && t.min < y == t.max
    requires IsPow2(u) && InUniverse(t.summary - {h}, NClusters(u))
    requires h == y / ClusterSize(u) && 0 <= h < |t.clusters| && t.clusters[h] != Nil
    requires Valid(t.clusters[h], ClusterSize(u)) && 0 <= y % ClusterSize(u) < ClusterSize(u)
    requires MinOf(Del(t.clusters[h], ClusterSize(u), y % ClusterSize(u)).0, ClusterSize(u)) == None
    requires sm == MaxKey(t.summary - {h}, NClusters(u)) && sm != None
    ensures 0 <= sm < |t.clusters| && sm != h && Shaped(t.clusters[sm], ClusterSize(u))
    ensures DelBelow(t, u, least, lv, y).0.max == At(sm, MaxOf(t.clusters[sm], ClusterSize(u)), ClusterSize(u))
    ensures DelBelowAsWritten(t, u, least, lv, y, addr).0.max
         == At(sm, LeafMaxWord(t.clusters[sm], ClusterSize(u), addr), ClusterSize(u))
  {
    LeafCluster(t, u, sm);
  }

  /** Once cluster 2 leaves the summary {1, 2}, cluster 1 is the last. */
  lemma OnlyClusterOne()
    ensures MaxKey({1}, 128) == 1
  {
  }

  /** `del(300)` on {0, 200, 300} in universe 2^14: cluster 2 empties and
      the new `max` comes from cluster 1, the last one left, an internal
      node holding only offset 72, with no summary. */
  lemma DelThreeKeys(t: KVTree<int>, u: int, addr: int)
    requires u == 16384 && Valid(t, u) && Keys(t, u) == {0, 200, 300}
    requires t.Node? && t.min == 0 && t.max == 300 && t.minVal == 0 && t.summary == {1, 2}
    requires |t.clusters| == 128 && t.clusters[1] == Lone(72) && t.clusters[2] == Lone(44)
    ensures Del(t, u, 300) == DelBelow(t, u, 0, 0, 300)
    ensures DelBelow(t, u, 0, 0, 300).0.max == At(1, 72, 128)
    ensures DelBelowAsWritten(t, u, 0, 0, 300, addr).0.max == At(1, 0, 128)
  {
    SmallPowers();
    LoneValid(44);
    assert t.clusters[2] == Lone(44) && t.clusters[1] == Lone(72);
    assert Del(Lone(44), 128, 44) == (Blank, true);
    assert t.summary - {2} == {1};
    OnlyClusterOne();
    assert ClusterSize(u) == 128;
    assert 300 / 128 == 2 && 300 % 128 == 44;
    MaxFromLastCluster(t, u, 0, 0, 300, 2, 1, addr);
  }

  /** Of {0, 200}, what is left of {0, 200, 300} once 300 goes, 200 is
      the greatest and 128 is not even a member. */
  lemma TwoHundredIsMax(keys: set<int>, good: int, bad: int)
    requires keys == {0, 200, 300} && good == 200 && bad == 128
    ensures IsMaxOf(good, keys - {300}) && !IsMaxOf(bad, keys - {300})
  {
    assert keys - {300} == {0, 200};
  }

  /** On any tree of universe 2^14 holding {0, 200, 300} laid out as
      ThreeKeys (ThreeKeysValid shows there is one), the corrected deletion
      of 300 leaves `max` 200, the greatest key left; as written the leaf
      cast reads the null summary pointer as offset 0 and leaves 128, which
      is not a key at all. */
  lemma DelReadsSummaryAsMax(t: KVTree<int>, u: int, addr: int)
    requires u == 16384 && Valid(t, u) && Keys(t, u) == {0, 200, 300}
    requires t.Node? && t.min == 0 && t.max == 300 && t.minVal == 0 && t.summary == {1, 2}
    requires |t.clusters| == 128 && t.clusters[1] == Lone(72) && t.clusters[2] == Lone(44)
    ensures IsMaxOf(Del(t, u, 300).0.max, Keys(t, u) - {300})
    ensures !IsMaxOf(DelBelowAsWritten(t, u, 0, 0, 300, addr).0.max, Keys(t, u) - {300})
    ensures DelBelowAsWritten(t, u, 0, 0, 300, addr).0.max == 128
  {
    DelThreeKeys(t, u, addr);
    assert At(1, 72, 128) == 200 && At(1, 0, 128) == 128;
    TwoHundredIsMax(Keys(t, u), Del(t, u, 300).0.max, DelBelowAsWritten(t, u, 0, 0, 300, addr).0.max);
  }
}
