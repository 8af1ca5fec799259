/**
 * `VebKInternal`: the key-only van Emde Boas node above the cutoff, with
 * lazily allocated clusters and summary drawn from per-thread pools, and the
 * pools themselves (`kMap`, `kPool`, `kToRefill`, `kToReclaim`).
 *
 * A node's keys other than `min` are spread over its clusters: key x sits in
 * cluster `HIGH(x)` at offset `LOW(x)`, and the summary holds the numbers of
 * the clusters that are not empty. A cluster or summary is a leaf when its
 * universe is at most the cutoff and an internal node otherwise.
 */
module VebK {
  import opened VebGlobal
  import opened VebSpec
  import opened VebLayout
  import opened VebKLeaves

  /** A child pointer: null, a pointer marked as a leaf, or an internal node. */
  datatype KRef = Nil | Leaf(leaf: KLeaf) | Node(node: KInternal)

  /** The object a pointer points to. */
  function RefHead(r: KRef): set<object>
  {
    match r
    case Nil => {}
    case Leaf(l) => {l}
    case Node(n) => {n}
  }

  /** Every object reachable through a pointer. */
  ghost function RefRepr(r: KRef): set<object>
    reads RefHead(r)
  {
    match r
    case Nil => {}
    case Leaf(l) => {l}
    case Node(n) => {n} + n.Repr
  }

  /** The universe of the node a pointer points to (`node->u`). */
  function RefSize(r: KRef): int
  {
    match r
    case Nil => 0
    case Leaf(l) => l.u
    case Node(n) => n.u
  }

  /** A pointer to a well-formed node of universe `size`, of the kind the size
      calls for: a leaf up to the cutoff, an internal node above it. */
  ghost predicate RefValid(r: KRef, size: int)
    reads RefHead(r), RefRepr(r)
    decreases RefRepr(r), 3
  {
    match r
    case Nil => true
    case Leaf(l) => l.Valid() && l.u == size && size <= Cutoff
    case Node(n) => n.Valid() && n.u == size && size > Cutoff
  }

  /** The keys of the node a pointer points to; none for null. */
  ghost function RefKeys(r: KRef): set<int>
    reads RefHead(r)
  {
    match r
    case Nil => {}
    case Leaf(l) => l.Keys()
    case Node(n) => n.Keys
  }

  /** `cluster->min` */
  function RefMin(r: KRef): int
    reads RefHead(r)
  {
    match r
    case Nil => None
    case Leaf(l) => l.min
    case Node(n) => n.min
  }

  /** `cluster->max` */
  function RefMax(r: KRef): int
    reads RefHead(r)
  {
    match r
    case Nil => None
    case Leaf(l) => l.max
    case Node(n) => n.max
  }

  lemma RefMinMax(r: KRef, size: int)
    requires RefValid(r, size)
    ensures IsMinOf(RefMin(r), RefKeys(r)) && IsMaxOf(RefMax(r), RefKeys(r))
    ensures InUniverse(RefKeys(r), size)
  {
    match r
    case Nil =>
    case Leaf(l) => l.KeysFacts();
    case Node(n) =>
  }

  /** The universes of every cluster and summary that can be allocated below
      a node of universe u, at any depth: the sizes whose pools it draws on. */
  ghost function SubSizes(u: int): set<int>
    requires IsPow2(u)
    decreases u
  {
    if u <= Cutoff then {}
    else
      DivideNodeShrinks(u);
      var ui := DivideNode(u);
      {ui.clusterSize, ui.nClusters} + SubSizes(ui.clusterSize) + SubSizes(ui.nClusters)
  }

  /** Every size drawn below u is a power of two no larger than u's summary. */
  lemma {:induction false} SubSizesBound(u: int)
    requires IsPow2(u)
    ensures u > Cutoff ==> forall s | s in SubSizes(u) :: IsPow2(s) && s <= DivideNode(u).nClusters
    ensures u <= Cutoff ==> SubSizes(u) == {}
    decreases u
  {
    if u > Cutoff {
      DivideNodeShrinks(u);
      var ui := DivideNode(u);
      SubSizesBound(ui.clusterSize);
      SubSizesBound(ui.nClusters);
      if ui.clusterSize > Cutoff {
        DivideNodeShrinks(ui.clusterSize);
      }
      if ui.nClusters > Cutoff {
        DivideNodeShrinks(ui.nClusters);
      }
    }
  }

  /** Below a cluster or below the summary, no size is as large as a
      cluster: so what a node draws for itself is never drawn again deeper down. */
  lemma SubSizesBelowChildren(u: int)
    requires IsPow2(u) && u > Cutoff
    ensures IsPow2(DivideNode(u).clusterSize) && IsPow2(DivideNode(u).nClusters)
    ensures forall s | s in SubSizes(DivideNode(u).clusterSize) :: s < DivideNode(u).clusterSize
    ensures forall s | s in SubSizes(DivideNode(u).nClusters) :: s < DivideNode(u).clusterSize
    ensures SubSizes(DivideNode(u).clusterSize) <= SubSizes(u)
    ensures SubSizes(DivideNode(u).nClusters) <= SubSizes(u)
  {
    var ui := DivideNode(u);
    DivideNodeShrinks(u);
    SubSizesBound(ui.clusterSize);
    SubSizesBound(ui.nClusters);
    if ui.clusterSize > Cutoff {
      DivideNodeShrinks(ui.clusterSize);
    }
    if ui.nClusters > Cutoff {
      SummaryOfSummarySmall(u);
      DivideNodeShrinks(ui.nClusters);
    }
  }

  /** The universes of the key-value nodes of a tree of universe u: u itself
      and, above the cutoff, the chain of cluster sizes below it. */
  ghost function KVChain(u: int): set<int>
    requires IsPow2(u)
    decreases u
  {
    if u <= Cutoff then {u}
    else
      DivideNodeShrinks(u);
      {u} + KVChain(DivideNode(u).clusterSize)
  }

  /** The universes of the key-only nodes below a key-value tree of universe
      u: the summary size of every node of the chain and every universe
      below that summary. */
  ghost function KSizesBelowKV(u: int): set<int>
    requires IsPow2(u)
    decreases u
  {
    if u <= Cutoff then {}
    else
      DivideNodeShrinks(u);
      var ui := DivideNode(u);
      {ui.nClusters} + SubSizes(ui.nClusters) + KSizesBelowKV(ui.clusterSize)
  }

  /** Every universe of the key-value chain is a power of two no larger than
      u, and every key-only universe below it is a power of two smaller
      than u: the root's own universe never has a key-only pool. */
  lemma {:induction false} KVSizesBound(u: int)
    requires IsPow2(u)
    ensures forall v | v in KVChain(u) :: IsPow2(v) && v <= u
    ensures forall s | s in KSizesBelowKV(u) :: IsPow2(s) && s < u
    decreases u
  {
    if u > Cutoff {
      DivideNodeShrinks(u);
      var ui := DivideNode(u);
      KVSizesBound(ui.clusterSize);
      SubSizesBound(ui.nClusters);
      if ui.nClusters > Cutoff {
        DivideNodeShrinks(ui.nClusters);
      }
      assert KSizesBelowKV(u) == {ui.nClusters} + SubSizes(ui.nClusters) + KSizesBelowKV(ui.clusterSize);
    }
  }

  /** Every node of the key-value chain finds its summary's universe, and
      every universe below that summary, among the key-only universes. */
  lemma {:induction false} SummariesCovered(u: int, v: int)
    requires IsPow2(u) && v in KVChain(u) && v > Cutoff
    ensures IsPow2(v) && IsPow2(DivideNode(v).nClusters)
    ensures {DivideNode(v).nClusters} + SubSizes(DivideNode(v).nClusters) <= KSizesBelowKV(u)
    decreases u
  {
    KVSizesBound(u);
    DivideNodeShrinks(v);
    if v != u {
      DivideNodeShrinks(u);
      SummariesCovered(DivideNode(u).clusterSize, v);
    }
  }

  /** Where a spare node is kept: position `index` of the pool for `size`, or
      position `index` of the reclaim list. */
  datatype Slot = Pooled(size: int, index: int) | Reclaimed(index: int)

  /** r is a node kept in the given slot: all its objects are spare and
      owned by that slot. */
  ghost predicate KeptIn(r: KRef, slot: Slot, spare: set<object>, owner: map<object, Slot>)
    reads RefHead(r)
  {
    !r.Nil? && RefRepr(r) <= spare
    && forall o | o in RefRepr(r) :: o in owner && owner[o] == slot
  }

  /** A well-formed node of universe `size` that holds no key. */
  ghost predicate EmptyNode(r: KRef, size: int)
    reads RefHead(r), RefRepr(r)
  {
    !r.Nil? && RefValid(r, size) && RefKeys(r) == {}
  }

  /** The owners once every object of `objs` belongs to `slot`. */
  ghost function Claimed(owner: map<object, Slot>, objs: set<object>, slot: Slot): (r: map<object, Slot>)
    ensures r.Keys == owner.Keys + objs
    ensures forall o | o in objs :: r[o] == slot
    ensures forall o | o in owner && o !in objs :: r[o] == owner[o]
  {
    owner + map o | o in objs :: slot
  }

  /** Every pooled node is an empty node of its pool's universe, kept in
      its own slot. */
  ghost predicate PoolsKept(pool: map<int, seq<KRef>>, spare: set<object>, owner: map<object, Slot>)
    reads spare
  {
    (forall s, i | s in pool && 0 <= i < |pool[s]| ::
       RefHead(pool[s][i]) <= spare && KeptIn(pool[s][i], Pooled(s, i), spare, owner))
    && (forall s, i | s in pool && 0 <= i < |pool[s]| :: EmptyNode(pool[s][i], s))
  }

  /** Every node of the reclamation list from position `from` on is an
      empty node of its own universe, kept in its own slot. */
  ghost predicate ReclaimKept(list: seq<KRef>, from: int, spare: set<object>, owner: map<object, Slot>)
    reads spare
  {
    0 <= from <= |list|
    && (forall j | from <= j < |list| ::
          RefHead(list[j]) <= spare && KeptIn(list[j], Reclaimed(j), spare, owner))
    && (forall j | from <= j < |list| :: EmptyNode(list[j], RefSize(list[j])))
  }

  /** New spare objects, all owned by one slot, leave every kept node kept. */
  lemma SpareGrown(pool: map<int, seq<KRef>>, list: seq<KRef>, from: int, spare: set<object>,
                   owner: map<object, Slot>, extra: set<object>, slot: Slot)
    requires PoolsKept(pool, spare, owner) && ReclaimKept(list, from, spare, owner) && extra !! spare
    ensures PoolsKept(pool, spare + extra, Claimed(owner, extra, slot))
    ensures ReclaimKept(list, from, spare + extra, Claimed(owner, extra, slot))
  {
    var owner' := Claimed(owner, extra, slot);
    forall s, i | s in pool && 0 <= i < |pool[s]|
      ensures KeptIn(pool[s][i], Pooled(s, i), spare + extra, owner')
    {
      assert KeptIn(pool[s][i], Pooled(s, i), spare, owner);
    }
    forall j | from <= j < |list|
      ensures KeptIn(list[j], Reclaimed(j), spare + extra, owner')
    {
      assert KeptIn(list[j], Reclaimed(j), spare, owner);
    }
  }

  /** A node kept in the next slot of pool s joins that pool. */
  lemma PoolPushed(pool: map<int, seq<KRef>>, spare: set<object>, owner: map<object, Slot>, s: int, r: KRef)
    requires PoolsKept(pool, spare, owner)
    requires RefHead(r) <= spare && KeptIn(r, Pooled(s, |PoolAt(pool, s)|), spare, owner) && EmptyNode(r, s)
    ensures PoolsKept(pool[s := PoolAt(pool, s) + [r]], spare, owner)
  {
    var pool' := pool[s := PoolAt(pool, s) + [r]];
    forall s', i | s' in pool' && 0 <= i < |pool'[s']|
      ensures RefHead(pool'[s'][i]) <= spare && KeptIn(pool'[s'][i], Pooled(s', i), spare, owner)
      ensures EmptyNode(pool'[s'][i], s')
    {
      if s' != s || i < |PoolAt(pool, s)| {
        assert pool'[s'][i] == pool[s'][i];
      }
    }
  }

  /** The last node of pool s leaves the pool, and its objects stop being
      spare; every other kept node stays kept. */
  lemma PoolPopped(pool: map<int, seq<KRef>>, list: seq<KRef>, from: int, spare: set<object>,
                   owner: map<object, Slot>, s: int)
    requires PoolsKept(pool, spare, owner) && ReclaimKept(list, from, spare, owner)
    requires s in pool && |pool[s]| > 0
    ensures EmptyNode(pool[s][|pool[s]| - 1], s) && RefRepr(pool[s][|pool[s]| - 1]) <= spare
    ensures PoolsKept(pool[s := pool[s][..|pool[s]| - 1]], spare - RefRepr(pool[s][|pool[s]| - 1]), owner)
    ensures ReclaimKept(list, from, spare - RefRepr(pool[s][|pool[s]| - 1]), owner)
  {
    var n := |pool[s]| - 1;
    var r := pool[s][n];
    var gone := RefRepr(r);
    assert KeptIn(r, Pooled(s, n), spare, owner);
    var pool' := pool[s := pool[s][..n]];
    forall s', i | s' in pool' && 0 <= i < |pool'[s']|
      ensures RefHead(pool'[s'][i]) <= spare - gone && KeptIn(pool'[s'][i], Pooled(s', i), spare - gone, owner)
      ensures EmptyNode(pool'[s'][i], s')
    {
      assert pool'[s'][i] == pool[s'][i];
      assert KeptIn(pool[s'][i], Pooled(s', i), spare, owner);
    }
    forall j | from <= j < |list|
      ensures RefHead(list[j]) <= spare - gone && KeptIn(list[j], Reclaimed(j), spare - gone, owner)
    {
      assert KeptIn(list[j], Reclaimed(j), spare, owner);
    }
  }

  /** A node kept in the next slot of the reclamation list joins it. */
  lemma ReclaimPushed(list: seq<KRef>, spare: set<object>, owner: map<object, Slot>, r: KRef)
    requires ReclaimKept(list, 0, spare, owner)
    requires RefHead(r) <= spare && KeptIn(r, Reclaimed(|list|), spare, owner) && EmptyNode(r, RefSize(r))
    ensures ReclaimKept(list + [r], 0, spare, owner)
  {
    forall j | 0 <= j < |list + [r]|
      ensures RefHead((list + [r])[j]) <= spare && KeptIn((list + [r])[j], Reclaimed(j), spare, owner)
      ensures EmptyNode((list + [r])[j], RefSize((list + [r])[j]))
    {
      if j < |list| {
        assert (list + [r])[j] == list[j];
      }
    }
  }

  /** Node i of the reclamation list moves to the next slot of the pool of
      its universe. */
  lemma Rehomed(pool: map<int, seq<KRef>>, list: seq<KRef>, i: int, spare: set<object>, owner: map<object, Slot>,
                s: int, n: int, mine: set<object>)
    requires PoolsKept(pool, spare, owner) && ReclaimKept(list, i, spare, owner) && i < |list|
    requires s == RefSize(list[i]) && n == |PoolAt(pool, s)| && mine == RefRepr(list[i])
    ensures PoolsKept(pool[s := PoolAt(pool, s) + [list[i]]], spare, Claimed(owner, mine, Pooled(s, n)))
    ensures ReclaimKept(list, i + 1, spare, Claimed(owner, mine, Pooled(s, n)))
  {
    var r := list[i];
    var slot := Pooled(s, n);
    var owner' := Claimed(owner, RefRepr(r), slot);
    assert KeptIn(r, Reclaimed(i), spare, owner);
    forall s', k | s' in pool && 0 <= k < |pool[s']|
      ensures KeptIn(pool[s'][k], Pooled(s', k), spare, owner')
    {
      assert KeptIn(pool[s'][k], Pooled(s', k), spare, owner);
    }
    forall j | i < j < |list|
      ensures KeptIn(list[j], Reclaimed(j), spare, owner')
    {
      assert KeptIn(list[j], Reclaimed(j), spare, owner);
    }
    assert PoolsKept(pool, spare, owner');
    PoolPushed(pool, spare, owner', s, r);
  }

  /** No child of a node is allocated and empty. */
  ghost predicate Filled(r: KRef)
    reads RefHead(r)
  {
    !r.Nil? ==> RefKeys(r) != {}
  }

  /** Every pool of the given sizes holds at least n nodes. */
  ghost predicate Stocked(pool: map<int, seq<KRef>>, sizes: set<int>, n: int)
  {
    forall s | s in sizes :: s in pool && |pool[s]| >= n
  }

  /** Changing only the pool of universe s keeps every other pool stocked. */
  lemma StockedElsewhere(p0: map<int, seq<KRef>>, p1: map<int, seq<KRef>>, s: int, sizes: set<int>, n: int)
    requires Stocked(p0, sizes, n) && s !in sizes && s in p0 && s in p1 && p1 == p0[s := p1[s]]
    ensures Stocked(p1, sizes, n)
  {
  }

  /** How an insertion may change the pools (`p0` to `p1`) and the refill
      list (`r0` to `r1`): the same universes have pools, the refill list
      keeps its entries and ends up naming every universe whose pool changed. */
  ghost predicate Drawn(p0: map<int, seq<KRef>>, p1: map<int, seq<KRef>>, r0: seq<int>, r1: seq<int>)
  {
    p1.Keys == p0.Keys
    && |r0| <= |r1| && r1[..|r0|] == r0
    && (forall s | s in p0 && p1[s] != p0[s] :: s in r1)
  }

  lemma DrawnNothing(p: map<int, seq<KRef>>, r: seq<int>)
    ensures Drawn(p, p, r, r)
  {
    assert r[..|r|] == r;
  }

  /** One pool changed, its universe logged. */
  lemma DrawnOne(p: map<int, seq<KRef>>, r: seq<int>, s: int, q: seq<KRef>)
    requires s in p
    ensures Drawn(p, p[s := q], r, r + [s])
  {
    assert (r + [s])[..|r|] == r;
    assert (r + [s])[|r|] == s;
  }

  /** Two draws in a row are one draw. */
  lemma DrawnThen(p0: map<int, seq<KRef>>, p1: map<int, seq<KRef>>, p2: map<int, seq<KRef>>,
                  r0: seq<int>, r1: seq<int>, r2: seq<int>)
    requires Drawn(p0, p1, r0, r1) && Drawn(p1, p2, r1, r2)
    ensures Drawn(p0, p2, r0, r2)
  {
    assert r2[..|r0|] == r2[..|r1|][..|r0|];
    forall s | s in p0 && p2[s] != p0[s]
      ensures s in r2
    {
      if p1[s] != p0[s] {
        var k :| 0 <= k < |r1| && r1[k] == s;
        assert r2[..|r1|][k] == s;
      }
    }
  }

  function Max(a: int, b: int): int
  {
    if a < b then b else a
  }

  /** The pool of universe s, empty when the map has none. */
  function PoolAt(pool: map<int, seq<KRef>>, s: int): seq<KRef>
  {
    if s in pool then pool[s] else []
  }

  /** What refilling the universes of `list` does to the pools, from p0 to
      p1: pools only gain nodes at their ends, each universe of the list
      ends up with `POINTERS_PER_POOL` nodes or the more it had, and every
      other pool is as it was. */
  ghost predicate Refilled(p0: map<int, seq<KRef>>, p1: map<int, seq<KRef>>, list: seq<int>)
  {
    (forall s :: s in p1 <==> s in p0 || s in list)
    && (forall s | s in p1 ::
          PoolAt(p0, s) <= p1[s]
          && |p1[s]| == if s in list then Max(|PoolAt(p0, s)|, PointersPerPool) else |PoolAt(p0, s)|)
  }

  lemma RefilledNothing(p: map<int, seq<KRef>>)
    ensures Refilled(p, p, [])
  {
  }

  /** Refilling one more universe, the next one of the list. */
  lemma RefilledOne(p0: map<int, seq<KRef>>, p1: map<int, seq<KRef>>, p2: map<int, seq<KRef>>, list: seq<int>, i: int)
    requires 0 <= i < |list| && Refilled(p0, p1, list[..i])
    requires list[i] in p2 && p2 == p1[list[i] := p2[list[i]]]
    requires PoolAt(p1, list[i]) <= p2[list[i]] && |p2[list[i]]| == Max(|PoolAt(p1, list[i])|, PointersPerPool)
    ensures Refilled(p0, p2, list[..i + 1])
  {
    var s := list[i];
    assert list[..i + 1] == list[..i] + [s];
    forall s' | s' in p2
      ensures PoolAt(p0, s') <= p2[s']
    {
      if s' == s && s' in p1 {
        assert PoolAt(p0, s') <= p1[s'] <= p2[s'];
      }
    }
  }

  /** What reclaiming the nodes of `list` does to the pools, from p0 to p1:
      pools only gain nodes at their ends, and only nodes of the list; no
      pool grows past `POINTERS_PER_POOL * POOL_GROW_COEFFICIENT` nodes, or
      past what it had; and each node of the list is in the pool of its own
      universe unless that pool is full. */
  ghost predicate Recycled(p0: map<int, seq<KRef>>, p1: map<int, seq<KRef>>, list: seq<KRef>)
  {
    (forall s | s in p0 :: s in p1)
    && (forall s | s in p1 ::
          PoolAt(p0, s) <= p1[s] && |p1[s]| <= Max(|PoolAt(p0, s)|, PointersPerPool * PoolGrowCoefficient))
    && (forall s, k | s in p1 && |PoolAt(p0, s)| <= k < |p1[s]| :: p1[s][k] in list)
    && (forall i | 0 <= i < |list| ::
          RefSize(list[i]) in p1
          && (list[i] in p1[RefSize(list[i])] || |p1[RefSize(list[i])]| >= PointersPerPool * PoolGrowCoefficient))
  }

  lemma RecycledNothing(p: map<int, seq<KRef>>)
    ensures Recycled(p, p, [])
  {
  }

  /** Reclaiming one more node r. */
  lemma RecycledOne(p0: map<int, seq<KRef>>, p1: map<int, seq<KRef>>, p2: map<int, seq<KRef>>, list: seq<KRef>, r: KRef)
    requires Recycled(p0, p1, list)
    requires p2 == if |PoolAt(p1, RefSize(r))| < PointersPerPool * PoolGrowCoefficient
                   then p1[RefSize(r) := PoolAt(p1, RefSize(r)) + [r]]
                   else p1
    ensures Recycled(p0, p2, list + [r])
  {
    var s := RefSize(r);
    forall s' | s' in p2
      ensures PoolAt(p0, s') <= p2[s']
    {
      if s' == s && s' in p1 {
        assert PoolAt(p0, s') <= p1[s'] <= p2[s'];
      }
    }
    forall i | 0 <= i < |list + [r]|
      ensures RefSize((list + [r])[i]) in p2
      ensures (list + [r])[i] in p2[RefSize((list + [r])[i])]
              || |p2[RefSize((list + [r])[i])]| >= PointersPerPool * PoolGrowCoefficient
    {
      if i < |list| {
        assert (list + [r])[i] == list[i];
        var t := RefSize(list[i]);
        assert PoolAt(p1, t) <= p2[t];
        if list[i] in p1[t] {
          var k :| 0 <= k < |p1[t]| && p1[t][k] == list[i];
          assert p2[t][k] == list[i];
        }
      } else if |PoolAt(p1, s)| < PointersPerPool * PoolGrowCoefficient {
        assert p2[s][|PoolAt(p1, s)|] == r;
      }
    }
  }

  /** A non-empty set of universes has a member. */
  lemma Inhabited(sizes: set<int>)
    requires sizes != {}
    ensures exists s :: s in sizes
  {
    if forall s :: s !in sizes {
      assert false;
    }
  }

  /** Some universe of a non-empty set, the next one a loop over it visits. */
  method Choose(sizes: set<int>) returns (s: int)
    requires sizes != {}
    ensures s in sizes
  {
    Inhabited(sizes);
    s :| s in sizes;
  }

  /** What seeding the universes of `done` does to the pools, from p0 to
      p1: each of them gains `POINTERS_PER_POOL` nodes at the end of its
      pool (made when it had none), and every other pool is as it was. */
  ghost predicate Seeded(p0: map<int, seq<KRef>>, p1: map<int, seq<KRef>>, done: set<int>)
  {
    p1.Keys == p0.Keys + done
    && (forall s | s in done :: PoolAt(p0, s) <= p1[s] && |p1[s]| == |PoolAt(p0, s)| + PointersPerPool)
    && (forall s | s in p0 && s !in done :: p1[s] == p0[s])
  }

  lemma SeededNothing(p: map<int, seq<KRef>>)
    ensures Seeded(p, p, {})
  {
  }

  /** Seeding one more universe s. */
  lemma SeededOne(p0: map<int, seq<KRef>>, p1: map<int, seq<KRef>>, p2: map<int, seq<KRef>>, done: set<int>, s: int)
    requires Seeded(p0, p1, done) && s !in done
    requires s in p2 && p2 == p1[s := p2[s]]
    requires PoolAt(p1, s) <= p2[s] && |p2[s]| == |PoolAt(p1, s)| + PointersPerPool
    ensures Seeded(p0, p2, done + {s})
  {
    assert PoolAt(p1, s) == PoolAt(p0, s);
  }

  /** Seeded pools hold at least two nodes each. */
  lemma SeededStocked(p0: map<int, seq<KRef>>, p1: map<int, seq<KRef>>, done: set<int>, sizes: set<int>)
    requires Seeded(p0, p1, done) && sizes <= done
    ensures Stocked(p1, sizes, 2)
  {
  }

  /** An insertion followed by the refill of every pool it drew on leaves
      each pool that held n nodes, n at most `POINTERS_PER_POOL`, with n
      nodes still. */
  lemma StockedAfterRefill(p0: map<int, seq<KRef>>, p1: map<int, seq<KRef>>, p2: map<int, seq<KRef>>,
                           r0: seq<int>, r1: seq<int>, sizes: set<int>, n: int)
    requires Stocked(p0, sizes, n) && Drawn(p0, p1, r0, r1) && Refilled(p1, p2, r1) && n <= PointersPerPool
    ensures Stocked(p2, sizes, n)
  {
    forall s | s in sizes
      ensures s in p2 && |p2[s]| >= n
    {
      assert s in p1;
      assert |PoolAt(p1, s)| <= |p2[s]|;
    }
  }

  /** Reclaiming never takes a node out of a pool. */
  lemma StockedAfterRecycle(p0: map<int, seq<KRef>>, p1: map<int, seq<KRef>>, list: seq<KRef>, sizes: set<int>, n: int)
    requires Stocked(p0, sizes, n) && Recycled(p0, p1, list)
    ensures Stocked(p1, sizes, n)
  {
    forall s | s in sizes
      ensures s in p1 && |p1[s]| >= n
    {
      assert PoolAt(p0, s) <= p1[s];
    }
  }

  /** Every universe the map holds is a power of two, recorded with its
      `divide_node` split. */
  ghost predicate SplitsKnown(m: map<int, UniverseInfo>)
  {
    forall s | s in m :: IsPow2(s) && m[s] == DivideNode(s)
  }

  lemma SplitsKnownAdd(m: map<int, UniverseInfo>, u: int)
    requires SplitsKnown(m) && IsPow2(u)
    ensures SplitsKnown(m[u := DivideNode(u)])
  {
  }

  /** A snapshot of the pools, as the proofs compare them before and after. */
  datatype PoolsState = PoolsState(kMap: map<int, UniverseInfo>, kPool: map<int, seq<KRef>>,
                                   kToRefill: seq<int>, kToReclaim: seq<KRef>, spare: set<object>)

  /** What an insertion may do to the pools, from s0 to s1: fewer spare
      objects, the map and the reclamation list as they were, nodes drawn
      only as `Drawn` allows, and nothing drawn at all when no key was added. */
  ghost predicate Follows(s0: PoolsState, s1: PoolsState, inserted: bool)
  {
    s1.spare <= s0.spare && s1.kMap == s0.kMap && s1.kToReclaim == s0.kToReclaim
    && Drawn(s0.kPool, s1.kPool, s0.kToRefill, s1.kToRefill)
    && (!inserted ==> s1.kPool == s0.kPool && s1.kToRefill == s0.kToRefill)
  }

  lemma FollowsNothing(s: PoolsState, inserted: bool)
    ensures Follows(s, s, inserted)
  {
    DrawnNothing(s.kPool, s.kToRefill);
  }

  /** Two insertion steps in a row are one. */
  lemma FollowsThen(s0: PoolsState, s1: PoolsState, s2: PoolsState, i1: bool, i2: bool)
    requires Follows(s0, s1, i1) && Follows(s1, s2, i2)
    ensures Follows(s0, s2, i1 || i2)
  {
    DrawnThen(s0.kPool, s1.kPool, s2.kPool, s0.kToRefill, s1.kToRefill, s2.kToRefill);
  }

  /** What a deletion may do to the pools, from s0 to s1: the map, the pools
      and the refill list as they were, the reclamation list extended by
      emptied nodes, which become spare, and nothing at all when no key was
      removed. */
  ghost predicate Returns(s0: PoolsState, s1: PoolsState, erased: bool)
  {
    s1.kMap == s0.kMap && s1.kPool == s0.kPool && s1.kToRefill == s0.kToRefill
    && s0.spare <= s1.spare
    && |s0.kToReclaim| <= |s1.kToReclaim| && s1.kToReclaim[..|s0.kToReclaim|] == s0.kToReclaim
    && (!erased ==> s1 == s0)
  }

  lemma ReturnsNothing(s: PoolsState, erased: bool)
    ensures Returns(s, s, erased)
  {
    assert s.kToReclaim[..|s.kToReclaim|] == s.kToReclaim;
  }

  /** A node pushed on the reclamation list, its objects made spare, is a
      deletion step. */
  lemma ReturnsPushed(s0: PoolsState, s1: PoolsState)
    requires s1.kMap == s0.kMap && s1.kPool == s0.kPool && s1.kToRefill == s0.kToRefill && s0.spare <= s1.spare
    requires |s1.kToReclaim| == |s0.kToReclaim| + 1 && s1.kToReclaim[..|s0.kToReclaim|] == s0.kToReclaim
    ensures Returns(s0, s1, true)
  {}

  /** Two deletion steps in a row are one. */
  lemma ReturnsThen(s0: PoolsState, s1: PoolsState, s2: PoolsState, e1: bool, e2: bool)
    requires Returns(s0, s1, e1) && Returns(s1, s2, e2)
    ensures Returns(s0, s2, e1 || e2)
  {
    assert s2.kToReclaim[..|s0.kToReclaim|] == s2.kToReclaim[..|s1.kToReclaim|][..|s0.kToReclaim|];
  }

  /** One more node pushed on pool s, after others since `o`: the pools
      still differ from `o` in pool s only, and what pool s held in `o` is
      still at its front. */
  lemma PoolGrown(o: map<int, seq<KRef>>, k1: map<int, seq<KRef>>, k2: map<int, seq<KRef>>, s: int, front: seq<KRef>, r: KRef)
    requires s in k1 && k1 == o[s := k1[s]] && front <= k1[s]
    requires s in k2 && k2 == k1[s := k1[s] + [r]]
    ensures k2 == o[s := k2[s]] && front <= k2[s] && |k2[s]| == |k1[s]| + 1
  {
  }

  /** Adding u to a map adds u to its keys, and re-adding a present entry
      leaves the map as it was. */
  lemma KeyAdded(m: map<int, UniverseInfo>, u: int, v: UniverseInfo)
    ensures m[u := v].Keys == m.Keys + {u}
    ensures u in m && v == m[u] ==> m == m[u := v]
  {}

  /** Set algebra behind PopulateMaps: the keys added by the two recursive
      calls are the node's own size and its sub-sizes. */
  lemma KeysCollected(o: set<int>, u: int, k0: set<int>, k1: set<int>, k2: set<int>)
    requires IsPow2(u) && k0 == o + {u}
    requires u <= Cutoff ==> k2 == k0
    requires u > Cutoff ==> DivideNode(u).nClusters < u && DivideNode(u).clusterSize < u
    requires u > Cutoff ==> IsPow2(DivideNode(u).nClusters) && IsPow2(DivideNode(u).clusterSize)
    requires u > Cutoff ==> k1 == k0 + {DivideNode(u).nClusters} + SubSizes(DivideNode(u).nClusters)
    requires u > Cutoff ==> k2 == k1 + {DivideNode(u).clusterSize} + SubSizes(DivideNode(u).clusterSize)
    ensures k2 == o + {u} + SubSizes(u)
  {
    if u > Cutoff {
      var ui := DivideNode(u);
      Regrouped(o + {u}, ui.nClusters, ui.clusterSize, SubSizes(ui.nClusters), SubSizes(ui.clusterSize), k2);
      assert SubSizes(u) == {ui.clusterSize, ui.nClusters} + SubSizes(ui.clusterSize) + SubSizes(ui.nClusters);
    }
  }

  /** The order PopulateMaps adds sizes in does not matter. */
  lemma Regrouped(o: set<int>, nc: int, cs: int, sn: set<int>, sc: set<int>, k: set<int>)
    requires k == o + {nc} + sn + {cs} + sc
    ensures k == o + ({cs, nc} + sc + sn)
  {
  }

  /** Set algebra behind PopulateMapsKV: the key-only walk of the summary
      and the key-value walk of the cluster size add up to u's two sets. */
  lemma KVKeysCollected(ko: set<int>, vo: set<int>, u: int, v0: set<int>, v2: set<int>, k1: set<int>, k2: set<int>)
    requires IsPow2(u) && v0 == vo + {u}
    requires u <= Cutoff ==> v2 == v0 && k2 == ko
    requires u > Cutoff ==> IsPow2(DivideNode(u).nClusters) && IsPow2(DivideNode(u).clusterSize)
    requires u > Cutoff ==> DivideNode(u).clusterSize < u
    requires u > Cutoff ==> k1 == ko + {DivideNode(u).nClusters} + SubSizes(DivideNode(u).nClusters)
    requires u > Cutoff ==> k2 == k1 + KSizesBelowKV(DivideNode(u).clusterSize)
    requires u > Cutoff ==> v2 == v0 + KVChain(DivideNode(u).clusterSize)
    ensures k2 == ko + KSizesBelowKV(u)
    ensures v2 == vo + KVChain(u)
  {
    if u > Cutoff {
      var ui := DivideNode(u);
      assert KSizesBelowKV(u) == {ui.nClusters} + SubSizes(ui.nClusters) + KSizesBelowKV(ui.clusterSize);
      assert KVChain(u) == {u} + KVChain(ui.clusterSize);
    }
  }

  /** The thread-local maps, pools and lists of the key-only nodes, with
      the map of the key-value universes that `populate_maps` fills beside
      them. */
  class KPools {
    var kMap: map<int, UniverseInfo>
    var kvMap: map<int, UniverseInfo>
    var kPool: map<int, seq<KRef>>
    var kToRefill: seq<int>
    var kToReclaim: seq<KRef>
    /** The objects of every pooled or reclaimed node. */
    ghost var Spare: set<object>
    /** Which slot each spare object belongs to: no object is in two slots. */
    ghost var Owner: map<object, Slot>

    /** Every pooled node is an empty node of its pool's universe, every
        node awaiting reclamation an empty node of its own universe, and no
        two of them share an object. */
    ghost predicate Valid()
      reads this, Spare
    {
      MapValid() && PoolsValid() && ReclaimValid() && RefillValid()
    }

    /** Every pooled node is an empty node of its pool's universe, kept in its
        own slot. */
    ghost predicate PoolsValid()
      reads this`kPool, this`Spare, this`Owner, Spare
    {
      this !in Spare && PoolsKept(kPool, Spare, Owner)
    }

    /** Every node awaiting reclamation is an empty node of its own universe,
        kept in its own slot. */
    ghost predicate ReclaimValid()
      reads this`kToReclaim, this`Spare, this`Owner, Spare
    {
      this !in Spare && ReclaimKept(kToReclaim, 0, Spare, Owner)
    }

    /** Every size logged for refilling is a universe nodes can be built for. */
    ghost predicate RefillValid()
      reads this`kToRefill
    {
      forall i | 0 <= i < |kToRefill| :: IsPow2(kToRefill[i])
    }

    /** `kPool[s].back()`, `kPool[s].pop_back()` and `kToRefill.push_back(s)`:
        the last pooled node of universe s leaves the pool and is no longer
        spare, and s is logged for refilling. */
    method Draw(s: int) returns (r: KRef)
      requires Valid() && s in kPool && |kPool[s]| > 0 && IsPow2(s)
      modifies this
      ensures Valid()
      ensures r == old(kPool[s][|kPool[s]| - 1])
      ensures kPool == old(kPool[s := kPool[s][..|kPool[s]| - 1]])
      ensures EmptyNode(r, s) && RefRepr(r) <= old(Spare)
      ensures Spare == old(Spare) - RefRepr(r)
      ensures kToRefill == old(kToRefill) + [s]
      ensures kMap == old(kMap) && kToReclaim == old(kToReclaim)
      ensures Spent(true)
    {
      DrawnOne(kPool, kToRefill, s, kPool[s][..|kPool[s]| - 1]);
      PoolPopped(kPool, kToReclaim, 0, Spare, Owner, s);
      var n := |kPool[s]| - 1;
      r := kPool[s][n];
      ghost var gone := RefRepr(r);
      kPool := kPool[s := kPool[s][..n]];
      kToRefill := kToRefill + [s];
      Spare := Spare - gone;
    }

    ghost function State(): PoolsState
      reads this
    {
      PoolsState(kMap, kPool, kToRefill, kToReclaim, Spare)
    }

    /** What an insertion leaves of the pools: still valid, and changed only
        as `Follows` allows. */
    twostate predicate Spent(inserted: bool)
      reads this, Spare
    {
      Valid() && Follows(old(State()), State(), inserted)
    }

    /** What a deletion leaves of the pools: still valid, and changed only
        as `Returns` allows. */
    twostate predicate Returned(erased: bool)
      reads this, Spare
    {
      Valid() && Returns(old(State()), State(), erased)
    }

    /** The pools stay valid, and the same, while nothing of theirs changes. */
    twostate lemma Unmoved()
      requires old(Valid()) && unchanged(this) && unchanged(old(Spare))
      ensures Valid() && State() == old(State())
    {
    }

    /** `kToReclaim.push_back(node)`: an emptied node that has left its tree
        waits on the reclamation list, and its objects become spare. */
    method Reclaim(r: KRef)
      requires Valid() && EmptyNode(r, RefSize(r)) && RefRepr(r) !! Spare && this !in RefRepr(r)
      modifies this
      ensures Valid()
      ensures kToReclaim == old(kToReclaim) + [r]
      ensures Spare == old(Spare) + RefRepr(r)
      ensures kMap == old(kMap) && kPool == old(kPool) && kToRefill == old(kToRefill)
      ensures Returned(true)
    {
      var n := |kToReclaim|;
      ghost var come := RefRepr(r);
      ghost var owner := Claimed(Owner, come, Reclaimed(n));
      label before:
      kToReclaim := kToReclaim + [r];
      Owner := owner;
      Spare := Spare + come;
      Undisturbed@before(0);
      SpareGrown(kPool, old(kToReclaim), 0, old(Spare), old(Owner), come, Reclaimed(n));
      ReclaimPushed(old(kToReclaim), Spare, owner, r);
      assert kToReclaim[..n] == old(kToReclaim);
      ReturnsPushed(old(State()), State());
    }

    /** `kMap` records `divide_node` of each universe it holds. */
    ghost predicate MapValid()
      reads this`kMap
    {
      SplitsKnown(kMap)
    }

    /** `kMap` has the split of u and of every universe below it. */
    ghost predicate Knows(u: int)
      reads this`kMap
    {
      IsPow2(u) && u in kMap && forall s | s in SubSizes(u) :: s in kMap
    }

    /** Every pool an insertion below u may draw on holds at least two nodes:
        one node draws at most one cluster and one summary of each size. */
    ghost predicate Ready(u: int)
      reads this`kMap, this`kPool
    {
      Knows(u) && Stocked(kPool, SubSizes(u), 2)
    }

    /** What `kMap` knows of a node it also knows of the node's children. */
    lemma KnowsChildren(u: int)
      requires Knows(u) && u > Cutoff
      ensures Knows(DivideNode(u).clusterSize) && Knows(DivideNode(u).nClusters)
    {
      SubSizesBelowChildren(u);
    }

    /** A node ready for an insertion has its children ready too, and the
        pools for its own cluster and summary sizes hold two nodes each. */
    lemma ReadyChildren(u: int)
      requires Ready(u) && u > Cutoff
      ensures Ready(DivideNode(u).clusterSize) && Ready(DivideNode(u).nClusters)
      ensures Stocked(kPool, {DivideNode(u).clusterSize, DivideNode(u).nClusters}, 2)
      ensures {DivideNode(u).clusterSize, DivideNode(u).nClusters} <= SubSizes(u)
      ensures forall s | s in SubSizes(DivideNode(u).clusterSize) + SubSizes(DivideNode(u).nClusters) ::
                s < DivideNode(u).clusterSize
      ensures DivideNode(u).clusterSize !in SubSizes(DivideNode(u).clusterSize) + SubSizes(DivideNode(u).nClusters)
    {
      SubSizesBelowChildren(u);
      DivideNodeShrinks(u);
    }

    /** `kPool[s]`, which the source's map creates empty when it is missing. */
    function PoolOf(s: int): seq<KRef>
      reads this`kPool
    {
      PoolAt(kPool, s)
    }

    /** `populate_maps(u)`: record `divide_node` of u, unless `kMap` has it,
        and of every universe below u. */
    method PopulateMaps(u: int)
      requires IsPow2(u) && MapValid()
      modifies this`kMap
      ensures MapValid() && Knows(u)
      ensures kMap.Keys == old(kMap.Keys) + {u} + SubSizes(u)
      decreases u
    {
      var ui := DivideNode(u);
      if u !in kMap {
        SplitsKnownAdd(kMap, u);
        KeyAdded(kMap, u, ui);
        kMap := kMap[u := ui];
      } else {
        KeyAdded(kMap, u, kMap[u]);
      }
      ghost var k0, k1 := kMap.Keys, kMap.Keys;
      if u > Cutoff {
        DivideNodeShrinks(u);
        PopulateMaps(ui.nClusters);
        k1 := kMap.Keys;
        PopulateMaps(ui.clusterSize);
      }
      KeysCollected(old(kMap.Keys), u, k0, k1, kMap.Keys);
    }

    /** `kPool[s].push_back(node)` for a node built just now. */
    method Stock(s: int, r: KRef)
      requires Valid() && EmptyNode(r, s) && RefRepr(r) !! Spare && this !in RefRepr(r)
      modifies this
      ensures Valid()
      ensures kPool == old(kPool)[s := old(PoolOf(s)) + [r]]
      ensures Spare == old(Spare) + RefRepr(r)
      ensures kMap == old(kMap) && kvMap == old(kvMap) && kToRefill == old(kToRefill) && kToReclaim == old(kToReclaim)
    {
      var n := |PoolOf(s)|;
      ghost var come := RefRepr(r);
      ghost var owner := Claimed(Owner, come, Pooled(s, n));
      label before:
      kPool := kPool[s := PoolOf(s) + [r]];
      Owner := owner;
      Spare := Spare + come;
      Undisturbed@before(0);
      SpareGrown(old(kPool), kToReclaim, 0, old(Spare), old(Owner), come, Pooled(s, n));
      PoolPushed(old(kPool), Spare, owner, s, r);
    }

    /** A new, empty node of universe s: an internal node above the cutoff,
        a leaf up to it. */
    method NewNode(s: int) returns (r: KRef)
      requires IsPow2(s) && MapValid()
      ensures EmptyNode(r, s) && fresh(RefRepr(r))
    {
      if s > Cutoff {
        var n := new KInternal(s, this);
        r := Node(n);
      } else {
        var l := new KLeaf(s);
        r := Leaf(l);
      }
    }

    /** `while (kPool[s].size() < POINTERS_PER_POOL) kPool[s].push_back(new ...)`. */
    method RefillPool(s: int)
      requires Valid() && IsPow2(s)
      modifies this
      ensures Valid() && kMap == old(kMap) && kToRefill == old(kToRefill) && kToReclaim == old(kToReclaim)
      ensures old(Spare) <= Spare && fresh(Spare - old(Spare))
      ensures s in kPool && kPool == old(kPool)[s := kPool[s]]
      ensures old(PoolOf(s)) <= kPool[s] && |kPool[s]| == Max(|old(PoolOf(s))|, PointersPerPool)
    {
      OpenPool(s);
      ghost var made: set<object> := {};
      while |PoolOf(s)| < PointersPerPool
        invariant Valid() && kMap == old(kMap) && kToRefill == old(kToRefill) && kToReclaim == old(kToReclaim)
        invariant Spare == old(Spare) + made && fresh(made)
        invariant s in kPool && kPool == old(kPool)[s := kPool[s]]
        invariant old(PoolOf(s)) <= kPool[s] && |kPool[s]| <= Max(|old(PoolOf(s))|, PointersPerPool)
        decreases PointersPerPool - |PoolOf(s)|
      {
        ghost var k1 := kPool;
        ghost var come := StockNew(s);
        PoolGrown(old(kPool), k1, kPool, s, old(PoolOf(s)), kPool[s][|kPool[s]| - 1]);
        made := made + come;
      }
    }

    /** `kPool[s]` on a universe with no pool yet makes its pool, empty. */
    method OpenPool(s: int)
      requires Valid()
      modifies this`kPool
      ensures Valid() && s in kPool && kPool == old(kPool)[s := old(PoolOf(s))]
    {
      kPool := kPool[s := PoolOf(s)];
    }

    /** `kPool[s].push_back(new ...)`: one new, empty node of universe s
        joins its pool, and its objects, `come`, become spare. */
    method StockNew(s: int) returns (ghost come: set<object>)
      requires Valid() && IsPow2(s)
      modifies this
      ensures Valid() && kMap == old(kMap) && kvMap == old(kvMap) && kToRefill == old(kToRefill) && kToReclaim == old(kToReclaim)
      ensures Spare == old(Spare) + come && fresh(come)
      ensures s in kPool && |kPool[s]| > 0 && kPool == old(kPool)[s := kPool[s]]
      ensures kPool[s] == old(PoolOf(s)) + [kPool[s][|kPool[s]| - 1]]
    {
      var r := NewNode(s);
      come := RefRepr(r);
      Stock(s, r);
    }

    /** The refilling part of `insertDriver`: every universe on the refill
        list gets new nodes until its pool holds `POINTERS_PER_POOL`, and the
        list is cleared. */
    method Refill()
      requires Valid()
      modifies this
      ensures Valid() && kToRefill == [] && kMap == old(kMap) && kToReclaim == old(kToReclaim)
      ensures old(Spare) <= Spare && fresh(Spare - old(Spare))
      ensures Refilled(old(kPool), kPool, old(kToRefill))
    {
      var i := 0;
      RefilledNothing(kPool);
      assert kToRefill[..0] == [];
      while i < |kToRefill|
        invariant 0 <= i <= |kToRefill| && Valid()
        invariant kMap == old(kMap) && kToRefill == old(kToRefill) && kToReclaim == old(kToReclaim)
        invariant old(Spare) <= Spare && fresh(Spare - old(Spare))
        invariant Refilled(old(kPool), kPool, kToRefill[..i])
      {
        ghost var p := kPool;
        RefillPool(kToRefill[i]);
        RefilledOne(old(kPool), p, kPool, kToRefill, i);
        i := i + 1;
      }
      assert kToRefill[..i] == kToRefill;
      kToRefill := [];
    }

    /** `for (i = 0; i < POINTERS_PER_POOL; ++i) kPool[s].push_back(new ...)`. */
    method SeedPool(s: int)
      requires Valid() && IsPow2(s)
      modifies this
      ensures Valid() && kMap == old(kMap) && kvMap == old(kvMap) && kToRefill == old(kToRefill) && kToReclaim == old(kToReclaim)
      ensures old(Spare) <= Spare && fresh(Spare - old(Spare))
      ensures s in kPool && kPool == old(kPool)[s := kPool[s]]
      ensures old(PoolOf(s)) <= kPool[s] && |kPool[s]| == |old(PoolOf(s))| + PointersPerPool
    {
      OpenPool(s);
      ghost var made: set<object> := {};
      var i := 0;
      while i < PointersPerPool
        invariant 0 <= i <= PointersPerPool
        invariant Valid() && kMap == old(kMap) && kvMap == old(kvMap) && kToRefill == old(kToRefill) && kToReclaim == old(kToReclaim)
        invariant Spare == old(Spare) + made && fresh(made)
        invariant s in kPool && kPool == old(kPool)[s := kPool[s]]
        invariant old(PoolOf(s)) <= kPool[s] && |kPool[s]| == |old(PoolOf(s))| + i
      {
        ghost var k1 := kPool;
        ghost var come := StockNew(s);
        PoolGrown(old(kPool), k1, kPool, s, old(PoolOf(s)), kPool[s][|kPool[s]| - 1]);
        made := made + come;
        i := i + 1;
      }
    }

    /** `populate_maps(u, true)`, the walk of a key-value tree: u and each
        cluster size below it are filed under `kvMap`, and every summary
        size, with each universe below it, under `kMap` by the key-only walk. */
    method PopulateMapsKV(u: int)
      requires IsPow2(u) && MapValid() && SplitsKnown(kvMap)
      modifies this`kMap, this`kvMap
      ensures MapValid() && SplitsKnown(kvMap)
      ensures kMap.Keys == old(kMap.Keys) + KSizesBelowKV(u)
      ensures kvMap.Keys == old(kvMap.Keys) + KVChain(u)
      decreases u
    {
      FileKV(u);
      ghost var v0, k1 := kvMap.Keys, kMap.Keys;
      if u > Cutoff {
        var ui := DivideNode(u);
        DivideNodeShrinks(u);
        PopulateMaps(ui.nClusters);
        k1 := kMap.Keys;
        PopulateMapsKV(ui.clusterSize);
      }
      KVKeysCollected(old(kMap.Keys), old(kvMap.Keys), u, v0, kvMap.Keys, k1, kMap.Keys);
    }

    /** `kvMap[u] = divide_node(u)` unless `kvMap` already has u. */
    method FileKV(u: int)
      requires IsPow2(u) && SplitsKnown(kvMap)
      modifies this`kvMap
      ensures SplitsKnown(kvMap) && kvMap.Keys == old(kvMap.Keys) + {u}
    {
      if u !in kvMap {
        SplitsKnownAdd(kvMap, u);
        KeyAdded(kvMap, u, DivideNode(u));
        kvMap := kvMap[u := DivideNode(u)];
      } else {
        KeyAdded(kvMap, u, kvMap[u]);
      }
    }

    /** A key-value node of universe v can draw its summary and insert into
        it: the summary's pool, and every pool below the summary, holds two
        nodes. */
    ghost predicate SummaryReady(v: int)
      reads this`kMap, this`kPool
    {
      IsPow2(v) && v > Cutoff
      && Ready(DivideNode(v).nClusters) && Stocked(kPool, {DivideNode(v).nClusters}, 2)
    }

    /** The key-only half of `initThread` on a key-value tree of universe u:
        both maps are cleared and `populate_maps(u, true)` refills them, so
        `kMap` holds the summary universes and those below them, never u
        itself; then the pool of every universe in `kMap` gains
        `POINTERS_PER_POOL` new nodes, which leaves every node of the tree
        ready to draw and fill its summary. */
    method InitThread(u: int)
      requires Valid() && IsPow2(u)
      modifies this
      ensures Valid() && kMap.Keys == KSizesBelowKV(u) && kvMap.Keys == KVChain(u)
      ensures kToRefill == old(kToRefill) && kToReclaim == old(kToReclaim)
      ensures old(Spare) <= Spare && fresh(Spare - old(Spare))
      ensures Seeded(old(kPool), kPool, kMap.Keys)
      ensures forall v | v in KVChain(u) && v > Cutoff :: SummaryReady(v)
    {
      kvMap := map[];
      kMap := map[];
      PopulateMapsKV(u);
      SeedAll();
      SeededStocked(old(kPool), kPool, kMap.Keys, kMap.Keys);
      AllSummariesReady(u);
    }

    /** With the maps `populate_maps(u, true)` fills and every pool of
        `kMap` holding two nodes, each key-value node of the tree is ready
        to draw its summary. */
    lemma AllSummariesReady(u: int)
      requires IsPow2(u) && kMap.Keys == KSizesBelowKV(u) && Stocked(kPool, kMap.Keys, 2)
      ensures forall v | v in KVChain(u) && v > Cutoff :: SummaryReady(v)
    {
      forall v | v in KVChain(u) && v > Cutoff
        ensures SummaryReady(v)
      {
        SummariesCovered(u, v);
      }
    }

    /** The loops of `initThread` over `kMap`: the pool of every universe in
        `kMap` gains `POINTERS_PER_POOL` new nodes. */
    method SeedAll()
      requires Valid()
      modifies this
      ensures Valid() && kMap == old(kMap) && kvMap == old(kvMap) && kToRefill == old(kToRefill) && kToReclaim == old(kToReclaim)
      ensures old(Spare) <= Spare && fresh(Spare - old(Spare))
      ensures Seeded(old(kPool), kPool, kMap.Keys)
    {
      var todo := kMap.Keys;
      SeededNothing(kPool);
      while todo != {}
        invariant Valid() && kMap == old(kMap) && kvMap == old(kvMap) && todo <= kMap.Keys
        invariant kToRefill == old(kToRefill) && kToReclaim == old(kToReclaim)
        invariant old(Spare) <= Spare && fresh(Spare - old(Spare))
        invariant Seeded(old(kPool), kPool, kMap.Keys - todo)
        decreases todo
      {
        todo := SeedNext(todo, old(kPool));
      }
    }

    /** One round of those loops: some universe of `todo` is seeded and
        leaves it. */
    method SeedNext(todo: set<int>, ghost p0: map<int, seq<KRef>>) returns (rest: set<int>)
      requires Valid() && todo != {} && todo <= kMap.Keys
      requires Seeded(p0, kPool, kMap.Keys - todo)
      modifies this
      ensures Valid() && kMap == old(kMap) && kvMap == old(kvMap) && kToRefill == old(kToRefill) && kToReclaim == old(kToReclaim)
      ensures old(Spare) <= Spare && fresh(Spare - old(Spare))
      ensures rest < todo && Seeded(p0, kPool, kMap.Keys - rest)
    {
      var s := Choose(todo);
      ghost var p := kPool;
      SeedPool(s);
      SeededOne(p0, p, kPool, kMap.Keys - todo, s);
      rest := todo - {s};
      assert kMap.Keys - rest == kMap.Keys - todo + {s};
    }

    /** The nodes on the reclamation list from position i on are kept there. */
    ghost predicate ReclaimFrom(i: int)
      reads this`kToReclaim, this`Spare, this`Owner, Spare
    {
      this !in Spare && ReclaimKept(kToReclaim, i, Spare, Owner)
    }

    /** The pools as they were kept at an earlier state are kept still when
        no spare object has changed since. */
    twostate lemma Undisturbed(new from: int)
      requires old(PoolsKept(kPool, Spare, Owner) && ReclaimKept(kToReclaim, from, Spare, Owner))
      requires unchanged(old(Spare))
      ensures PoolsKept(old(kPool), old(Spare), old(Owner))
      ensures ReclaimKept(old(kToReclaim), from, old(Spare), old(Owner))
    {
    }

    /** `Valid` but for the reclamation list. */
    ghost predicate Settled()
      reads this, Spare
    {
      MapValid() && PoolsValid() && RefillValid()
    }

    /** `makeMeReusable` on node i of the reclamation list, which, being
        empty, it leaves as it was. */
    method Reset(i: int)
      requires Settled() && ReclaimFrom(i) && i < |kToReclaim|
      modifies RefHead(kToReclaim[i])
      ensures Settled() && ReclaimFrom(i)
    {
      RefMakeMeReusable(kToReclaim[i]);
    }

    /** One step of `delDriver`'s loop over `kToReclaim`: node i is reset and
        goes back to the pool of its own universe, unless that pool already
        holds `POINTERS_PER_POOL * POOL_GROW_COEFFICIENT` nodes, in which
        case it is dropped. */
    method ReclaimOne(i: int, ghost p0: map<int, seq<KRef>>)
      requires Settled() && ReclaimFrom(i) && i < |kToReclaim|
      requires Recycled(p0, kPool, kToReclaim[..i])
      modifies this, RefHead(kToReclaim[i])
      ensures Settled() && ReclaimFrom(i + 1)
      ensures kMap == old(kMap) && kToRefill == old(kToRefill) && kToReclaim == old(kToReclaim) && Spare == old(Spare)
      ensures Recycled(p0, kPool, kToReclaim[..i + 1])
    {
      var r := kToReclaim[i];
      var s := RefSize(r);
      var n := |PoolAt(kPool, s)|;
      assert kToReclaim[..i + 1] == kToReclaim[..i] + [r];
      if n < PointersPerPool * PoolGrowCoefficient {
        RecycledOne(p0, kPool, kPool[s := PoolAt(kPool, s) + [r]], kToReclaim[..i], r);
        Repool(i);
      } else {
        RecycledOne(p0, kPool, kPool, kToReclaim[..i], r);
      }
    }

    /** `makeMeReusable` on node i of the reclamation list and
        `kPool[s].push_back` of it, s being its universe. */
    method Repool(i: int)
      requires Settled() && ReclaimFrom(i) && i < |kToReclaim|
      modifies this, RefHead(kToReclaim[i])
      ensures Settled() && ReclaimFrom(i + 1)
      ensures kPool == old(kPool[RefSize(kToReclaim[i]) := PoolAt(kPool, RefSize(kToReclaim[i])) + [kToReclaim[i]]])
      ensures kMap == old(kMap) && kToRefill == old(kToRefill) && kToReclaim == old(kToReclaim) && Spare == old(Spare)
    {
      var pool, r := kPool, kToReclaim[i];
      var s := RefSize(r);
      var n := |PoolAt(pool, s)|;
      Reset(i);
      label reset:
      ghost var mine := RefRepr(r);
      ghost var owner := Claimed(Owner, mine, Pooled(s, n));
      kPool := pool[s := PoolAt(pool, s) + [r]];
      Owner := owner;
      Undisturbed@reset(i);
      Rehomed(pool, kToReclaim, i, Spare, old@reset(Owner), s, n, mine);
    }

    /** The reclaiming part of `delDriver`: every node on the reclamation
        list is reset and pooled or dropped, and the list is cleared. */
    method ReclaimAll()
      requires Valid()
      modifies this, Spare
      ensures Valid() && kToReclaim == []
      ensures kMap == old(kMap) && kToRefill == old(kToRefill) && Spare == old(Spare)
      ensures Recycled(old(kPool), kPool, old(kToReclaim))
    {
      var i := 0;
      RecycledNothing(kPool);
      assert kToReclaim[..0] == [];
      while i < |kToReclaim|
        invariant 0 <= i <= |kToReclaim| && Settled() && ReclaimFrom(i)
        invariant kMap == old(kMap) && kToRefill == old(kToRefill) && kToReclaim == old(kToReclaim)
        invariant Spare == old(Spare)
        invariant Recycled(old(kPool), kPool, kToReclaim[..i])
      {
        ReclaimOne(i, old(kPool));
        i := i + 1;
      }
      assert kToReclaim[..i] == kToReclaim;
      kToReclaim := [];
    }
  }

  class KInternal {
    const u: int
    const clusters: array<KRef>
    var summary: KRef
    var min: int
    var max: int
    ghost var Keys: set<int>
    ghost var Repr: set<object>

    ghost function ClusterSize(): int
      requires IsPow2(u)
    {
      DivideNode(u).clusterSize
    }

    ghost function NClusters(): int
      requires IsPow2(u)
    {
      DivideNode(u).nClusters
    }

    /** The shape every node keeps: its universe, its array of clusters, and
        children that are owned, disjoint and well-formed. */
    ghost predicate Shape()
      reads this`summary, this`Repr, Repr
      decreases Repr, 0
    {
      this !in Repr && clusters in Repr
      && IsPow2(u) && u > Cutoff && clusters.Length == NClusters()
      && (forall h | 0 <= h < clusters.Length ::
            RefHead(clusters[h]) <= Repr && RefRepr(clusters[h]) <= Repr
            && this !in RefRepr(clusters[h]) && clusters !in RefRepr(clusters[h]))
      && RefHead(summary) <= Repr && RefRepr(summary) <= Repr
      && this !in RefRepr(summary) && clusters !in RefRepr(summary)
      && (forall h, h' | 0 <= h < h' < clusters.Length :: RefRepr(clusters[h]) !! RefRepr(clusters[h']))
      && (forall h | 0 <= h < clusters.Length :: RefRepr(clusters[h]) !! RefRepr(summary))
    }

    /** The clusters and the summary hold `rest`, the keys other than `min`:
        cluster h holds the offsets of the keys in h, the summary the numbers
        of the occupied clusters. */
    ghost predicate Loose(rest: set<int>)
      reads this`summary, this`Repr, Repr
      decreases Repr, 1
    {
      Shape()
      && (forall h | 0 <= h < clusters.Length :: RefValid(clusters[h], ClusterSize()))
      && RefValid(summary, NClusters())
      && InUniverse(rest, u)
      && (forall h | 0 <= h < clusters.Length :: RefKeys(clusters[h]) == Slice(rest, h, ClusterSize()))
      && RefKeys(summary) == Occupied(rest, NClusters(), ClusterSize())
    }

    /** No allocated child is empty: null exactly for the empty clusters. */
    ghost predicate Tight()
      reads this`summary, this`Repr, Repr
    {
      Shape()
      && (forall h | 0 <= h < clusters.Length :: Filled(clusters[h]))
      && Filled(summary)
    }

    /** Tight except that cluster h may have just been allocated, still empty. */
    ghost predicate TightBut(h: int)
      reads this`summary, this`Repr, Repr
    {
      Shape()
      && (forall h' | 0 <= h' < clusters.Length && h' != h :: Filled(clusters[h']))
      && Filled(summary)
    }

    /** The state halfway through adding a first key to the empty cluster
        h: the clusters hold `rest`, the summary already names h. */
    ghost predicate Summarised(h: int, rest: set<int>)
      reads this`summary, this`Repr, Repr
    {
      TightBut(h) && 0 <= h < clusters.Length
      && (forall h' | 0 <= h' < clusters.Length ::
            RefValid(clusters[h'], ClusterSize()) && RefKeys(clusters[h']) == Slice(rest, h', ClusterSize()))
      && RefValid(summary, NClusters()) && RefKeys(summary) == Occupied(rest, NClusters(), ClusterSize()) + {h}
    }

    /** The node and the pools share no object. */
    ghost predicate Detached(ctx: KPools)
      reads this, ctx
    {
      ctx !in Repr && this !in ctx.Spare && Repr !! ctx.Spare
    }

    ghost predicate Valid()
      reads this, Repr
      decreases Repr, 2
    {
      Loose(Keys - {min}) && Tight()
      && InUniverse(Keys, u) && IsMinOf(min, Keys) && IsMaxOf(max, Keys)
    }
  

    /** A new, empty node of universe u, every cluster null: the split is
        `kMap[u]` when the map has it and `divide_node(u)` otherwise. */
    constructor (u: int, ctx: KPools)
      requires IsPow2(u) && u > Cutoff && ctx.MapValid()
      ensures Valid() && Keys == {} && this.u == u && fresh(Repr)
    {
      var ui := if u in ctx.kMap then ctx.kMap[u] else DivideNode(u);
      DivideNodeShrinks(u);
      this.u := u;
      clusters := new KRef[ui.nClusters](_ => Nil);
      summary := Nil;
      min := None;
      max := None;
      Keys := {};
      Repr := {clusters};
      new;
      NoKeysLayout(NClusters(), ClusterSize());
      assert forall h | 0 <= h < clusters.Length :: clusters[h] == Nil;
      assert Shape();
    }

    /** `makeMeReusable`: `min` and `max` back to -1, which an empty node
        already holds. */
    method MakeMeReusable()
      requires Valid() && Keys == {}
      modifies this`min, this`max
      ensures Valid() && Keys == {} && min == None && max == None && unchanged(this)
    {
      min := None;
      max := None;
    }

    /** The node's split as the source reads it, `kMap[this->u]`. */
    lemma SplitFacts(ctx: KPools)
      requires Shape() && ctx.MapValid() && u in ctx.kMap
      ensures ctx.kMap[u] == DivideNode(u) && SplitOf(ctx.kMap[u], u)
      ensures ClusterSize() * NClusters() == u
      ensures 2 <= ClusterSize() < u && 2 <= NClusters() < u && ClusterSize() <= NClusters()
      ensures IsPow2(ClusterSize()) && IsPow2(NClusters())
    {
      DivideNodeSplitOf(u);
      DivideNodeShrinks(u);
    }

    /** Where x lives: cluster `HIGH(x)` at offset `LOW(x)`. */
    lemma KeyPlace(ctx: KPools, x: int)
      requires Shape() && ctx.MapValid() && u in ctx.kMap && 0 <= x < u
      ensures ctx.kMap[u] == DivideNode(u) && 2 <= ClusterSize() < u && 2 <= NClusters() < u
      ensures High(x, ctx.kMap[u]) == x / ClusterSize() && Low(x, ctx.kMap[u]) == x % ClusterSize()
      ensures 0 <= x / ClusterSize() < NClusters() && 0 <= x % ClusterSize() < ClusterSize()
    {
      SplitFacts(ctx);
      HighLowArith(ctx.kMap[u], u, x);
      Decompose(ctx.kMap[u], u, x);
    }

    /** What the invariant says of cluster h. */
    lemma ChildFacts(rest: set<int>, h: int)
      requires Loose(rest) && 0 <= h < clusters.Length
      ensures RefValid(clusters[h], ClusterSize())
      ensures !clusters[h].Nil? ==> RefSize(clusters[h]) == ClusterSize()
      ensures RefKeys(clusters[h]) == Slice(rest, h, ClusterSize())
    {}

    /** `member`: whether x is one of the node's keys. */
    method Member(x: int, ctx: KPools) returns (b: bool)
      requires Valid() && ctx.MapValid() && ctx.Knows(u) && 0 <= x < u
      ensures b == (x in Keys)
      decreases u, 0
    {
      if x == min || x == max {
        return true;
      }
      var ui := ctx.kMap[u];
      KeyPlace(ctx, x);
      ctx.KnowsChildren(u);
      var h := High(x, ui);
      SliceMember(Keys - {min}, ClusterSize(), x);
      if clusters[h].Nil? {
        return false;
      }
      var l := Low(x, ui);
      ChildFacts(Keys - {min}, h);
      b := RefMember(clusters[h], l, ctx);
    }

    /** What the invariant says of the summary. */
    lemma SummaryFacts(rest: set<int>)
      requires Loose(rest)
      ensures RefValid(summary, NClusters())
      ensures !summary.Nil? ==> RefSize(summary) == NClusters()
      ensures RefKeys(summary) == Occupied(rest, NClusters(), ClusterSize())
      ensures summary.Nil? ==> rest == {}
    {
      DivideNodeSplits(u);
      OccupiedEmpty(rest, NClusters(), ClusterSize());
    }

    /** `successor`: the smallest key above x, or -1. */
    method Successor(x: int, ctx: KPools) returns (r: int)
      requires Valid() && ctx.MapValid() && ctx.Knows(u) && 0 <= x < u
      ensures IsSuccessor(r, Keys, x)
      decreases u, 1
    {
      if min != None && x < min {
        return min;
      }
      var ui := ctx.kMap[u];
      KeyPlace(ctx, x);
      ctx.KnowsChildren(u);
      var h := High(x, ui);
      ChildFacts(Keys - {min}, h);
      RefMinMax(clusters[h], ClusterSize());
      if !clusters[h].Nil? {
        var l := Low(x, ui);
        var maxLow := RefMax(clusters[h]);
        if maxLow != None && l < maxLow {
          var offset := RefSuccessor(clusters[h], l, ctx);
          r := Index(h, offset, ui);
          assert r == At(h, offset, ClusterSize());
          assert IsSuccessor(r, Keys, x) by {
            SuccessorInCluster(Keys - {min}, ClusterSize(), x, offset);
            LiftSuccessor(min, Keys, x, r);
          }
          return;
        }
      }
      r := SuccessorInLaterCluster(x, ctx);
    }

    /** The part of `successor` that looks past x's own cluster, once that
        cluster is known to hold nothing above x: the minimum of the next
        occupied cluster the summary names. */
    method SuccessorInLaterCluster(x: int, ctx: KPools) returns (r: int)
      requires Valid() && ctx.MapValid() && ctx.Knows(u) && 0 <= x < u
      requires min == None || min <= x
      requires forall o | o in Slice(Keys - {min}, x / ClusterSize(), ClusterSize()) :: o <= x % ClusterSize()
      ensures IsSuccessor(r, Keys, x)
      decreases u, 0
    {
      var ui := ctx.kMap[u];
      KeyPlace(ctx, x);
      ctx.KnowsChildren(u);
      ghost var rest, cs, nc := Keys - {min}, ClusterSize(), NClusters();
      DivideNodeSplits(u);
      var h := High(x, ui);
      SummaryFacts(rest);
      if summary.Nil? {
        assert IsSuccessor(None, Keys, x) by {
          LiftSuccessor(min, Keys, x, None);
        }
        return None;
      }
      var succCluster := RefSuccessor(summary, h, ctx);
      if succCluster == None {
        assert InUniverse(rest, cs * nc) && h == x / cs;
        assert IsSuccessor(None, Keys, x) by {
          SuccessorBeyond(rest, nc, cs, x, None, 0);
          LiftSuccessor(min, Keys, x, None);
        }
        return None;
      }
      r := SuccessorFromCluster(x, ctx, succCluster);
    }

    /** The end of `successor` once the summary named cluster hs as the next
        occupied one: the minimum of cluster hs. */
    method SuccessorFromCluster(x: int, ctx: KPools, hs: int) returns (r: int)
      requires Valid() && ctx.MapValid() && ctx.Knows(u) && 0 <= x < u
      requires min == None || min <= x
      requires forall o | o in Slice(Keys - {min}, x / ClusterSize(), ClusterSize()) :: o <= x % ClusterSize()
      requires 0 <= hs < clusters.Length
      requires IsSuccessor(hs, Occupied(Keys - {min}, NClusters(), ClusterSize()), x / ClusterSize())
      ensures IsSuccessor(r, Keys, x)
    {
      var ui := ctx.kMap[u];
      KeyPlace(ctx, x);
      ghost var rest, cs, nc := Keys - {min}, ClusterSize(), NClusters();
      DivideNodeSplits(u);
      ChildFacts(rest, hs);
      RefMinMax(clusters[hs], cs);
      var offset := RefMin(clusters[hs]);
      r := Index(hs, offset, ui);
      assert InUniverse(rest, cs * nc) && r == At(hs, offset, cs);
      assert IsSuccessor(r, Keys, x) by {
        SuccessorBeyond(rest, nc, cs, x, hs, offset);
        LiftSuccessor(min, Keys, x, r);
      }
    }

    /** `predecessor`: the largest key below x, or -1. */
    method Predecessor(x: int, ctx: KPools) returns (r: int)
      requires Valid() && ctx.MapValid() && ctx.Knows(u) && 0 <= x < u
      ensures IsPredecessor(r, Keys, x)
      decreases u, 1
    {
      if min == None {
        return None;
      }
      if x > max {
        if max == min {
          return max;
        }
      }
      var ui := ctx.kMap[u];
      KeyPlace(ctx, x);
      ctx.KnowsChildren(u);
      var h := High(x, ui);
      ChildFacts(Keys - {min}, h);
      RefMinMax(clusters[h], ClusterSize());
      if !clusters[h].Nil? {
        var l := Low(x, ui);
        var minLow := RefMin(clusters[h]);
        if minLow != None && minLow < l {
          var offset := RefPredecessor(clusters[h], l, ctx);
          r := Index(h, offset, ui);
          assert r == At(h, offset, ClusterSize());
          assert IsPredecessor(r, Keys, x) by {
            PredecessorInCluster(Keys - {min}, ClusterSize(), x, offset);
            LiftPredecessor(min, Keys, x, r);
          }
          return;
        }
      }
      r := PredecessorInEarlierCluster(x, ctx);
    }

    /** The part of `predecessor` that looks before x's own cluster, once
        that cluster is known to hold nothing below x: the maximum of the
        previous occupied cluster the summary names, else `min` when it is
        below x, since no cluster holds `min`. */
    method PredecessorInEarlierCluster(x: int, ctx: KPools) returns (r: int)
      requires Valid() && ctx.MapValid() && ctx.Knows(u) && 0 <= x < u
      requires min != None && (x > max ==> max != min)
      requires forall o | o in Slice(Keys - {min}, x / ClusterSize(), ClusterSize()) :: x % ClusterSize() <= o
      ensures IsPredecessor(r, Keys, x)
      decreases u, 0
    {
      var ui := ctx.kMap[u];
      KeyPlace(ctx, x);
      ctx.KnowsChildren(u);
      ghost var rest, cs, nc := Keys - {min}, ClusterSize(), NClusters();
      DivideNodeSplits(u);
      var h := High(x, ui);
      SummaryFacts(rest);
      if summary.Nil? {
        assert Keys == {min};
        return None;
      }
      var predCluster := RefPredecessor(summary, h, ctx);
      if predCluster == None {
        assert InUniverse(rest, cs * nc) && h == x / cs;
        assert IsPredecessor(if min != None && x > min then min else None, Keys, x) by {
          PredecessorBeyond(rest, nc, cs, x, None, 0);
          MinIsPredecessor(min, Keys, x);
        }
        if min != None && x > min {
          return min;
        }
        return None;
      }
      r := PredecessorFromCluster(x, ctx, predCluster);
    }

    /** The end of `predecessor` once the summary named cluster hp as the
        previous occupied one: the maximum of cluster hp. */
    method PredecessorFromCluster(x: int, ctx: KPools, hp: int) returns (r: int)
      requires Valid() && ctx.MapValid() && ctx.Knows(u) && 0 <= x < u && min != None
      requires forall o | o in Slice(Keys - {min}, x / ClusterSize(), ClusterSize()) :: x % ClusterSize() <= o
      requires 0 <= hp < clusters.Length
      requires IsPredecessor(hp, Occupied(Keys - {min}, NClusters(), ClusterSize()), x / ClusterSize())
      ensures IsPredecessor(r, Keys, x)
    {
      var ui := ctx.kMap[u];
      KeyPlace(ctx, x);
      ghost var rest, cs, nc := Keys - {min}, ClusterSize(), NClusters();
      DivideNodeSplits(u);
      ChildFacts(rest, hp);
      RefMinMax(clusters[hp], cs);
      var offset := RefMax(clusters[hp]);
      r := Index(hp, offset, ui);
      assert InUniverse(rest, cs * nc) && r == At(hp, offset, cs);
      assert IsPredecessor(r, Keys, x) by {
        PredecessorBeyond(rest, nc, cs, x, hp, offset);
        LiftPredecessor(min, Keys, x, r);
      }
    }

    /** `insertToEmptyVEB`: the first key goes into `min` and `max` only. */
    method InsertToEmpty(x: int)
      requires Valid() && Keys == {} && 0 <= x < u
      modifies this`min, this`max, this`Keys
      ensures Valid() && Keys == {x} && min == x && max == x
    {
      min := x;
      max := x;
      Keys := {x};
    }

    /** `clusters[h] = newCluster` for a null cluster h and an empty node
        from outside the tree, which joins the tree's objects. */
    method SetCluster(h: int, c: KRef, ghost rest: set<int>)
      requires Loose(rest) && 0 <= h < clusters.Length && clusters[h].Nil?
      requires EmptyNode(c, ClusterSize()) && RefRepr(c) !! Repr && this !in RefRepr(c)
      modifies this`Repr, clusters
      ensures Loose(rest) && clusters[h] == c && Repr == old(Repr) + RefRepr(c)
      ensures forall h' | 0 <= h' < clusters.Length && h' != h :: clusters[h'] == old(clusters[h'])
    {
      clusters[h] := c;
      Repr := Repr + RefRepr(c);
      ClusterSet(h, c, rest);
    }

    /** An empty node from outside the node took the place of null cluster
        h and its objects joined `Repr`: the node still holds `rest`. */
    twostate lemma ClusterSet(new h: int, c: KRef, new rest: set<int>)
      requires old(Loose(rest)) && 0 <= h < clusters.Length && old(clusters[h]).Nil?
      requires old(EmptyNode(c, ClusterSize())) && old(RefRepr(c)) !! old(Repr) && this !in old(RefRepr(c))
      requires clusters[h] == c && forall h' | 0 <= h' < clusters.Length && h' != h :: clusters[h'] == old(clusters[h'])
      requires summary == old(summary) && Repr == old(Repr) + old(RefRepr(c))
      requires unchanged(old(Repr) - {clusters}) && unchanged(old(RefRepr(c)))
      ensures Loose(rest)
    {
      KeptOthers(h);
    }

    /** `allocateClusterIfNeeded`: a null cluster h is replaced by the last
        node of the pool for the cluster size, which is popped, and that
        size is logged for refilling; an allocated cluster is left alone. */
    method AllocateClusterIfNeeded(h: int, ctx: KPools, ghost rest: set<int>)
      requires Loose(rest) && ctx.Valid() && Detached(ctx) && u in ctx.kMap
      requires 0 <= h < clusters.Length
      requires clusters[h].Nil? ==> ClusterSize() in ctx.kPool && |ctx.kPool[ClusterSize()]| > 0
      modifies this`Repr, clusters, ctx
      ensures Loose(rest) && !clusters[h].Nil? && RefSize(clusters[h]) == ClusterSize()
      ensures ctx.Spent(old(clusters[h]).Nil?) && Detached(ctx)
      ensures Repr <= old(Repr) + old(ctx.Spare)
      ensures forall h' | 0 <= h' < clusters.Length && h' != h :: clusters[h'] == old(clusters[h'])
      ensures old(clusters[h]).Nil? ==>
                clusters[h] == old(ctx.kPool[ClusterSize()][|ctx.kPool[ClusterSize()]| - 1])
      ensures old(clusters[h]).Nil? ==>
                RefKeys(clusters[h]) == {}
      ensures old(clusters[h]).Nil? ==>
                ctx.kPool == old(ctx.kPool[ClusterSize() := ctx.kPool[ClusterSize()][..|ctx.kPool[ClusterSize()]| - 1]])
      ensures old(clusters[h]).Nil? ==>
                ctx.kToRefill == old(ctx.kToRefill) + [ClusterSize()]
      ensures old(clusters[h]).Nil? ==>
                Repr == old(Repr) + RefRepr(clusters[h])
      ensures old(clusters[h]).Nil? ==>
                ctx.Spare == old(ctx.Spare) - RefRepr(clusters[h])
      ensures !old(clusters[h]).Nil? ==>
                clusters[h] == old(clusters[h]) && Repr == old(Repr)
                && ctx.kPool == old(ctx.kPool) && ctx.kToRefill == old(ctx.kToRefill) && ctx.Spare == old(ctx.Spare)
    {
      if clusters[h].Nil? {
        SplitFacts(ctx);
        var clusterU := ctx.kMap[u].clusterSize;
        var newCluster := ctx.Draw(clusterU);
        SetCluster(h, newCluster, rest);
      } else {
        FollowsNothing(ctx.State(), false);
      }
    }

    /** `this->summary = newSummary` for a null summary and an empty node
        from outside the tree, which joins the tree's objects. */
    method SetSummary(c: KRef, ghost rest: set<int>)
      requires Loose(rest) && summary.Nil?
      requires EmptyNode(c, NClusters()) && RefRepr(c) !! Repr && this !in RefRepr(c)
      modifies this`Repr, this`summary
      ensures Loose(rest) && summary == c && Repr == old(Repr) + RefRepr(c)
    {
      SummaryFacts(rest);
      summary := c;
      Repr := Repr + RefRepr(c);
      forall h | 0 <= h < clusters.Length
        ensures RefRepr(clusters[h]) == old(RefRepr(clusters[h]))
        ensures RefValid(clusters[h], ClusterSize()) && RefKeys(clusters[h]) == old(RefKeys(clusters[h]))
      {
      }
    }

    /** `allocateSummaryIfNeeded`: a null summary is replaced by the last
        node of the pool for the summary size, which is popped, and that
        size is logged for refilling; an allocated summary is left alone. */
    method AllocateSummaryIfNeeded(ctx: KPools, ghost rest: set<int>)
      requires Loose(rest) && ctx.Valid() && Detached(ctx) && u in ctx.kMap
      requires summary.Nil? ==> NClusters() in ctx.kPool && |ctx.kPool[NClusters()]| > 0
      modifies this`Repr, this`summary, ctx
      ensures Loose(rest) && !summary.Nil? && RefSize(summary) == NClusters()
      ensures ctx.Spent(old(summary).Nil?) && Detached(ctx)
      ensures Repr <= old(Repr) + old(ctx.Spare) && ctx.Spare <= old(ctx.Spare)
      ensures old(summary).Nil? ==>
                summary == old(ctx.kPool[NClusters()][|ctx.kPool[NClusters()]| - 1])
      ensures old(summary).Nil? ==>
                RefKeys(summary) == {}
      ensures old(summary).Nil? ==>
                ctx.kPool == old(ctx.kPool[NClusters() := ctx.kPool[NClusters()][..|ctx.kPool[NClusters()]| - 1]])
      ensures old(summary).Nil? ==>
                ctx.kToRefill == old(ctx.kToRefill) + [NClusters()]
      ensures old(summary).Nil? ==>
                Repr == old(Repr) + RefRepr(summary)
      ensures old(summary).Nil? ==>
                ctx.Spare == old(ctx.Spare) - RefRepr(summary)
      ensures !old(summary).Nil? ==>
                summary == old(summary) && Repr == old(Repr)
                && ctx.kPool == old(ctx.kPool) && ctx.kToRefill == old(ctx.kToRefill) && ctx.Spare == old(ctx.Spare)
    {
      if summary.Nil? {
        SplitFacts(ctx);
        var summaryU := ctx.kMap[u].nClusters;
        var newSummary := ctx.Draw(summaryU);
        SetSummary(newSummary, rest);
      } else {
        FollowsNothing(ctx.State(), false);
      }
    }

    /** `insert`: true exactly when x was absent; the key set gains x. A key
        below `min` becomes the new `min` and the old one goes down instead. */
    method Insert(x: int, ctx: KPools) returns (inserted: bool)
      requires Valid() && ctx.Valid() && Detached(ctx) && ctx.Ready(u) && 0 <= x < u
      modifies this, Repr, ctx, ctx.Spare
      ensures Valid() && Keys == old(Keys) + {x}
      ensures inserted == (x !in old(Keys))
      ensures ctx.Spent(inserted)
      ensures Detached(ctx) && Repr <= old(Repr) + old(ctx.Spare)
      decreases u, 7
    {
      if x == min || x == max {
        FollowsNothing(ctx.State(), false);
        return false;
      }
      if min == None {
        InsertToEmpty(x);
        FollowsNothing(ctx.State(), true);
        return true;
      }
      inserted := InsertNonEmpty(x, ctx);
    }

    /** The rest of `insert`, for a node that holds keys other than x: the
        smaller of x and `min` stays as `min` and the other goes into its
        cluster; `max` follows. The source swaps `min` before the cluster
        insertion and raises `max` after it; the insertion reads neither, so
        both fields are written once it returns. */
    method InsertNonEmpty(x: int, ctx: KPools) returns (inserted: bool)
      requires Valid() && ctx.Valid() && Detached(ctx) && ctx.Ready(u) && 0 <= x < u
      requires min != None && x != min && x != max
      modifies this, Repr, ctx, ctx.Spare
      ensures Valid() && Keys == old(Keys) + {x}
      ensures inserted == (x !in old(Keys))
      ensures ctx.Spent(inserted)
      ensures Detached(ctx) && Repr <= old(Repr) + old(ctx.Spare)
      decreases u, 6
    {
      ghost var rest := Keys - {min};
      var y, least := x, min;
      if y < min {
        y, least := min, y;
      }
      var greatest := if y > max then y else max;
      MinSwapped(Keys, min, max, x, y, least, greatest);
      inserted := InsertBelow(y, ctx, rest);
      label below:
      SetBounds(x, least, greatest);
      ctx.Unmoved@below();
    }

    /** `min` and `max` take their new values once x has been added below
        them. */
    method SetBounds(x: int, least: int, greatest: int)
      requires Loose((Keys + {x}) - {least}) && Tight() && InUniverse(Keys + {x}, u)
      requires IsMinOf(least, Keys + {x}) && IsMaxOf(greatest, Keys + {x})
      modifies this`min, this`max, this`Keys
      ensures Valid() && Keys == old(Keys) + {x} && min == least && max == greatest
    {
      ghost var rest := (Keys + {x}) - {least};
      label before:
      min, max := least, greatest;
      Keys := Keys + {x};
      FieldsMoved@before(rest);
    }

    /** The key-set arithmetic of `insert`'s swap: the keys other than the
        new `min` are the old ones other than the old `min`, plus the key
        that goes down into the clusters. */
    static lemma MinSwapped(keys: set<int>, min: int, max: int, x: int, y: int, least: int, greatest: int)
      requires IsMinOf(min, keys) && IsMaxOf(max, keys) && min != None && x != min && x != max && 0 <= x
      requires (x < min ==> y == min && least == x) && (x >= min ==> y == x && least == min)
      requires greatest == if y > max then y else max
      ensures (keys + {x}) - {least} == (keys - {min}) + {y}
      ensures IsMinOf(least, keys + {x}) && IsMaxOf(greatest, keys + {x})
      ensures y !in keys - {min} <==> x !in keys
    {
    }

    /** The clusters and summary hold what they held while none of the
        node's objects changed. */
    twostate lemma ChildrenKept(new rest: set<int>)
      requires old(Loose(rest) && Tight())
      requires summary == old(summary) && Repr == old(Repr) && unchanged(Repr)
      ensures Loose(rest) && Tight()
    {
    }

    /** Writing only the node's own `min`, `max` and `Keys` keeps its
        clusters and summary as they were. */
    twostate lemma FieldsMoved(new rest: set<int>)
      requires old(Loose(rest) && Tight())
      requires summary == old(summary) && Repr == old(Repr) && unchanged(Repr)
      requires Keys - {min} == rest && InUniverse(Keys, u) && IsMinOf(min, Keys) && IsMaxOf(max, Keys)
      ensures Valid()
    {
    }

    /** The part of `insert` below `min`: y goes into cluster `HIGH(y)` at
        offset `LOW(y)`. An empty cluster takes it as its first key, and its
        number then goes into the summary. */
    method InsertBelow(y: int, ctx: KPools, ghost rest: set<int>) returns (inserted: bool)
      requires Loose(rest) && Tight() && 0 <= y < u
      requires ctx.Valid() && Detached(ctx) && ctx.Ready(u)
      modifies this`Repr, this`summary, clusters, Repr, ctx, ctx.Spare
      ensures Loose(rest + {y}) && Tight()
      ensures inserted == (y !in rest)
      ensures ctx.Spent(inserted)
      ensures Detached(ctx) && Repr <= old(Repr) + old(ctx.Spare)
      decreases u, 5
    {
      var ui := ctx.kMap[u];
      KeyPlace(ctx, y);
      var h := High(y, ui);
      var l := Low(y, ui);
      ghost var wasNil := clusters[h].Nil?;
      ChildFacts(rest, h);
      SliceMember(rest, ClusterSize(), y);
      assert wasNil ==> y !in rest;
      PrepareCluster(h, ctx, rest);
      ghost var s1 := ctx.State();
      IndexOf(y, ClusterSize());
      assert y == At(h, l, ClusterSize());
      inserted := PlaceInCluster(h, l, ctx, rest);
      FollowsThen(old(ctx.State()), s1, ctx.State(), wasNil, inserted);
    }

    /** `insert`'s allocation of cluster h when it is null, after which the
        pools are still ready for the insertion into the cluster and, when
        the cluster is new, into the summary. */
    method PrepareCluster(h: int, ctx: KPools, ghost rest: set<int>)
      requires Loose(rest) && Tight() && 0 <= h < clusters.Length
      requires ctx.Valid() && Detached(ctx) && ctx.Ready(u)
      modifies this`Repr, clusters, ctx
      ensures Loose(rest) && TightBut(h) && !clusters[h].Nil?
      ensures ctx.Spent(old(clusters[h]).Nil?) && Detached(ctx) && ctx.kMap == old(ctx.kMap)
      ensures ctx.Ready(NClusters()) && ctx.Ready(ClusterSize())
      ensures NClusters() in ctx.kPool && |ctx.kPool[NClusters()]| > 0
      ensures Repr <= old(Repr) + old(ctx.Spare)
    {
      ctx.ReadyChildren(u);
      ghost var s0 := ctx.State();
      AllocateClusterIfNeeded(h, ctx, rest);
      ghost var s1 := ctx.State();
      if old(clusters[h]).Nil? {
        StockedElsewhere(s0.kPool, s1.kPool, ClusterSize(), SubSizes(NClusters()), 2);
        StockedElsewhere(s0.kPool, s1.kPool, ClusterSize(), SubSizes(ClusterSize()), 2);
      }
    }

    /** `insert`'s step into cluster h, which exists by now: an empty
        cluster takes l as its first key and h goes into the summary,
        otherwise the cluster inserts l itself. */
    method PlaceInCluster(h: int, l: int, ctx: KPools, ghost rest: set<int>) returns (inserted: bool)
      requires Loose(rest) && TightBut(h) && 0 <= h < clusters.Length && 0 <= l < ClusterSize()
      requires !clusters[h].Nil?
      requires ctx.Valid() && Detached(ctx) && u in ctx.kMap
      requires ctx.Ready(NClusters()) && ctx.Ready(ClusterSize())
      requires NClusters() in ctx.kPool && |ctx.kPool[NClusters()]| > 0
      modifies this`Repr, this`summary, Repr, ctx, ctx.Spare
      ensures Loose(rest + {At(h, l, ClusterSize())}) && Tight()
      ensures inserted == (At(h, l, ClusterSize()) !in rest)
      ensures ctx.Spent(inserted)
      ensures Detached(ctx) && Repr <= old(Repr) + old(ctx.Spare)
      decreases u, 4
    {
      ChildFacts(rest, h);
      RefMinMax(clusters[h], ClusterSize());
      IndexSplit(h, l, ClusterSize());
      SliceMember(rest, ClusterSize(), At(h, l, ClusterSize()));
      if RefMin(clusters[h]) == None {
        inserted := FillCluster(h, l, ctx, rest);
      } else {
        inserted := InsertIntoCluster(h, l, ctx, rest);
      }
    }

    /** Adding the key at cluster h, offset l, to `rest`: cluster h gains l,
        the summary gains h, and nothing else changes. */
    lemma LooseInsert(rest: set<int>, h: int, l: int)
      requires Shape() && InUniverse(rest, u) && 0 <= h < clusters.Length && 0 <= l < ClusterSize()
      requires forall h' | 0 <= h' < clusters.Length :: RefValid(clusters[h'], ClusterSize())
      requires forall h' | 0 <= h' < clusters.Length && h' != h :: RefKeys(clusters[h']) == Slice(rest, h', ClusterSize())
      requires RefKeys(clusters[h]) == Slice(rest, h, ClusterSize()) + {l}
      requires RefValid(summary, NClusters()) && RefKeys(summary) == Occupied(rest, NClusters(), ClusterSize()) + {h}
      ensures Loose(rest + {At(h, l, ClusterSize())})
    {
      DivideNodeSplits(u);
      PlaceInsert(rest, NClusters(), ClusterSize(), h, l);
    }

    /** Child i of the node: cluster i, or the summary for i == -1. */
    ghost function Child(i: int): KRef
      reads this`summary, clusters
      requires -1 <= i < clusters.Length
    {
      if i == -1 then summary else clusters[i]
    }

    /** When nothing of the node outside child i changed, every other child
        is as it was. */
    twostate lemma KeptBut(i: int)
      requires old(Shape()) && -1 <= i < clusters.Length
      requires old(forall h | 0 <= h < clusters.Length :: RefValid(clusters[h], ClusterSize()))
      requires old(RefValid(summary, NClusters()))
      requires unchanged(clusters) && summary == old(summary)
      requires unchanged(old(Repr) - old(RefRepr(Child(i))))
      ensures forall h | 0 <= h < clusters.Length && h != i ::
                RefRepr(clusters[h]) == old(RefRepr(clusters[h]))
                && RefValid(clusters[h], ClusterSize()) && RefKeys(clusters[h]) == old(RefKeys(clusters[h]))
      ensures i != -1 ==>
                RefRepr(summary) == old(RefRepr(summary))
                && RefValid(summary, NClusters()) && RefKeys(summary) == old(RefKeys(summary))
    {
      forall h | 0 <= h < clusters.Length && h != i
        ensures RefRepr(clusters[h]) == old(RefRepr(clusters[h]))
        ensures RefValid(clusters[h], ClusterSize()) && RefKeys(clusters[h]) == old(RefKeys(clusters[h]))
      {
      }
    }

    /** When only child i was replaced and no object of the node but its
        array changed, every other child is as it was. */
    twostate lemma KeptOthers(i: int)
      requires old(Shape()) && -1 <= i < clusters.Length
      requires old(forall h | 0 <= h < clusters.Length :: RefValid(clusters[h], ClusterSize()))
      requires old(RefValid(summary, NClusters()))
      requires forall h | 0 <= h < clusters.Length && h != i :: clusters[h] == old(clusters[h])
      requires i != -1 ==> summary == old(summary)
      requires unchanged(old(Repr) - {clusters})
      ensures forall h | 0 <= h < clusters.Length && h != i ::
                RefRepr(clusters[h]) == old(RefRepr(clusters[h]))
                && RefValid(clusters[h], ClusterSize()) && RefKeys(clusters[h]) == old(RefKeys(clusters[h]))
      ensures i != -1 ==>
                RefRepr(summary) == old(RefRepr(summary))
                && RefValid(summary, NClusters()) && RefKeys(summary) == old(RefKeys(summary))
    {
      forall h | 0 <= h < clusters.Length && h != i
        ensures RefRepr(clusters[h]) == old(RefRepr(clusters[h]))
        ensures RefValid(clusters[h], ClusterSize()) && RefKeys(clusters[h]) == old(RefKeys(clusters[h]))
      {
        assert clusters[h] == old(clusters[h]);
      }
    }

    /** When child i grew only by objects from outside the node, every other
        child kept its objects, and `Repr` took in the new ones, the node
        keeps its shape. */
    twostate lemma Regrown(i: int, new extra: set<object>)
      requires old(Shape()) && -1 <= i < clusters.Length
      requires unchanged(clusters) && summary == old(summary)
      requires forall h | 0 <= h < clusters.Length && h != i :: RefRepr(clusters[h]) == old(RefRepr(clusters[h]))
      requires i != -1 ==> RefRepr(summary) == old(RefRepr(summary))
      requires RefRepr(Child(i)) <= old(RefRepr(Child(i))) + extra && extra !! old(Repr) && this !in extra
      requires Repr == old(Repr) + RefRepr(Child(i))
      ensures Shape()
    {
    }

    /** Cluster h, which held keys, took in offset l in place, growing only
        by objects from outside the node: the node now holds the key at
        cluster h, offset l, too. */
    twostate lemma ClusterGrown(h: int, new l: int, new rest: set<int>, new extra: set<object>)
      requires old(Loose(rest)) && old(Tight()) && 0 <= h < clusters.Length && 0 <= l < ClusterSize()
      requires !old(clusters[h]).Nil?
      requires unchanged(clusters) && summary == old(summary)
      requires unchanged(old(Repr) - old(RefRepr(clusters[h])))
      requires RefValid(clusters[h], ClusterSize()) && RefKeys(clusters[h]) == old(RefKeys(clusters[h])) + {l}
      requires RefRepr(clusters[h]) <= old(RefRepr(clusters[h])) + extra && extra !! old(Repr) && this !in extra
      requires Repr == old(Repr) + RefRepr(clusters[h])
      ensures Loose(rest + {At(h, l, ClusterSize())}) && Tight()
    {
      ClusterRegrown(h, l, rest, extra);
      LooseInsert(rest, h, l);
    }

    /** ... the node keeps its shape and stays tight, every other child and
        the summary are as they were, and h was already named. */
    twostate lemma ClusterRegrown(h: int, new l: int, new rest: set<int>, new extra: set<object>)
      requires old(Loose(rest)) && old(Tight()) && 0 <= h < clusters.Length && 0 <= l < ClusterSize()
      requires !old(clusters[h]).Nil?
      requires unchanged(clusters) && summary == old(summary)
      requires unchanged(old(Repr) - old(RefRepr(clusters[h])))
      requires RefValid(clusters[h], ClusterSize()) && RefKeys(clusters[h]) == old(RefKeys(clusters[h])) + {l}
      requires RefRepr(clusters[h]) <= old(RefRepr(clusters[h])) + extra && extra !! old(Repr) && this !in extra
      requires Repr == old(Repr) + RefRepr(clusters[h])
      ensures Tight()
      ensures forall h' | 0 <= h' < clusters.Length && h' != h ::
                RefValid(clusters[h'], ClusterSize()) && RefKeys(clusters[h']) == Slice(rest, h', ClusterSize())
      ensures RefKeys(clusters[h]) == Slice(rest, h, ClusterSize()) + {l}
      ensures RefValid(summary, NClusters()) && RefKeys(summary) == Occupied(rest, NClusters(), ClusterSize()) + {h}
    {
      KeptBut(h);
      Regrown(h, extra);
      assert h in Occupied(rest, NClusters(), ClusterSize());
    }

    /** The summary took in cluster number h in place, growing only by
        objects from outside the node: the clusters are as they were and the
        summary holds one more number. */
    twostate lemma SummaryGrown(h: int, new rest: set<int>, new extra: set<object>)
      requires old(Loose(rest)) && 0 <= h < clusters.Length && !old(summary).Nil?
      requires old(forall h' | 0 <= h' < clusters.Length && h' != h :: Filled(clusters[h']))
      requires unchanged(clusters) && summary == old(summary)
      requires unchanged(old(Repr) - old(RefRepr(summary)))
      requires RefValid(summary, NClusters()) && RefKeys(summary) == old(RefKeys(summary)) + {h}
      requires RefRepr(summary) <= old(RefRepr(summary)) + extra && extra !! old(Repr) && this !in extra
      requires Repr == old(Repr) + RefRepr(summary)
      ensures Summarised(h, rest)
    {
      KeptBut(-1);
      Regrown(-1, extra);
    }

    /** The first half of `insert`'s branch for an empty cluster h: allocate
        the summary if needed and insert h into it. */
    method InsertIntoSummary(h: int, ctx: KPools, ghost rest: set<int>)
      requires Loose(rest) && TightBut(h) && 0 <= h < clusters.Length
      requires ctx.Valid() && Detached(ctx) && u in ctx.kMap && ctx.Ready(NClusters())
      requires NClusters() in ctx.kPool && (summary.Nil? ==> |ctx.kPool[NClusters()]| > 0)
      modifies this`Repr, this`summary, Repr, ctx, ctx.Spare
      ensures Summarised(h, rest) && unchanged(clusters)
      ensures ctx.Spent(true)
      ensures Detached(ctx) && Repr <= old(Repr) + old(ctx.Spare)
      decreases u, 2
    {
      SplitFacts(ctx);
      SubSizesBelowChildren(u);
      ghost var s0, wasNil := ctx.State(), summary.Nil?;
      AllocateSummaryIfNeeded(ctx, rest);
      ghost var s1 := ctx.State();
      if wasNil {
        StockedElsewhere(s0.kPool, s1.kPool, NClusters(), SubSizes(NClusters()), 2);
      }
      GrowSummary(h, ctx, rest);
      FollowsThen(s0, s1, ctx.State(), wasNil, true);
    }

    /** `summary->insert(h)` on an allocated summary. */
    method GrowSummary(h: int, ctx: KPools, ghost rest: set<int>)
      requires Loose(rest) && 0 <= h < clusters.Length && !summary.Nil?
      requires forall h' | 0 <= h' < clusters.Length && h' != h :: Filled(clusters[h'])
      requires ctx.Valid() && Detached(ctx) && ctx.Ready(NClusters())
      modifies this`Repr, Repr, ctx, ctx.Spare
      ensures Summarised(h, rest) && unchanged(clusters)
      ensures ctx.Spent(true)
      ensures Detached(ctx) && Repr <= old(Repr) + old(ctx.Spare)
      decreases u, 1
    {
      ghost var extra := ctx.Spare;
      SummaryFacts(rest);
      InsertIntoAllocatedSummary(h, ctx);
      SummaryGrown(h, rest, extra);
    }

    /** `summary->insert(h)` itself: the summary gains h, and the objects it
        takes from the pools join the node's objects. */
    method InsertIntoAllocatedSummary(h: int, ctx: KPools)
      requires Shape() && !summary.Nil? && RefValid(summary, NClusters()) && RefSize(summary) == NClusters()
      requires 0 <= h < NClusters() && ctx.Valid() && Detached(ctx) && ctx.Ready(NClusters())
      modifies this`Repr, RefRepr(summary), ctx, ctx.Spare
      ensures unchanged(clusters) && summary == old(summary)
      ensures RefValid(summary, NClusters()) && RefKeys(summary) == old(RefKeys(summary)) + {h}
      ensures RefRepr(summary) <= old(RefRepr(summary)) + old(ctx.Spare)
      ensures Repr == old(Repr) + RefRepr(summary)
      ensures ctx.Spent(true) && Detached(ctx)
      decreases u, 0
    {
      DivideNodeShrinks(u);
      var _ := RefInsert(summary, h, ctx);
      label grown:
      Repr := Repr + RefRepr(summary);
      ctx.Unmoved@grown();
    }

    /** The branch of `insert` for an empty cluster h: allocate the summary
        if needed, insert h into it, and make l the cluster's only key. */
    method FillCluster(h: int, l: int, ctx: KPools, ghost rest: set<int>) returns (inserted: bool)
      requires Loose(rest) && TightBut(h) && 0 <= h < clusters.Length && 0 <= l < ClusterSize()
      requires !clusters[h].Nil? && Slice(rest, h, ClusterSize()) == {}
      requires ctx.Valid() && Detached(ctx) && u in ctx.kMap && ctx.Ready(NClusters())
      requires NClusters() in ctx.kPool && (summary.Nil? ==> |ctx.kPool[NClusters()]| > 0)
      modifies this`Repr, this`summary, Repr, ctx, ctx.Spare
      ensures Loose(rest + {At(h, l, ClusterSize())}) && Tight() && inserted
      ensures ctx.Spent(true)
      ensures Detached(ctx) && Repr <= old(Repr) + old(ctx.Spare)
      decreases u, 3
    {
      InsertIntoSummary(h, ctx, rest);
      FillEmptyCluster(h, l, rest);
      inserted := true;
    }

    /** `clusters[h]->insertToEmptyVEB(l)` once the summary names h. */
    method FillEmptyCluster(h: int, l: int, ghost rest: set<int>)
      requires Summarised(h, rest) && InUniverse(rest, u) && 0 <= l < ClusterSize()
      requires !clusters[h].Nil? && Slice(rest, h, ClusterSize()) == {}
      modifies RefHead(clusters[h])
      ensures Loose(rest + {At(h, l, ClusterSize())}) && Tight() && Repr == old(Repr)
    {
      var c := clusters[h];
      RefInsertToEmpty(c, l);
      KeptBut(h);
      Regrown(h, {});
      LooseInsert(rest, h, l);
    }

    /** The branch of `insert` for a cluster that already holds keys. */
    method InsertIntoCluster(h: int, l: int, ctx: KPools, ghost rest: set<int>) returns (inserted: bool)
      requires Loose(rest) && Tight() && 0 <= h < clusters.Length && 0 <= l < ClusterSize()
      requires !clusters[h].Nil?
      requires ctx.Valid() && Detached(ctx) && u in ctx.kMap && ctx.Ready(ClusterSize())
      modifies this`Repr, Repr, ctx, ctx.Spare
      ensures Loose(rest + {At(h, l, ClusterSize())}) && Tight()
      ensures inserted == (At(h, l, ClusterSize()) !in rest)
      ensures ctx.Spent(inserted)
      ensures Detached(ctx) && Repr <= old(Repr) + old(ctx.Spare)
      decreases u, 0
    {
      SplitFacts(ctx);
      ChildFacts(rest, h);
      var c := clusters[h];
      ghost var extra := ctx.Spare;
      inserted := RefInsert(c, l, ctx);
      ghost var grown := RefRepr(c);
      label grown:
      Repr := Repr + grown;
      ctx.Unmoved@grown();
      ClusterGrown(h, l, rest, extra);
    }

    /** `insertDriver`: `insert`, then, when a key was added, the refill of
        every pool it drew on up to `POINTERS_PER_POOL` nodes. The pools are
        as ready for the next insertion as they were for this one. */
    method InsertDriver(x: int, ctx: KPools) returns (retval: bool)
      requires Valid() && ctx.Valid() && Detached(ctx) && ctx.Ready(u) && 0 <= x < u
      modifies this, Repr, ctx, ctx.Spare
      ensures Valid() && Keys == old(Keys) + {x}
      ensures retval == (x !in old(Keys))
      ensures ctx.Valid() && Detached(ctx) && ctx.Ready(u)
      ensures ctx.kMap == old(ctx.kMap) && ctx.kToReclaim == old(ctx.kToReclaim)
      ensures retval ==> ctx.kToRefill == []
      ensures !retval ==> ctx.kPool == old(ctx.kPool) && ctx.kToRefill == old(ctx.kToRefill)
    {
      ghost var s0 := ctx.State();
      retval := Insert(x, ctx);
      if retval {
        ghost var s1 := ctx.State();
        label inserted:
        ctx.Refill();
        Untouched@inserted();
        StockedAfterRefill(s0.kPool, s1.kPool, ctx.kPool, s0.kToRefill, s1.kToRefill, SubSizes(u), 2);
      }
    }

    /** `delDriver`: `del`, then, when a key was removed, the reclamation of
        every node it emptied. The pools keep every node they had. */
    method DelDriver(x: int, ctx: KPools) returns (retval: bool)
      requires Valid() && ctx.Valid() && Detached(ctx) && ctx.Knows(u) && 0 <= x < u
      modifies this, Repr, ctx, ctx.Spare
      ensures Valid() && Keys == old(Keys) - {x}
      ensures retval == (x in old(Keys))
      ensures ctx.Valid() && Detached(ctx)
      ensures ctx.kMap == old(ctx.kMap) && ctx.kToRefill == old(ctx.kToRefill)
      ensures old(ctx.Ready(u)) ==> ctx.Ready(u)
      ensures retval ==> ctx.kToReclaim == []
      ensures !retval ==> ctx.kPool == old(ctx.kPool) && ctx.kToReclaim == old(ctx.kToReclaim)
    {
      ghost var s0 := ctx.State();
      retval := Del(x, ctx);
      if retval {
        ghost var s1 := ctx.State();
        label deleted:
        ctx.ReclaimAll();
        Untouched@deleted();
        if old(ctx.Ready(u)) {
          StockedAfterRecycle(s1.kPool, ctx.kPool, s1.kToReclaim, SubSizes(u), 2);
        }
      }
    }

    /** The tree is valid, and the same, while nothing of it changes. */
    twostate lemma Untouched()
      requires old(Valid()) && unchanged(this) && unchanged(old(Repr))
      ensures Valid() && Keys == old(Keys) && Repr == old(Repr)
    {
    }

    /** Every cluster is null or holds keys; the summary may be empty. */
    ghost predicate ClustersTight()
      reads this`summary, this`Repr, Repr
    {
      Shape() && forall h | 0 <= h < clusters.Length :: Filled(clusters[h])
    }

    /** `del`: true exactly when x was present; the key set loses x. */
    method Del(x: int, ctx: KPools) returns (erased: bool)
      requires Valid() && ctx.Valid() && Detached(ctx) && ctx.Knows(u) && 0 <= x < u
      modifies this, Repr, ctx
      ensures Valid() && Keys == old(Keys) - {x}
      ensures erased == (x in old(Keys))
      ensures ctx.Returned(erased)
      ensures Detached(ctx) && Repr <= old(Repr) && ctx.Spare <= old(ctx.Spare) + old(Repr)
      decreases u, 5
    {
      RangeKeys(Keys, min, max, x);
      if x > max || x < min {
        ReturnsNothing(ctx.State(), false);
        return false;
      }
      if min == max {
        // Here min <= x <= max, so x is the one key: the source's test
        // `min == x` cannot fail.
        label one:
        ClearLast();
        ctx.Unmoved@one();
        ReturnsNothing(ctx.State(), true);
        return true;
      }
      erased := DelSeveral(x, ctx);
    }

    /** `min = max = NONE`: the node's one key leaves, and its clusters and
        summary, all null or empty, stay as they are. */
    method ClearLast()
      requires Valid() && min != None && min == max
      modifies this`min, this`max, this`Keys
      ensures Valid() && Keys == {} && old(Keys) == {old(min)}
    {
      RangeKeys(Keys, min, max, min);
      ghost var rest := Keys - {min};
      label full:
      min := None;
      max := None;
      Keys := {};
      FieldsMoved@full(rest);
    }

    /** The rest of `del`, for a node with at least two keys. Deleting `min`
        promotes the least key of the clusters, which is then deleted from
        its cluster instead; `max` is recomputed if it was the key deleted. */
    method DelSeveral(x: int, ctx: KPools) returns (erased: bool)
      requires Valid() && ctx.Valid() && Detached(ctx) && ctx.Knows(u) && 0 <= x < u
      requires min != max && min <= x <= max
      modifies this, Repr, ctx
      ensures Valid() && Keys == old(Keys) - {x}
      ensures erased == (x in old(Keys))
      ensures ctx.Returned(erased)
      ensures Detached(ctx) && Repr <= old(Repr) && ctx.Spare <= old(ctx.Spare) + old(Repr)
      decreases u, 4
    {
      ghost var keys0, min0, rest := Keys, min, Keys - {min};
      var y := x;
      if x == min {
        y := LeastOfClusters(ctx);
      }
      // The cluster deletion reads neither `min` nor `Keys`, so both are
      // written once it is done.
      erased := DelBelow(y, ctx, rest);
      label below:
      SettleBounds(x, y, ctx);
      ctx.Unmoved@below();
    }

    /** The end of `del` for a node with at least two keys, once the key y
        that leaves the clusters (x itself, or the promoted one when x was
        `min`) has left them: `min` becomes y when x was `min`, and `max` is
        recomputed when it was y. */
    method SettleBounds(x: int, y: int, ctx: KPools)
      requires Loose(Keys - {min} - {y}) && Tight() && ctx.MapValid() && u in ctx.kMap
      requires InUniverse(Keys, u) && IsMinOf(min, Keys) && IsMaxOf(max, Keys)
      requires min != max && min <= x <= max
      requires x == min ==> IsMinOf(y, Keys - {min})
      requires x != min ==> y == x
      modifies this`min, this`max, this`Keys
      ensures Valid() && Keys == old(Keys) - {x}
    {
      ghost var keys0, min0, rest := Keys, min, Keys - {min} - {y};
      label start:
      if x == min {
        min := y;
      }
      Keys := Keys - {x};
      DelSeveralKeys(keys0, min0, max, x, y, min);
      if y == max {
        RecomputeMax(y, ctx, rest);
      }
      FieldsMoved@start(rest);
    }

    /** The least key other than `min`: `INDEX(summary->min,
        clusters[summary->min]->min)`, which becomes the new `min`. */
    method LeastOfClusters(ctx: KPools) returns (y: int)
      requires Valid() && ctx.MapValid() && u in ctx.kMap && min != max
      ensures IsMinOf(y, Keys - {min}) && 0 <= y < u
    {
      var ui := ctx.kMap[u];
      SplitFacts(ctx);
      ghost var rest := Keys - {min};
      assert max in rest;
      SummaryFacts(rest);
      RefMinMax(summary, NClusters());
      var firstCluster := RefMin(summary);
      ChildFacts(rest, firstCluster);
      RefMinMax(clusters[firstCluster], ClusterSize());
      var m := RefMin(clusters[firstCluster]);
      y := Index(firstCluster, m, ui);
      assert y == At(firstCluster, m, ClusterSize());
      MinOfClusters(rest, NClusters(), ClusterSize(), firstCluster, m);
    }

    /** The new `max` once the old one, y, has left the clusters: the
        maximum of y's own cluster if that still holds keys, else of the
        last cluster the summary names, else `min`. The source reads that
        last cluster through the leaf cast even when it is an internal node;
        the model reads its `max` whichever kind it is. */
    method RecomputeMax(y: int, ctx: KPools, ghost rest: set<int>)
      requires Loose(rest) && Tight() && ctx.MapValid() && u in ctx.kMap && 0 <= y < u
      requires 0 <= min && forall k | k in rest :: min < k < y
      modifies this`max
      ensures IsMaxOf(max, rest + {min})
    {
      var ui := ctx.kMap[u];
      KeyPlace(ctx, y);
      DivideNodeSplits(u);
      ghost var cs, nc := ClusterSize(), NClusters();
      var h := High(y, ui);
      if clusters[h].Nil? {
        SummaryFacts(rest);
        RefMinMax(summary, nc);
        var summaryMax := RefMax(summary);
        if summaryMax == None {
          OccupiedEmpty(rest, nc, cs);
          max := min;
        } else {
          ChildFacts(rest, summaryMax);
          RefMinMax(clusters[summaryMax], cs);
          var m := RefMax(clusters[summaryMax]);
          max := Index(summaryMax, m, ui);
          assert max == At(summaryMax, m, cs);
          MaxOfClusters(rest, nc, cs, summaryMax, m);
        }
      } else {
        ChildFacts(rest, h);
        RefMinMax(clusters[h], cs);
        var m := RefMax(clusters[h]);
        max := Index(h, m, ui);
        assert max == At(h, m, cs);
        LastCluster(rest, nc, cs, y);
        MaxOfClusters(rest, nc, cs, h, m);
      }
    }

    /** The part of `del` below `min`: y leaves cluster `HIGH(y)`; a cluster
        left empty is reclaimed and its number leaves the summary, and a
        summary left empty is reclaimed too. */
    method DelBelow(y: int, ctx: KPools, ghost rest: set<int>) returns (erased: bool)
      requires Loose(rest) && Tight() && 0 <= y < u
      requires ctx.Valid() && Detached(ctx) && ctx.Knows(u)
      modifies this`Repr, this`summary, clusters, Repr, ctx
      ensures Loose(rest - {y}) && Tight()
      ensures erased == (y in rest)
      ensures ctx.Returned(erased)
      ensures Detached(ctx) && Repr <= old(Repr) && ctx.Spare <= old(ctx.Spare) + old(Repr)
      decreases u, 3
    {
      var ui := ctx.kMap[u];
      KeyPlace(ctx, y);
      var h := High(y, ui);
      IndexOf(y, ClusterSize());
      SliceMember(rest, ClusterSize(), y);
      ChildFacts(rest, h);
      if clusters[h].Nil? {
        assert rest - {y} == rest;
        ReturnsNothing(ctx.State(), false);
        return false;
      }
      var l := Low(y, ui);
      ghost var s0 := ctx.State();
      erased := DelFromCluster(h, l, ctx, rest);
      if RefMin(clusters[h]) == None {
        ghost var s1, repr1 := ctx.State(), Repr;
        EmptyCluster(h, ctx, rest - {y});
        ReturnsThen(s0, s1, ctx.State(), erased, true);
        assert Repr <= repr1;
      }
    }

    /** `clusters[h]->del(l)` on an allocated cluster. If the cluster is left
        empty, the summary still names it. */
    method DelFromCluster(h: int, l: int, ctx: KPools, ghost rest: set<int>) returns (erased: bool)
      requires Loose(rest) && Tight() && 0 <= h < clusters.Length && 0 <= l < ClusterSize()
      requires !clusters[h].Nil?
      requires ctx.Valid() && Detached(ctx) && ctx.Knows(u)
      modifies this`Repr, Repr, ctx
      ensures erased == (At(h, l, ClusterSize()) in rest)
      ensures ctx.Returned(erased)
      ensures Detached(ctx) && Repr <= old(Repr) && ctx.Spare <= old(ctx.Spare) + old(Repr)
      ensures unchanged(clusters) && summary == old(summary)
      ensures RefMin(clusters[h]) != None ==> Loose(rest - {At(h, l, ClusterSize())}) && Tight()
      ensures RefMin(clusters[h]) == None ==>
                erased && RefKeys(clusters[h]) == {} && Summarised(h, rest - {At(h, l, ClusterSize())})
      decreases u, 1
    {
      ChildFacts(rest, h);
      ghost var spare0 := ctx.Spare;
      erased := ShrinkCluster(h, l, ctx);
      RefMinMax(clusters[h], ClusterSize());
      IndexSplit(h, l, ClusterSize());
      SliceMember(rest, ClusterSize(), At(h, l, ClusterSize()));
      ClusterShrunk(h, l, rest, ctx.Spare, spare0);
    }

    /** `clusters[h]->del(l)` itself: the cluster loses l, and the objects
        it gives up, now spare, leave the node's objects. */
    method ShrinkCluster(h: int, l: int, ctx: KPools) returns (erased: bool)
      requires Shape() && 0 <= h < clusters.Length && 0 <= l < ClusterSize()
      requires !clusters[h].Nil? && RefValid(clusters[h], ClusterSize()) && RefSize(clusters[h]) == ClusterSize()
      requires ctx.Valid() && Detached(ctx) && ctx.Knows(u)
      modifies this`Repr, RefRepr(clusters[h]), ctx
      ensures erased == (l in old(RefKeys(clusters[h])))
      ensures ctx.Returned(erased) && Detached(ctx)
      ensures ctx.Spare <= old(ctx.Spare) + old(RefRepr(clusters[h]))
      ensures unchanged(clusters) && summary == old(summary)
      ensures RefValid(clusters[h], ClusterSize()) && RefKeys(clusters[h]) == old(RefKeys(clusters[h])) - {l}
      ensures RefRepr(clusters[h]) <= old(RefRepr(clusters[h])) && RefRepr(clusters[h]) !! ctx.Spare
      ensures Repr == old(Repr) - ctx.Spare
      decreases u, 0
    {
      SplitFacts(ctx);
      ctx.KnowsChildren(u);
      var c := clusters[h];
      erased := RefDel(c, l, ctx);
      label shrunk:
      Repr := Repr - ctx.Spare;
      ctx.Unmoved@shrunk();
    }

    /** The branch of `del` for a cluster left empty: reclaim it, delete its
        number from the summary, and reclaim the summary if that empties. */
    method EmptyCluster(h: int, ctx: KPools, ghost rest: set<int>)
      requires Summarised(h, rest) && InUniverse(rest, u) && !clusters[h].Nil? && RefKeys(clusters[h]) == {}
      requires ctx.Valid() && Detached(ctx) && ctx.Knows(u)
      modifies this`Repr, this`summary, clusters, Repr, ctx
      ensures Loose(rest) && Tight()
      ensures ctx.Returned(true)
      ensures Detached(ctx) && Repr <= old(Repr) && ctx.Spare <= old(ctx.Spare) + old(Repr)
      decreases u, 2
    {
      ghost var s0 := ctx.State();
      ReclaimCluster(h, ctx, rest);
      ghost var s1, repr1, spare1 := ctx.State(), Repr, ctx.Spare;
      assert repr1 <= old(Repr) && spare1 <= old(ctx.Spare) + old(Repr);
      ShrinkSummary(h, ctx, rest);
      ghost var s2, repr2, spare2 := ctx.State(), Repr, ctx.Spare;
      assert repr2 <= repr1 && spare2 <= spare1 + repr1;
      ReclaimSummaryIfEmpty(ctx, rest);
      ReturnsThen(s0, s1, s2, true, true);
      ReturnsThen(s0, s2, ctx.State(), true, true);
    }

    /** `kToReclaim.push_back(clusters[h])` and `clusters[h] = nullptr` for
        an empty cluster h. */
    method ReclaimCluster(h: int, ctx: KPools, ghost rest: set<int>)
      requires Summarised(h, rest) && !clusters[h].Nil? && RefKeys(clusters[h]) == {}
      requires ctx.Valid() && Detached(ctx)
      modifies this`Repr, clusters, ctx
      ensures Summarised(h, rest) && clusters[h].Nil? && summary == old(summary)
      ensures ctx.kToReclaim == old(ctx.kToReclaim) + [old(clusters[h])]
      ensures ctx.Returned(true)
      ensures Detached(ctx) && Repr <= old(Repr) && ctx.Spare <= old(ctx.Spare) + old(Repr)
    {
      var c := clusters[h];
      DetachCluster(h, rest);
      ctx.Reclaim(c);
    }

    /** `clusters[h] = nullptr` for an empty cluster h, whose objects leave
        the tree's. */
    method DetachCluster(h: int, ghost rest: set<int>)
      requires Summarised(h, rest) && !clusters[h].Nil? && RefKeys(clusters[h]) == {}
      modifies this`Repr, clusters
      ensures Summarised(h, rest) && clusters[h].Nil? && summary == old(summary)
      ensures Repr == old(Repr) - old(RefRepr(clusters[h]))
      ensures EmptyNode(old(clusters[h]), RefSize(old(clusters[h]))) && this !in old(RefRepr(clusters[h]))
    {
      var c := clusters[h];
      clusters[h] := Nil;
      Repr := Repr - RefRepr(c);
      Cleared(h, rest);
    }

    /** Cluster h, empty, was set to null and its objects left `Repr`:
        the node is as summarised as before. */
    twostate lemma Cleared(h: int, new rest: set<int>)
      requires old(Summarised(h, rest)) && !old(clusters[h]).Nil? && old(RefKeys(clusters[h])) == {}
      requires clusters[h].Nil? && summary == old(summary)
      requires forall h' | 0 <= h' < clusters.Length && h' != h :: clusters[h'] == old(clusters[h'])
      requires unchanged(old(Repr) - {clusters})
      requires Repr == old(Repr) - old(RefRepr(clusters[h]))
      ensures Summarised(h, rest)
    {
      KeptOthers(h);
      ClearedShape(h);
    }

    /** ... and it keeps its shape. */
    twostate lemma ClearedShape(h: int)
      requires old(Shape()) && 0 <= h < clusters.Length && clusters[h].Nil? && summary == old(summary)
      requires forall h' | 0 <= h' < clusters.Length && h' != h :: clusters[h'] == old(clusters[h'])
      requires forall h' | 0 <= h' < clusters.Length && h' != h :: RefRepr(clusters[h']) == old(RefRepr(clusters[h']))
      requires RefRepr(summary) == old(RefRepr(summary))
      requires unchanged(old(Repr) - {clusters})
      requires Repr == old(Repr) - old(RefRepr(clusters[h]))
      ensures Shape()
    {
    }

    /** `summary->del(h)` once cluster h is gone. */
    method ShrinkSummary(h: int, ctx: KPools, ghost rest: set<int>)
      requires Summarised(h, rest) && InUniverse(rest, u) && clusters[h].Nil?
      requires ctx.Valid() && Detached(ctx) && ctx.Knows(u)
      modifies this`Repr, Repr, ctx
      ensures Loose(rest) && ClustersTight() && !summary.Nil?
      ensures ctx.Returned(true)
      ensures Detached(ctx) && Repr <= old(Repr) && ctx.Spare <= old(ctx.Spare) + old(Repr)
      decreases u, 1
    {
      DivideNodeShrinks(u);
      ctx.KnowsChildren(u);
      var s := summary;
      var _ := RefDel(s, h, ctx);
      label shrunk:
      Repr := Repr - ctx.Spare;
      ctx.Unmoved@shrunk();
      SummaryShrunk(h, rest, ctx.Spare);
    }

    /** `kToReclaim.push_back(summary)` and `summary = nullptr` when the
        summary holds no key. */
    method ReclaimSummaryIfEmpty(ctx: KPools, ghost rest: set<int>)
      requires Loose(rest) && ClustersTight() && !summary.Nil?
      requires ctx.Valid() && Detached(ctx)
      modifies this`Repr, this`summary, ctx
      ensures Loose(rest) && Tight()
      ensures ctx.Returned(true)
      ensures Detached(ctx) && Repr <= old(Repr) && ctx.Spare <= old(ctx.Spare) + old(Repr)
    {
      RefMinMax(summary, NClusters());
      if RefMin(summary) == None {
        var s := summary;
        DetachSummary(rest);
        ctx.Reclaim(s);
      } else {
        ReturnsNothing(ctx.State(), true);
      }
    }

    /** `summary = nullptr` for an empty summary, whose objects leave the
        tree's. */
    method DetachSummary(ghost rest: set<int>)
      requires Loose(rest) && ClustersTight() && !summary.Nil? && RefKeys(summary) == {}
      modifies this`Repr, this`summary
      ensures Loose(rest) && Tight() && summary.Nil?
      ensures Repr == old(Repr) - old(RefRepr(summary))
      ensures EmptyNode(old(summary), RefSize(old(summary))) && this !in old(RefRepr(summary))
    {
      var s := summary;
      summary := Nil;
      Repr := Repr - RefRepr(s);
      SummaryCleared(rest);
    }

    /** The summary, empty, was set to null and its objects left `Repr`:
        the node still holds `rest`, and now every child is filled. */
    twostate lemma SummaryCleared(new rest: set<int>)
      requires old(Loose(rest)) && old(ClustersTight()) && !old(summary).Nil? && old(RefKeys(summary)) == {}
      requires summary.Nil? && unchanged(clusters)
      requires unchanged(old(Repr) - {clusters})
      requires Repr == old(Repr) - old(RefRepr(summary))
      ensures Loose(rest) && Tight()
    {
      KeptOthers(-1);
    }

    /** Removing the key at cluster h, offset l, from `rest`: cluster h loses
        l, and the summary loses h if that leaves the cluster empty. */
    lemma LooseDelete(rest: set<int>, h: int, l: int)
      requires Shape() && InUniverse(rest, u) && 0 <= h < clusters.Length && 0 <= l < ClusterSize()
      requires forall h' | 0 <= h' < clusters.Length :: RefValid(clusters[h'], ClusterSize())
      requires forall h' | 0 <= h' < clusters.Length && h' != h :: RefKeys(clusters[h']) == Slice(rest, h', ClusterSize())
      requires RefKeys(clusters[h]) == Slice(rest, h, ClusterSize()) - {l}
      requires h in Occupied(rest, NClusters(), ClusterSize())
      requires RefValid(summary, NClusters()) && RefKeys(summary) == Occupied(rest, NClusters(), ClusterSize())
      ensures forall h' | 0 <= h' < clusters.Length ::
                RefKeys(clusters[h']) == Slice(rest - {At(h, l, ClusterSize())}, h', ClusterSize())
      ensures RefKeys(clusters[h]) != {} ==> Loose(rest - {At(h, l, ClusterSize())})
      ensures RefKeys(clusters[h]) == {} ==>
                RefKeys(summary) == Occupied(rest - {At(h, l, ClusterSize())}, NClusters(), ClusterSize()) + {h}
    {
      DivideNodeSplits(u);
      PlaceDelete(rest, NClusters(), ClusterSize(), h, l);
    }

    /** When child i lost only the objects `gone`, every other child kept its
        objects, and `Repr` lost them too, the node keeps its shape. */
    twostate lemma Shrunk(i: int, new gone: set<object>)
      requires old(Shape()) && -1 <= i < clusters.Length
      requires unchanged(clusters) && summary == old(summary)
      requires forall h | 0 <= h < clusters.Length && h != i :: RefRepr(clusters[h]) == old(RefRepr(clusters[h]))
      requires i != -1 ==> RefRepr(summary) == old(RefRepr(summary))
      requires RefRepr(Child(i)) <= old(RefRepr(Child(i))) && RefRepr(Child(i)) !! gone
      requires old(Repr) * gone <= old(RefRepr(Child(i)))
      requires Repr == old(Repr) - gone
      ensures Shape()
    {
    }

    /** Cluster h, which held keys, lost offset l in place, giving up only
        objects that are now spare: the node lost the key at cluster h,
        offset l, and still names h in its summary if the cluster is empty. */
    twostate lemma ClusterShrunk(h: int, new l: int, new rest: set<int>, new gone: set<object>, new spare0: set<object>)
      requires old(Loose(rest)) && old(Tight()) && 0 <= h < clusters.Length && 0 <= l < ClusterSize()
      requires !old(clusters[h]).Nil?
      requires unchanged(clusters) && summary == old(summary)
      requires unchanged(old(Repr) - old(RefRepr(clusters[h])))
      requires RefValid(clusters[h], ClusterSize()) && RefKeys(clusters[h]) == old(RefKeys(clusters[h])) - {l}
      requires RefRepr(clusters[h]) <= old(RefRepr(clusters[h])) && RefRepr(clusters[h]) !! gone
      requires old(Repr) !! spare0 && gone <= spare0 + old(RefRepr(clusters[h]))
      requires Repr == old(Repr) - gone
      ensures RefKeys(clusters[h]) != {} ==> Loose(rest - {At(h, l, ClusterSize())}) && Tight()
      ensures RefKeys(clusters[h]) == {} ==> Summarised(h, rest - {At(h, l, ClusterSize())})
    {
      ClusterReshrunk(h, l, rest, gone, spare0);
      LooseDelete(rest, h, l);
    }

    /** ... the node keeps its shape, every other child and the summary are
        as they were, and h was named in the summary. */
    twostate lemma ClusterReshrunk(h: int, new l: int, new rest: set<int>, new gone: set<object>, new spare0: set<object>)
      requires old(Loose(rest)) && old(Tight()) && 0 <= h < clusters.Length && 0 <= l < ClusterSize()
      requires !old(clusters[h]).Nil?
      requires unchanged(clusters) && summary == old(summary)
      requires unchanged(old(Repr) - old(RefRepr(clusters[h])))
      requires RefValid(clusters[h], ClusterSize()) && RefKeys(clusters[h]) == old(RefKeys(clusters[h])) - {l}
      requires RefRepr(clusters[h]) <= old(RefRepr(clusters[h])) && RefRepr(clusters[h]) !! gone
      requires old(Repr) !! spare0 && gone <= spare0 + old(RefRepr(clusters[h]))
      requires Repr == old(Repr) - gone
      ensures Shape() && InUniverse(rest, u) && TightBut(h)
      ensures forall h' | 0 <= h' < clusters.Length :: RefValid(clusters[h'], ClusterSize())
      ensures forall h' | 0 <= h' < clusters.Length && h' != h :: RefKeys(clusters[h']) == Slice(rest, h', ClusterSize())
      ensures RefKeys(clusters[h]) == Slice(rest, h, ClusterSize()) - {l}
      ensures h in Occupied(rest, NClusters(), ClusterSize())
      ensures RefValid(summary, NClusters()) && RefKeys(summary) == Occupied(rest, NClusters(), ClusterSize())
    {
      KeptBut(h);
      Shrunk(h, gone);
      assert h in Occupied(rest, NClusters(), ClusterSize());
    }

    /** The summary lost cluster number h, whose cluster is gone, giving up
        only objects that are now spare: the node holds `rest` again, with
        a summary that may be empty. */
    twostate lemma SummaryShrunk(h: int, new rest: set<int>, new gone: set<object>)
      requires old(Summarised(h, rest)) && old(clusters[h]).Nil? && !old(summary).Nil?
      requires InUniverse(rest, u)
      requires unchanged(clusters) && summary == old(summary)
      requires unchanged(old(Repr) - old(RefRepr(summary)))
      requires RefValid(summary, NClusters()) && RefKeys(summary) == old(RefKeys(summary)) - {h}
      requires RefRepr(summary) <= old(RefRepr(summary)) && RefRepr(summary) !! gone
      requires old(Repr) * gone <= old(RefRepr(summary))
      requires Repr == old(Repr) - gone
      ensures Loose(rest) && ClustersTight()
    {
      KeptBut(-1);
      Shrunk(-1, gone);
      assert h !in Occupied(rest, NClusters(), ClusterSize());
    }
  }

  /** `member` on a child, whichever kind it is. */
  method RefMember(r: KRef, x: int, ctx: KPools) returns (b: bool)
    requires RefValid(r, RefSize(r)) && !r.Nil? && 0 <= x < RefSize(r)
    requires ctx.MapValid() && ctx.Knows(RefSize(r))
    ensures b == (x in RefKeys(r))
    decreases RefSize(r), 2
  {
    match r
    case Leaf(l) =>
      b := l.Member(x);
    case Node(n) =>
      b := n.Member(x, ctx);
  }

  /** `successor` on a child, whichever kind it is. */
  method RefSuccessor(r: KRef, x: int, ctx: KPools) returns (s: int)
    requires RefValid(r, RefSize(r)) && !r.Nil? && 0 <= x < RefSize(r)
    requires ctx.MapValid() && ctx.Knows(RefSize(r))
    ensures IsSuccessor(s, RefKeys(r), x)
    decreases RefSize(r), 2
  {
    match r
    case Leaf(l) =>
      s := l.Successor(x);
    case Node(n) =>
      s := n.Successor(x, ctx);
  }

  /** `predecessor` on a child, whichever kind it is. */
  method RefPredecessor(r: KRef, x: int, ctx: KPools) returns (p: int)
    requires RefValid(r, RefSize(r)) && !r.Nil? && 0 <= x < RefSize(r)
    requires ctx.MapValid() && ctx.Knows(RefSize(r))
    ensures IsPredecessor(p, RefKeys(r), x)
    decreases RefSize(r), 2
  {
    match r
    case Leaf(l) =>
      p := l.Predecessor(x);
    case Node(n) =>
      p := n.Predecessor(x, ctx);
  }

  /** `insert` on a child, whichever kind it is. */
  method RefInsert(r: KRef, x: int, ctx: KPools) returns (inserted: bool)
    requires RefValid(r, RefSize(r)) && !r.Nil? && 0 <= x < RefSize(r)
    requires ctx.Valid() && ctx.Ready(RefSize(r)) && ctx !in RefRepr(r) && RefRepr(r) !! ctx.Spare
    modifies RefRepr(r), ctx, ctx.Spare
    ensures RefValid(r, RefSize(r)) && RefKeys(r) == old(RefKeys(r)) + {x}
    ensures inserted == (x !in old(RefKeys(r)))
    ensures ctx.Spent(inserted)
    ensures ctx !in RefRepr(r) && RefRepr(r) !! ctx.Spare && RefRepr(r) <= old(RefRepr(r)) + old(ctx.Spare)
    decreases RefSize(r), 8
  {
    match r
    case Leaf(l) =>
      inserted := l.Insert(x);
      FollowsNothing(ctx.State(), inserted);
    case Node(n) =>
      inserted := n.Insert(x, ctx);
  }

  /** `del` on a child, whichever kind it is. */
  method RefDel(r: KRef, x: int, ctx: KPools) returns (erased: bool)
    requires RefValid(r, RefSize(r)) && !r.Nil? && 0 <= x < RefSize(r)
    requires ctx.Valid() && ctx.Knows(RefSize(r)) && ctx !in RefRepr(r) && RefRepr(r) !! ctx.Spare
    modifies RefRepr(r), ctx
    ensures RefValid(r, RefSize(r)) && RefKeys(r) == old(RefKeys(r)) - {x}
    ensures erased == (x in old(RefKeys(r)))
    ensures ctx.Returned(erased)
    ensures ctx !in RefRepr(r) && RefRepr(r) !! ctx.Spare && RefRepr(r) <= old(RefRepr(r))
    ensures ctx.Spare <= old(ctx.Spare) + old(RefRepr(r))
    decreases RefSize(r), 8
  {
    match r
    case Leaf(l) =>
      erased := l.Del(x);
      ReturnsNothing(ctx.State(), erased);
    case Node(n) =>
      erased := n.Del(x, ctx);
  }

  /** `makeMeReusable` on a pooled node, whichever kind it is. */
  method RefMakeMeReusable(r: KRef)
    requires EmptyNode(r, RefSize(r))
    modifies RefHead(r)
    ensures EmptyNode(r, RefSize(r)) && RefRepr(r) == old(RefRepr(r))
    ensures RefMin(r) == None && RefMax(r) == None && unchanged(RefHead(r))
  {
    match r
    case Leaf(l) =>
      l.MakeMeReusable();
    case Node(n) =>
      n.MakeMeReusable();
  }

  /** `insertToEmptyVEB` on a child, whichever kind it is. */
  method RefInsertToEmpty(r: KRef, x: int)
    requires RefValid(r, RefSize(r)) && !r.Nil? && RefKeys(r) == {} && 0 <= x < RefSize(r)
    modifies RefHead(r)
    ensures RefValid(r, RefSize(r)) && RefKeys(r) == {x}
    ensures RefRepr(r) == old(RefRepr(r))
  {
    match r
    case Leaf(l) =>
      l.InsertToEmpty(x);
    case Node(n) =>
      n.InsertToEmpty(x);
  }

  /** What `PTR_TO_KLEAF(clusters[summaryMax])->max` reads off a cluster:
      the word where a leaf keeps `max`. A leaf gives its `max`; an internal
      node keeps its `summary` pointer there, null (0) while it has no
      summary and otherwise the address `addr` of that summary. */
  function LeafMaxWord(r: KRef, addr: int): (w: int)
    reads RefHead(r)
    ensures r.Leaf? ==> w == r.leaf.max
  {
    match r
    case Nil => 0
    case Leaf(l) => l.max
    case Node(n) => if n.summary.Nil? then 0 else addr
  }

  /** An internal node holding a single key has no summary, so the leaf cast
      reads offset 0 off it: an offset of one of its keys only when that key
      is 0, whereas its `max` is always its key. `del` puts that word after
      `summaryMax` as the parent's new `max`. */
  lemma LeafMaxWordOfLoneNode(n: KInternal, addr: int)
    requires n.Valid() && n.min == n.max && n.min != None
    ensures n.Keys == {n.max}
    ensures LeafMaxWord(Node(n), addr) == 0
    ensures LeafMaxWord(Node(n), addr) in n.Keys <==> n.max == 0
  {
    DivideNodeSplits(n.u);
    var rest := n.Keys - {n.min};
    assert rest == {};
    OccupiedEmpty(rest, n.NClusters(), n.ClusterSize());
  }
}
