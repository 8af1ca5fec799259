/**
 * `HTMvEBTree`: the eager van Emde Boas tree. Every node above universe 2
 * has its summary and all its clusters built when it is built, so no node
 * is ever allocated or freed afterwards; a node of universe 2 keeps its
 * keys in `min` and `max` alone. Like the cut-off tree, `min` is kept out
 * of the clusters and `max` is not.
 */
module NaiveVeb {
  import opened VebGlobal
  import opened VebSpec
  import opened VebLayout

  /** The tree's `CUTOFF`: nodes of universe 2 have no children. */
  const NaiveCutoff: int := 2

  /** Above universe 2 the default split is proper and neither half falls
      below 2. */
  lemma NaiveSplit(u: int)
    requires IsPow2(u) && u > NaiveCutoff
    ensures SplitOf(DivideNode(u), u)
    ensures IsPow2(DivideNode(u).clusterSize) && IsPow2(DivideNode(u).nClusters)
    ensures 2 <= DivideNode(u).clusterSize <= DivideNode(u).nClusters < u
  {
    var ui := DivideNode(u);
    var p := Log2(u);
    DivideNodeSplits(u);
    DivideNodeSplitOf(u);
    if p < 2 {
      Pow2Le(p, 1);
    }
    Pow2Le(1, ui.lowBits);
    Pow2Monotone(ui.highBits, p);
    Pow2Le(ui.lowBits, ui.highBits);
  }

  /** The universes of a node and of every node below it: the ones
      `populate_maps` records. */
  ghost function NaiveSizes(u: int): set<int>
    requires IsPow2(u)
    decreases u
  {
    if u <= NaiveCutoff then {u}
    else
      NaiveSplit(u);
      {u} + NaiveSizes(DivideNode(u).nClusters) + NaiveSizes(DivideNode(u).clusterSize)
  }

  /** Above the cutoff, the sizes below u are u's own and those below its
      two halves, each of which is smaller. */
  lemma NaiveSizesSplit(u: int)
    requires IsPow2(u) && u > NaiveCutoff
    ensures IsPow2(DivideNode(u).nClusters) && DivideNode(u).nClusters < u
    ensures IsPow2(DivideNode(u).clusterSize) && DivideNode(u).clusterSize < u
    ensures NaiveSizes(u) == {u} + NaiveSizes(DivideNode(u).nClusters) + NaiveSizes(DivideNode(u).clusterSize)
  {
    NaiveSplit(u);
  }

  /** `kMap` records `divide_node` of each universe it holds. */
  ghost predicate MapValid(kMap: map<int, UniverseInfo>)
  {
    forall s | s in kMap :: IsPow2(s) && kMap[s] == DivideNode(s)
  }

  /** `kMap` has the split of u and of every universe below it. */
  ghost predicate Knows(kMap: map<int, UniverseInfo>, u: int)
  {
    MapValid(kMap) && IsPow2(u) && NaiveSizes(u) <= kMap.Keys
  }

  lemma MapValidAdd(kMap: map<int, UniverseInfo>, u: int)
    requires MapValid(kMap) && IsPow2(u)
    ensures MapValid(kMap[u := DivideNode(u)])
  {
  }

  lemma KeyAdded(m: map<int, UniverseInfo>, u: int, v: UniverseInfo)
    ensures m[u := v].Keys == m.Keys + {u}
    ensures u in m && v == m[u] ==> m == m[u := v]
  {}

  /** Set algebra behind `populate_maps`: the keys the two recursive calls
      add are the sizes below u's two halves. */
  lemma SizesCollected(o: set<int>, u: int, k0: set<int>, k1: set<int>, k2: set<int>)
    requires IsPow2(u) && k0 == o + {u}
    requires u <= NaiveCutoff ==> k2 == k0
    requires u > NaiveCutoff ==> DivideNode(u).nClusters < u && DivideNode(u).clusterSize < u
    requires u > NaiveCutoff ==> IsPow2(DivideNode(u).nClusters) && IsPow2(DivideNode(u).clusterSize)
    requires u > NaiveCutoff ==> k1 == k0 + NaiveSizes(DivideNode(u).nClusters)
    requires u > NaiveCutoff ==> k2 == k1 + NaiveSizes(DivideNode(u).clusterSize)
    ensures k2 == o + NaiveSizes(u)
  {
  }

  /** What `kMap` knows of a node it knows of the node's children. */
  lemma KnowsChildren(kMap: map<int, UniverseInfo>, u: int)
    requires Knows(kMap, u) && u > NaiveCutoff
    ensures u in kMap && kMap[u] == DivideNode(u) && SplitOf(kMap[u], u)
    ensures Knows(kMap, DivideNode(u).clusterSize) && Knows(kMap, DivideNode(u).nClusters)
  {
    NaiveSplit(u);
  }

  /** A node and everything it owns. */
  ghost function Own(n: NaiveNode?): set<object>
  {
    if n == null then {} else {n} + n.Repr
  }

  /** The nodes of s own pairwise disjoint sets of objects. */
  ghost predicate Disjoint(s: seq<NaiveNode>)
  {
    forall j, j' | 0 <= j < j' < |s| :: Own(s[j]) !! Own(s[j'])
  }

  /** A node disjoint from everything s owns keeps s + [c] disjoint. */
  lemma DisjointAppend(s: seq<NaiveNode>, c: NaiveNode, repr: set<object>)
    requires Disjoint(s) && Own(c) !! repr
    requires forall j | 0 <= j < |s| :: Own(s[j]) <= repr
    ensures Disjoint(s + [c])
  {
    var t := s + [c];
    forall j, j' | 0 <= j < j' < |t|
      ensures Own(t[j]) !! Own(t[j'])
    {
      if j' == |s| {
        assert Own(t[j]) <= repr;
      } else {
        assert t[j] == s[j] && t[j'] == s[j'];
      }
    }
  }

  class NaiveNode {
    const u: int
    const clusters: array?<NaiveNode?>
    const summary: NaiveNode?
    var min: int
    var max: int
    ghost var Keys: set<int>
    /** Every object below the node; fixed once the node is built. */
    ghost const Repr: set<object>
    /** The nodes among them, which insertion and deletion may change. */
    ghost const Nodes: set<NaiveNode>

    ghost function ClusterSize(): int
      requires IsPow2(u)
    {
      DivideNode(u).clusterSize
    }

    ghost function NClusters(): int
      requires IsPow2(u)
    {
      DivideNode(u).nClusters
    }

    /** A node of universe 2: no summary and no clusters. */
    ghost predicate Base()
    {
      this !in Repr && Nodes <= Repr && clusters == null && summary == null
    }

    /** The shape of a node above universe 2: a summary of universe
        `nClusters` and `nClusters` clusters of universe `clusterSize`,
        owned, disjoint, and none of them owning the node or its array. */
    ghost predicate Shape()
      reads Repr
    {
      this !in Repr && Nodes <= Repr && IsPow2(u) && u > NaiveCutoff
      && clusters != null && summary != null
      && clusters in Repr && clusters.Length == NClusters()
      && summary in Nodes && summary.Nodes <= Nodes && summary.Repr <= Repr
      && this !in summary.Repr && clusters !in summary.Repr && summary.u == NClusters()
      && (forall h | 0 <= h < clusters.Length ::
            clusters[h] != null && clusters[h] in Nodes && clusters[h].Nodes <= Nodes
            && clusters[h].Repr <= Repr && this !in clusters[h].Repr && clusters !in clusters[h].Repr
            && clusters[h].u == ClusterSize())
      && (forall h, h' | 0 <= h < h' < clusters.Length :: Own(clusters[h]) !! Own(clusters[h']))
      && (forall h | 0 <= h < clusters.Length :: Own(clusters[h]) !! Own(summary))
    }

    ghost predicate ChildrenValid()
      reads Repr
      decreases Repr, 0
    {
      Shape() && summary.Valid() && forall h | 0 <= h < clusters.Length :: clusters[h].Valid()
    }

    /** The clusters hold `rest`, cluster h the offsets of the keys in h,
        and the summary holds sk. */
    ghost predicate Holds(rest: set<int>, sk: set<int>)
      reads Repr
      decreases Repr, 1
    {
      Shape() && ChildrenValid() && InUniverse(rest, u)
      && (forall h | 0 <= h < clusters.Length :: clusters[h].Keys == Slice(rest, h, ClusterSize()))
      && summary.Keys == sk
    }

    /** The clusters hold `rest` and the summary the numbers of the
        occupied clusters. */
    ghost predicate Loose(rest: set<int>)
      reads Repr
      decreases Repr, 2
    {
      Shape() && Holds(rest, Occupied(rest, NClusters(), ClusterSize()))
    }

    ghost predicate Valid()
      reads this, Repr
      decreases Repr, 3
    {
      InUniverse(Keys, u) && IsMinOf(min, Keys) && IsMaxOf(max, Keys)
      && if u == NaiveCutoff then Base() else Loose(Keys - {min})
    }

    /** What `Holds` says of the children, spelled out. */
    lemma HoldsFacts(rest: set<int>, sk: set<int>)
      requires Holds(rest, sk)
      ensures Shape() && InUniverse(rest, u)
      ensures summary.Valid() && summary.Keys == sk
      ensures forall h | 0 <= h < clusters.Length ::
                clusters[h].Valid() && clusters[h].Keys == Slice(rest, h, ClusterSize())
    {
    }

    /** What `Loose` says of the children, spelled out. */
    lemma LooseFacts(rest: set<int>)
      requires Loose(rest)
      ensures Holds(rest, Occupied(rest, NClusters(), ClusterSize()))
      ensures Shape() && InUniverse(rest, u)
      ensures summary.Valid() && summary.Keys == Occupied(rest, NClusters(), ClusterSize())
      ensures forall h | 0 <= h < clusters.Length ::
                clusters[h].Valid() && clusters[h].Keys == Slice(rest, h, ClusterSize())
    {
      HoldsFacts(rest, Occupied(rest, NClusters(), ClusterSize()));
    }

    /** A node of universe 2 holds exactly `min` and `max`. */
    lemma BaseKeys()
      requires Valid() && u == NaiveCutoff
      ensures Keys == if min == None then {} else {min, max}
    {
      if min != None {
        forall k | k in Keys
          ensures k == min || k == max
        {
        }
      }
    }

    /** A new, empty node of universe u, with its summary and every cluster
        built recursively. The split is `kMap[u]` when the map has it and
        `divide_node(u)` otherwise, which is the same record. */
    constructor (u: int, kMap: map<int, UniverseInfo>)
      requires IsPow2(u) && u >= NaiveCutoff && MapValid(kMap)
      ensures Valid() && Keys == {} && this.u == u && fresh(Repr)
      decreases u, 1
    {
      this.u := u;
      min := None;
      max := None;
      Keys := {};
      if u == NaiveCutoff {
        clusters := null;
        summary := null;
        Repr := {};
        Nodes := {};
      } else {
        var ui := if u in kMap then kMap[u] else DivideNode(u);
        NaiveSplit(u);
        var s := new NaiveNode(ui.nClusters, kMap);
        var cs, repr, nodes := NewClusters(u, ui.nClusters, ui.clusterSize, kMap);
        assert fresh({cs} + Own(s) + repr);
        clusters := cs;
        summary := s;
        Repr := {cs} + Own(s) + repr;
        Nodes := {s} + s.Nodes + nodes;
      }
      new;
      if u != NaiveCutoff {
        assert Shape();
        EmptyValid();
      }
    }

    /** A node with no keys whose children are valid and empty is valid. */
    lemma EmptyValid()
      requires Shape() && Keys == {} && min == None && max == None
      requires summary.Valid() && summary.Keys == {}
      requires forall h | 0 <= h < clusters.Length :: clusters[h].Valid() && clusters[h].Keys == {}
      ensures Valid()
    {
      OccupiedEmpty({}, NClusters(), ClusterSize());
      forall h | 0 <= h < clusters.Length
        ensures clusters[h].Keys == Slice({}, h, ClusterSize())
      {
      }
      assert Holds({}, {});
      assert Keys - {min} == {};
    }

    /** `clusters[i] = new HTMvEBTreeNode(clusterSize)` for each of the n
        clusters of a node of universe u: n fresh, empty, disjoint nodes. */
    static method NewClusters(u: int, n: int, size: int, kMap: map<int, UniverseInfo>)
        returns (cs: array<NaiveNode?>, ghost repr: set<object>, ghost nodes: set<NaiveNode>)
      requires IsPow2(size) && NaiveCutoff <= size < u && 0 <= n && MapValid(kMap)
      ensures fresh(cs) && fresh(repr) && cs.Length == n && cs !in repr && nodes <= repr
      ensures forall j | 0 <= j < n ::
                cs[j] != null && cs[j].Valid() && cs[j].Keys == {} && cs[j].u == size
                && Own(cs[j]) <= repr && cs[j] in nodes && cs[j].Nodes <= nodes && cs !in cs[j].Repr
      ensures forall j, j' | 0 <= j < j' < n :: Own(cs[j]) !! Own(cs[j'])
      decreases u, 0
    {
      cs := new NaiveNode?[n];
      repr, nodes := {}, {};
      ghost var made: seq<NaiveNode> := [];
      for i := 0 to n
        invariant fresh(repr) && cs !in repr && nodes <= repr && |made| == i
        invariant forall j | 0 <= j < i :: cs[j] == made[j]
        invariant forall j | 0 <= j < i ::
                    made[j].Valid() && made[j].Keys == {} && made[j].u == size
                    && Own(made[j]) <= repr && made[j] in nodes && made[j].Nodes <= nodes
        invariant Disjoint(made)
      {
        var c := new NaiveNode(size, kMap);
        DisjointAppend(made, c, repr);
        cs[i] := c;
        made := made + [c];
        repr := repr + Own(c);
        nodes := nodes + {c} + c.Nodes;
      }
    }

    /** The node's split as the source reads it, `kMap[this->u]`, and where
        x lives: cluster `HIGH(x)` at offset `LOW(x)`. */
    lemma KeyPlace(kMap: map<int, UniverseInfo>, x: int)
      requires Shape() && Knows(kMap, u) && 0 <= x < u
      ensures u in kMap && kMap[u] == DivideNode(u) && SplitOf(kMap[u], u)
      ensures 2 <= ClusterSize() <= NClusters() < u
      ensures High(x, kMap[u]) == x / ClusterSize() && Low(x, kMap[u]) == x % ClusterSize()
      ensures 0 <= x / ClusterSize() < NClusters() && 0 <= x % ClusterSize() < ClusterSize()
      ensures x == At(x / ClusterSize(), x % ClusterSize(), ClusterSize())
    {
      KnowsChildren(kMap, u);
      NaiveSplit(u);
      HighLowArith(kMap[u], u, x);
      Decompose(kMap[u], u, x);
    }

    /** `insertToEmptyVEB`: the first key goes into `min` and `max` only. */
    method InsertToEmpty(x: int)
      requires Valid() && Keys == {} && 0 <= x < u
      modifies this
      ensures Valid() && Keys == {x} && min == x && max == x
    {
      min := x;
      max := x;
      Keys := {x};
      assert Keys - {min} == old(Keys) - {old(min)};
    }

    /** `insert`: true exactly when x was absent; the key set gains x. */
    method Insert(x: int, kMap: map<int, UniverseInfo>) returns (inserted: bool)
      requires Valid() && Knows(kMap, u) && 0 <= x < u
      modifies this, Nodes
      ensures Valid() && Keys == old(Keys) + {x}
      ensures inserted == (x !in old(Keys))
      decreases u, 3
    {
      if x == min || x == max {
        return false;
      }
      if min == None {
        InsertToEmpty(x);
        return true;
      }
      inserted := InsertNonEmpty(x, kMap);
    }

    /** The rest of `insert`, for a node that holds keys other than x: the
        smaller of x and `min` stays as `min`, the other goes into its
        cluster when there are clusters, and `max` follows. The source
        leaves `inserted` unset on a node of universe 2 when x is above
        `min`; the model returns true there, which is what x's absence
        calls for. */
    method InsertNonEmpty(x: int, kMap: map<int, UniverseInfo>) returns (inserted: bool)
      requires Valid() && Knows(kMap, u) && 0 <= x < u
      requires min != None && x != min && x != max
      modifies this, Nodes
      ensures Valid() && Keys == old(Keys) + {x}
      ensures inserted == (x !in old(Keys))
      decreases u, 2
    {
      ghost var rest := Keys - {min};
      if u == NaiveCutoff {
        BaseKeys();
      }
      inserted := true;
      var y := x;
      if y < min {
        y, min := min, y;
      }
      Keys := Keys + {x};
      if u > NaiveCutoff {
        assert Keys - {min} == rest + {y};
        inserted := InsertBelow(y, kMap, rest);
      }
      if y > max {
        max := y;
      }
    }

    /** The part of `insert` below `min`: y goes into cluster `HIGH(y)` at
        offset `LOW(y)`. An empty cluster has its number inserted into the
        summary and then takes y as its first key. */
    method InsertBelow(y: int, kMap: map<int, UniverseInfo>, ghost rest: set<int>) returns (inserted: bool)
      requires Loose(rest) && Knows(kMap, u) && 0 <= y < u
      modifies Nodes
      ensures Loose(rest + {y})
      ensures inserted == (y !in rest)
      decreases u, 1
    {
      var ui := kMap[u];
      KeyPlace(kMap, y);
      var h := High(y, ui);
      var l := Low(y, ui);
      LooseFacts(rest);
      if clusters[h].min == None {
        InsertIntoSummary(h, kMap, rest);
        FillEmptyCluster(h, l, rest);
        inserted := true;
      } else {
        inserted := InsertIntoCluster(h, l, kMap, rest);
      }
    }

    /** `summary->insert(h)` for a cluster h about to take its first key. */
    method InsertIntoSummary(h: int, kMap: map<int, UniverseInfo>, ghost rest: set<int>)
      requires Loose(rest) && Knows(kMap, u) && 0 <= h < clusters.Length
      modifies summary, summary.Nodes
      ensures Holds(rest, Occupied(rest, NClusters(), ClusterSize()) + {h})
      decreases u, 0
    {
      KnowsChildren(kMap, u);
      NaiveSplit(u);
      LooseFacts(rest);
      var _ := summary.Insert(h, kMap);
      KeptBut(-1);
    }

    /** `clusters[h]->insertToEmptyVEB(l)` once the summary names h. */
    method FillEmptyCluster(h: int, l: int, ghost rest: set<int>)
      requires Shape() && Holds(rest, Occupied(rest, NClusters(), ClusterSize()) + {h})
      requires 0 <= h < clusters.Length && 0 <= l < ClusterSize()
      requires clusters[h].min == None
      modifies clusters[h]
      ensures Loose(rest + {At(h, l, ClusterSize())})
    {
      HoldsFacts(rest, Occupied(rest, NClusters(), ClusterSize()) + {h});
      clusters[h].InsertToEmpty(l);
      KeptBut(h);
      LooseInsert(rest, h, l);
    }

    /** `inserted = clusters[h]->insert(l)` for a cluster that holds keys. */
    method InsertIntoCluster(h: int, l: int, kMap: map<int, UniverseInfo>, ghost rest: set<int>) returns (inserted: bool)
      requires Loose(rest) && Knows(kMap, u) && 0 <= h < clusters.Length && 0 <= l < ClusterSize()
      requires clusters[h].min != None
      modifies clusters[h], clusters[h].Nodes
      ensures Loose(rest + {At(h, l, ClusterSize())})
      ensures inserted == (At(h, l, ClusterSize()) !in rest)
      decreases u, 0
    {
      KnowsChildren(kMap, u);
      NaiveSplit(u);
      LooseFacts(rest);
      inserted := clusters[h].Insert(l, kMap);
      KeptBut(h);
      assert h in Occupied(rest, NClusters(), ClusterSize());
      LooseInsert(rest, h, l);
    }

    /** Adding the key at cluster h, offset l, to `rest`: cluster h gains l,
        the summary gains h, and nothing else changes. */
    lemma LooseInsert(rest: set<int>, h: int, l: int)
      requires ChildrenValid() && InUniverse(rest, u) && 0 <= h < clusters.Length && 0 <= l < ClusterSize()
      requires forall h' | 0 <= h' < clusters.Length && h' != h :: clusters[h'].Keys == Slice(rest, h', ClusterSize())
      requires clusters[h].Keys == Slice(rest, h, ClusterSize()) + {l}
      requires summary.Keys == Occupied(rest, NClusters(), ClusterSize()) + {h}
      ensures Loose(rest + {At(h, l, ClusterSize())})
    {
      NaiveSplit(u);
      PlaceInsert(rest, NClusters(), ClusterSize(), h, l);
    }

    /** Child i of the node: cluster i, or the summary for i == -1. */
    ghost function Child(i: int): NaiveNode?
      reads clusters
      requires clusters != null && -1 <= i < clusters.Length
    {
      if i == -1 then summary else clusters[i]
    }

    /** When nothing the node owns outside child i changed, the node keeps
        its shape and every other child is as it was. */
    twostate lemma KeptBut(i: int)
      requires old(ChildrenValid()) && -1 <= i < clusters.Length
      requires unchanged(Repr - Own(old(Child(i))))
      ensures Shape()
      ensures forall h | 0 <= h < clusters.Length && h != i ::
                clusters[h].Valid() && clusters[h].Keys == old(clusters[h].Keys)
      ensures i != -1 ==> summary.Valid() && summary.Keys == old(summary.Keys)
    {
      forall h | 0 <= h < clusters.Length && h != i
        ensures clusters[h].Valid() && clusters[h].Keys == old(clusters[h].Keys)
      {
      }
    }

    /** `del`: true exactly when x was present; the key set loses x. */
    method Del(x: int, kMap: map<int, UniverseInfo>) returns (erased: bool)
      requires Valid() && Knows(kMap, u) && 0 <= x < u
      modifies this, Nodes
      ensures Valid() && Keys == old(Keys) - {x}
      ensures erased == (x in old(Keys))
      decreases u, 3
    {
      RangeKeys(Keys, min, max, x);
      if x > max || x < min {
        return false;
      }
      if min == max {
        // Here min <= x <= max, so x is the one key: the source's test
        // `min == x` cannot fail.
        ClearLast();
        return true;
      }
      if u == NaiveCutoff {
        DelInBase(x);
        return true;
      }
      erased := DelSeveral(x, kMap);
    }

    /** `min = max = NONE`: the node's one key leaves. */
    method ClearLast()
      requires Valid() && min != None && min == max
      modifies this`min, this`max, this`Keys
      ensures Valid() && Keys == {} && old(Keys) == {old(min)}
    {
      RangeKeys(Keys, min, max, min);
      min := None;
      max := None;
      Keys := {};
      assert Keys - {min} == old(Keys) - {old(min)};
    }

    /** `del` on a node of universe 2 holding both 0 and 1: the other key,
        `1 - x`, becomes `min` and `max`. */
    method DelInBase(x: int)
      requires Valid() && u == NaiveCutoff && min != max && min <= x <= max
      modifies this`min, this`max, this`Keys
      ensures Valid() && Keys == old(Keys) - {x} && x in old(Keys)
    {
      BaseKeys();
      min := 1 - x;
      max := min;
      Keys := Keys - {x};
    }

    /** The rest of `del`, for a node above universe 2 with at least two
        keys. Deleting `min` promotes the least key of the clusters, which
        is then deleted from its cluster instead. A cluster left empty
        leaves the summary; `max` is recomputed if it was the key deleted. */
    method DelSeveral(x: int, kMap: map<int, UniverseInfo>) returns (erased: bool)
      requires Valid() && Knows(kMap, u) && u > NaiveCutoff && 0 <= x < u
      requires min != max && min <= x <= max
      modifies this, Nodes
      ensures Valid() && Keys == old(Keys) - {x}
      ensures erased == (x in old(Keys))
      decreases u, 2
    {
      ghost var keys0, min0, rest := Keys, min, Keys - {min};
      var ui := kMap[u];
      var y := x;
      if x == min {
        y := PromoteMin(kMap);
      }
      Keys := Keys - {x};
      DelSeveralKeys(keys0, min0, max, x, y, min);
      KeyPlace(kMap, y);
      ghost var cs, nc := ClusterSize(), NClusters();
      var h := High(y, ui);
      var l := Low(y, ui);
      ghost var rest1 := rest - {y};
      erased := DelFromCluster(h, l, kMap, rest);
      AfterClusterDel(h, y, kMap, rest, rest1);
      assert Keys - {min} == rest1;
    }

    /** What `del` does once y has left cluster h: the summary drops h if
        the cluster is now empty, and when y was `max` the new `max` is read
        from the summary or from cluster h. */
    method AfterClusterDel(h: int, y: int, kMap: map<int, UniverseInfo>, ghost rest: set<int>, ghost rest1: set<int>)
      requires Shape() && Knows(kMap, u) && 0 <= y < u && 0 <= h < clusters.Length && h == y / ClusterSize()
      requires rest1 == rest - {y} && InUniverse(rest, u)
      requires Holds(rest1, Occupied(rest, NClusters(), ClusterSize()))
      requires 0 <= min && forall k | k in rest1 :: min < k
      requires y == max ==> forall k | k in rest1 :: k < y
      modifies this`max, summary, summary.Nodes
      ensures Loose(rest1)
      ensures old(max) == y ==> IsMaxOf(max, rest1 + {min})
      ensures old(max) != y ==> max == old(max)
      decreases u, 1
    {
      ghost var cs, nc := ClusterSize(), NClusters();
      NaiveSplit(u);
      OccupiedDelete(rest, nc, cs, y);
      HoldsFacts(rest1, Occupied(rest, nc, cs));
      if clusters[h].min == None {
        assert Occupied(rest1, nc, cs) == Occupied(rest, nc, cs) - {h};
        ShrinkSummary(h, kMap, rest1, Occupied(rest, nc, cs));
        if y == max {
          MaxFromSummary(kMap, rest1);
        }
      } else {
        assert Occupied(rest1, nc, cs) == Occupied(rest, nc, cs);
        assert Loose(rest1);
        if y == max {
          MaxFromCluster(h, y, kMap, rest1);
        }
      }
    }

    /** The least key other than `min`: `INDEX(summary->min,
        clusters[summary->min]->min)`, which becomes the new `min`. */
    method PromoteMin(kMap: map<int, UniverseInfo>) returns (y: int)
      requires Valid() && Knows(kMap, u) && u > NaiveCutoff && min != max
      modifies this`min
      ensures y == min && IsMinOf(y, old(Keys) - {old(min)}) && 0 <= y < u
    {
      var ui := kMap[u];
      KnowsChildren(kMap, u);
      NaiveSplit(u);
      ghost var rest := Keys - {min};
      assert max in rest;
      LooseFacts(rest);
      OccupiedEmpty(rest, NClusters(), ClusterSize());
      var firstCluster := summary.min;
      var m := clusters[firstCluster].min;
      y := Index(firstCluster, m, ui);
      assert y == At(firstCluster, m, ClusterSize());
      MinOfClusters(rest, NClusters(), ClusterSize(), firstCluster, m);
      min := y;
    }

    /** `erased = clusters[h]->del(l)`: cluster h loses l, and the summary
        is as it was, even if the cluster is now empty. */
    method DelFromCluster(h: int, l: int, kMap: map<int, UniverseInfo>, ghost rest: set<int>) returns (erased: bool)
      requires Loose(rest) && Knows(kMap, u) && 0 <= h < clusters.Length && 0 <= l < ClusterSize()
      modifies clusters[h], clusters[h].Nodes
      ensures Holds(rest - {At(h, l, ClusterSize())}, Occupied(rest, NClusters(), ClusterSize()))
      ensures erased == (At(h, l, ClusterSize()) in rest)
      decreases u, 0
    {
      KnowsChildren(kMap, u);
      NaiveSplit(u);
      LooseFacts(rest);
      erased := clusters[h].Del(l, kMap);
      KeptBut(h);
      var x := At(h, l, ClusterSize());
      IndexSplit(h, l, ClusterSize());
      forall h' | 0 <= h' < clusters.Length
        ensures clusters[h'].Keys == Slice(rest - {x}, h', ClusterSize())
      {
        SliceDelete(rest, ClusterSize(), x, h');
      }
    }

    /** `summary->del(h)` once cluster h is empty: the summary names the
        occupied clusters again. */
    method ShrinkSummary(h: int, kMap: map<int, UniverseInfo>, ghost rest: set<int>, ghost sk: set<int>)
      requires Shape() && Holds(rest, sk) && Knows(kMap, u) && 0 <= h < clusters.Length
      requires sk - {h} == Occupied(rest, NClusters(), ClusterSize())
      modifies summary, summary.Nodes
      ensures Loose(rest)
      decreases u, 0
    {
      KnowsChildren(kMap, u);
      NaiveSplit(u);
      HoldsFacts(rest, sk);
      var _ := summary.Del(h, kMap);
      KeptBut(-1);
    }

    /** The new `max` when the old one left a cluster that is now empty:
        `INDEX(summary->max, clusters[summary->max]->max)`, or `min` when
        the summary is empty. */
    method MaxFromSummary(kMap: map<int, UniverseInfo>, ghost rest: set<int>)
      requires Loose(rest) && Knows(kMap, u) && 0 <= min && forall k | k in rest :: min < k
      modifies this`max
      ensures IsMaxOf(max, rest + {min})
    {
      var ui := kMap[u];
      KnowsChildren(kMap, u);
      NaiveSplit(u);
      LooseFacts(rest);
      var summaryMax := summary.max;
      if summaryMax == None {
        OccupiedEmpty(rest, NClusters(), ClusterSize());
        max := min;
      } else {
        var m := clusters[summaryMax].max;
        max := Index(summaryMax, m, ui);
        assert max == At(summaryMax, m, ClusterSize());
        MaxOfClusters(rest, NClusters(), ClusterSize(), summaryMax, m);
      }
    }

    /** The new `max` when the old one, y, left cluster h, which still
        holds keys: `INDEX(h, clusters[h]->max)`. */
    method MaxFromCluster(h: int, y: int, kMap: map<int, UniverseInfo>, ghost rest: set<int>)
      requires Loose(rest) && Knows(kMap, u) && 0 <= y < u && 0 <= h < clusters.Length
      requires h == y / ClusterSize() && clusters[h].min != None
      requires 0 <= min && forall k | k in rest :: min < k < y
      modifies this`max
      ensures IsMaxOf(max, rest + {min})
    {
      var ui := kMap[u];
      KeyPlace(kMap, y);
      LooseFacts(rest);
      var m := clusters[h].max;
      max := Index(h, m, ui);
      assert max == At(h, m, ClusterSize());
      LastCluster(rest, NClusters(), ClusterSize(), y);
      MaxOfClusters(rest, NClusters(), ClusterSize(), h, m);
    }

    /** `insertDriver`: `insert` inside a transaction. */
    method InsertDriver(x: int, kMap: map<int, UniverseInfo>) returns (retval: bool)
      requires Valid() && Knows(kMap, u) && 0 <= x < u
      modifies this, Nodes
      ensures Valid() && Keys == old(Keys) + {x}
      ensures retval == (x !in old(Keys))
    {
      retval := Insert(x, kMap);
    }

    /** `delDriver`: `del` inside a transaction. */
    method DelDriver(x: int, kMap: map<int, UniverseInfo>) returns (retval: bool)
      requires Valid() && Knows(kMap, u) && 0 <= x < u
      modifies this, Nodes
      ensures Valid() && Keys == old(Keys) - {x}
      ensures retval == (x in old(Keys))
    {
      retval := Del(x, kMap);
    }
  }

  /** `HTMvEBTree`: a root of universe `HTMvEBTreeRange` and the thread's
      `kMap`. */
  class NaiveTree {
    const range: int
    const root: NaiveNode
    var kMap: map<int, UniverseInfo>

    ghost predicate Valid()
      reads this, root, root.Repr
    {
      root.Valid() && root.u == range && this !in root.Repr && MapValid(kMap)
    }

    /** The keys the tree holds. */
    ghost function Contents(): set<int>
      reads root
    {
      root.Keys
    }

    /** The tree and its whole node structure, built against the map the
        thread holds at that time. */
    constructor (range: int, kMap: map<int, UniverseInfo>)
      requires IsPow2(range) && range >= NaiveCutoff && MapValid(kMap)
      ensures Valid() && Contents() == {} && this.kMap == kMap && this.range == range
    {
      this.range := range;
      root := new NaiveNode(range, kMap);
      this.kMap := kMap;
    }

    /** `populate_maps(u)`: record `divide_node` of u, unless `kMap` has it,
        and of every universe below u. */
    method PopulateMaps(u: int)
      requires IsPow2(u) && MapValid(kMap)
      modifies this`kMap
      ensures MapValid(kMap) && Knows(kMap, u)
      ensures kMap.Keys == old(kMap.Keys) + NaiveSizes(u)
      decreases u
    {
      var ui := DivideNode(u);
      if u !in kMap {
        MapValidAdd(kMap, u);
        KeyAdded(kMap, u, ui);
        kMap := kMap[u := ui];
      } else {
        KeyAdded(kMap, u, kMap[u]);
      }
      ghost var k0, k1 := kMap.Keys, kMap.Keys;
      if u > NaiveCutoff {
        NaiveSizesSplit(u);
        PopulateMaps(ui.nClusters);
        k1 := kMap.Keys;
        PopulateMaps(ui.clusterSize);
      }
      SizesCollected(old(kMap.Keys), u, k0, k1, kMap.Keys);
    }

    /** `initThread`: `kMap` cleared and filled for the whole tree. */
    method InitThread()
      requires IsPow2(range)
      modifies this`kMap
      ensures MapValid(kMap) && Knows(kMap, range) && kMap.Keys == NaiveSizes(range)
    {
      kMap := map[];
      PopulateMaps(range);
    }

    /** `insert`: through the root's `insertDriver`. */
    method Insert(key: int) returns (r: bool)
      requires Valid() && Knows(kMap, range) && 0 <= key < range
      modifies root, root.Nodes
      ensures Valid() && Contents() == old(Contents()) + {key}
      ensures r == (key !in old(Contents()))
    {
      r := root.InsertDriver(key, kMap);
    }

    /** `remove`: through the root's `delDriver`. */
    method Remove(key: int) returns (r: bool)
      requires Valid() && Knows(kMap, range) && 0 <= key < range
      modifies root, root.Nodes
      ensures Valid() && Contents() == old(Contents()) - {key}
      ensures r == (key in old(Contents()))
    {
      r := root.DelDriver(key, kMap);
    }
  }

  /** What `insert` on a node of universe 2 holding one key m computes for
      x, the other key, exactly as written: `min` and `max` become the
      smaller and the larger key, and the flag is set only when x < m;
      above m the flag is whatever the uninitialised variable held, given
      here as `indeterminate`. */
  datatype Base2Insert = Base2Insert(min: int, max: int, inserted: bool)

  function Base2InsertAsWritten(m: int, x: int, indeterminate: bool): (r: Base2Insert)
    ensures x < m ==> r == Base2Insert(x, m, true)
    ensures m < x ==> r == Base2Insert(m, x, indeterminate)
  {
    var inserted := if x < m then true else indeterminate;
    var (newMin, y) := if x < m then (x, m) else (m, x);
    Base2Insert(newMin, if y > m then y else m, inserted)
  }

  /** Inserting 1 into the universe-2 node {0}: the key was absent and the
      node now holds {0, 1}, so `NaiveNode.Insert`, whose answer is
      `x !in old(Keys)`, answers true; as written the flag is the
      uninitialised value, and when that holds false `insert` answers false
      for a key it did add. */
  lemma Base2InsertReportsGarbage()
    ensures Base2InsertAsWritten(0, 1, false).min == 0 && Base2InsertAsWritten(0, 1, false).max == 1
    ensures 1 !in {0}
    ensures Base2InsertAsWritten(0, 1, false).inserted != (1 !in {0})
    ensures exists indeterminate :: Base2InsertAsWritten(0, 1, indeterminate).inserted != (1 !in {0})
  {
    assert Base2InsertAsWritten(0, 1, false).inserted == false;
  }
}
