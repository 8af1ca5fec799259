# Verified model of the HTM van Emde Boas trees, hash table and queue

This project models, in Dafny, the transactional data structures of the
RTesseract/Montage benchmark suite. Each of them runs its operations inside
a hardware transaction, and a global lock is the fallback.

- **The cutoff-leaf vEB tree** (`VebKInternal` over `VebKLeaf`, and
  `VebKVInternal` over `VebKVLeaf`). A node of universe `u` keeps `min` and
  `max` itself. It keeps every other key in `clusters[x / clusterSize]` at
  offset `x % clusterSize`, and it keeps the indices of the non-empty clusters
  in a `summary` node. At and below `CUTOFF = 64` a node is a leaf: a 64-bit
  bitmap holds every key except `min`. Nodes come from
  per-thread pools keyed by universe. An insertion records which pools it
  drew from (`kToRefill`), and a deletion records which nodes it emptied
  (`kToReclaim`). After the transaction the driver refills those pools to
  `POINTERS_PER_POOL` nodes. It hands emptied nodes back to their pools
  until a pool holds `POINTERS_PER_POOL * POOL_GROW_COEFFICIENT` nodes, and
  frees the rest.
- **`divide_node`** (`veb_global.h`). It splits a universe `2^p` into
  `2^ceil(p/2)` clusters of `2^floor(p/2)` keys. It also has the build-time
  variants that shard the bottom 24 bits or force summaries down to the
  cutoff. The `HIGH`, `LOW` and `INDEX` macros use it.
- **The naive HTM vEB tree** (`HTMvEBTree.hpp`). It has the same
  `min`/`max`/summary/cluster layout without the leaf cutoff: the base case
  is a node of universe 2. It allocates children eagerly in the constructor.
- **`HTMHashTable`**. An array of buckets, each a linked list kept in
  ascending key order, with `get`, `put` (an upsert that returns the old
  value), `insert` (only when absent), `remove` and `clear`.
- **`HTMQueue`**. A singly linked FIFO queue. Each enqueued node is stamped
  with a 64-bit serial number taken from `global_sn`.
- **`parse_int`** (`run.py`). It turns a thread-count argument such as
  `"1-4,8"` into the list of integers it denotes.

The vEB nodes and the pools, the hash table and the queue are classes whose
methods update fields in place. They carry ghost `Keys`/`Contents` and
`Repr` footprints. Every operation is proved against the abstract set or map
it maintains:

- `member` answers membership;
- `successor` and `predecessor` answer the nearest key on each side, or -1;
- `insert`/`del` add or remove exactly one key, and report whether the set
  changed.

The pool bookkeeping is proved to keep every pool a deeper insertion may
draw on stocked with at least two nodes. The KV tree's internal node is
modelled as a value (`VebKV.KVTree`). Its queries and updates are functions,
and lemmas prove them against the key-to-value map the tree holds.

## Model

| member | source | states |
|---|---|---|
| Bits.CountrZero | src/rideables/veb_kv_cutoffWithLeafType/veb_kv_cutoffWithLeafType.h:72-74 | the number of trailing zero bits is 64 exactly for an empty word; otherwise it is a set bit, and no set bit lies below it |
| Bits.CountlZero | src/rideables/veb_kv_cutoffWithLeafType/veb_kv_cutoffWithLeafType.h:69-71 | the number of leading zero bits is 64 exactly for an empty word; otherwise 63 minus it is a set bit, and no set bit lies above that one |
| Bits.ElemsClear | src/rideables/veb_kv_cutoffWithLeafType/veb_kv_cutoffWithLeafType.h:240-242 | `w & ~(1 << i)` denotes the bit set of w without i |
| Bits.ElemsOr | src/rideables/veb_kv_cutoffWithLeafType/veb_kv_cutoffWithLeafType.h:196-198 | `bitmap \| (1 << i)` denotes the union of the two bit sets |
| Bits.ElemsAnd | src/rideables/veb_kv_cutoffWithLeafType/veb_kv_cutoffWithLeafType.h:126-129 | a mask intersects bit sets |
| Bits.ElemsOnesFrom | src/rideables/veb_kv_cutoffWithLeafType/veb_kv_cutoffWithLeafType.h:127 | the mask `~0 << k` holds exactly the bits k..63 |
| Bits.NonZeroElems | src/rideables/veb_kv_cutoffWithLeafType/veb_kv_cutoffWithLeafType.h:246-251 | a word is non-zero exactly when some bit is set |
| VebGlobal.Log2 | src/rideables/veb_kv_cutoffWithLeafType/veb_global.h:71-74 | the exponent that `log2(u)` yields for a power of two u is the p with 2^p == u |
| VebGlobal.DivideNode | src/rideables/veb_kv_cutoffWithLeafType/veb_global.h:65-114 | the low and high bit counts add up to log2(u), differ by at most one with the high half the larger, and the low mask is the cluster size minus one |
| VebGlobal.DivideNodeSplits | src/rideables/veb_kv_cutoffWithLeafType/veb_global.h:104-113 | the cluster size times the number of clusters is u, and both are powers of two with the recorded bit counts |
| VebGlobal.DivideNodeShrinks | src/rideables/veb_kv_cutoffWithLeafType/veb_global.h:65-114 | above the cutoff both halves are powers of two between 2 and u (exclusive), so the recursion over universes terminates |
| VebGlobal.SummaryOfSummarySmall | src/rideables/veb_kv_cutoffWithLeafType/veb_global.h:65-114 | a summary's own summary is smaller than the cluster size |
| VebGlobal.DivideNodeConfigured | src/rideables/veb_kv_cutoffWithLeafType/veb_global.h:65-114 | under every build flag the split is valid (bit counts add to log2(u), the sizes multiply to u, and the mask is size minus one); with `SHARD_24`/`FORCE_*` the low half is the sharded or rebalanced value; forcing leaves the low half at least the cutoff or no high half; with no flag it equals `DivideNode` |
| VebGlobal.HighLowArith | src/rideables/veb_kv_cutoffWithLeafType/veb_global.h:48-49 | `x >> lowBits` and `x & lowMask` are x div and x mod the cluster size |
| VebGlobal.IndexBitwiseAgrees | src/rideables/veb_kv_cutoffWithLeafType/veb_global.h:51-55 | the shifting `INDEX` and the multiplying `INDEX` agree |
| VebGlobal.Decompose | src/rideables/veb_kv_cutoffWithLeafType/veb_global.h:48-55 | for a key below u, `HIGH` is a cluster index, `LOW` is an offset in it, and `INDEX(HIGH(x), LOW(x))` gives back x |
| VebGlobal.Compose | src/rideables/veb_kv_cutoffWithLeafType/veb_global.h:48-55 | `INDEX` of a cluster and offset lies below u, and `HIGH`/`LOW` give back the two parts |
| VebGlobal.IndexOrder | src/rideables/veb_kv_cutoffWithLeafType/veb_global.h:51-55 | every key of an earlier cluster is smaller than every key of a later one |
| VebKLeaves.KLeaf.constructor | src/rideables/veb_kv_cutoffWithLeafType/veb_kv_cutoffWithLeafType.h:84-89 | a new leaf holds no key |
| VebKLeaves.KLeaf.MakeMeReusable | src/rideables/veb_kv_cutoffWithLeafType/veb_kv_cutoffWithLeafType.h:91-95 | the leaf is emptied, its bitmap is cleared, and an already empty leaf is left as it was |
| VebKLeaves.KLeaf.Member | src/rideables/veb_kv_cutoffWithLeafType/veb_kv_cutoffWithLeafType.h:97-102 | the answer is true exactly when x is a key of the leaf |
| VebKLeaves.KLeaf.Successor | src/rideables/veb_kv_cutoffWithLeafType/veb_kv_cutoffWithLeafType.h:104-133 | the answer is the least key above x, or -1 when there is none |
| VebKLeaves.KLeaf.Predecessor | src/rideables/veb_kv_cutoffWithLeafType/veb_kv_cutoffWithLeafType.h:135-167 | the answer is the greatest key below x, or -1 when there is none |
| VebKLeaves.KLeaf.InsertToEmpty | src/rideables/veb_kv_cutoffWithLeafType/veb_kv_cutoffWithLeafType.h:169-172 | an empty leaf afterwards holds exactly x, as its min and its max |
| VebKLeaves.KLeaf.Insert | src/rideables/veb_kv_cutoffWithLeafType/veb_kv_cutoffWithLeafType.h:174-205 | the keys become the old keys plus x, the leaf stays well formed, and the answer is true exactly when x was absent |
| VebKLeaves.KLeaf.Del | src/rideables/veb_kv_cutoffWithLeafType/veb_kv_cutoffWithLeafType.h:207-275 | the keys become the old keys minus x, min and max are recomputed from the bitmap, and the answer is true exactly when x was present |
| VebKVLeaves.KVLeaf.constructor | src/rideables/veb_kv_cutoffWithLeafType/veb_kv_cutoffWithLeafType.h:986-992 | a new leaf maps no key |
| VebKVLeaves.KVLeaf.MakeMeReusable | src/rideables/veb_kv_cutoffWithLeafType/veb_kv_cutoffWithLeafType.h:994-998 | the leaf maps no key afterwards |
| VebKVLeaves.KVLeaf.Member | src/rideables/veb_kv_cutoffWithLeafType/veb_kv_cutoffWithLeafType.h:1000-1005 | the answer is true exactly when x has a value in the leaf |
| VebKVLeaves.KVLeaf.GetValue | src/rideables/veb_kv_cutoffWithLeafType/veb_kv_cutoffWithLeafType.h:1043-1049 | the answer is the value the leaf maps x to |
| VebKVLeaves.KVLeaf.Successor | src/rideables/veb_kv_cutoffWithLeafType/veb_kv_cutoffWithLeafType.h:1007-1039 | the key answered is the least key above x (or -1), and when there is one the value answered is its value |
| VebKVLeaves.KVLeaf.Predecessor | src/rideables/veb_kv_cutoffWithLeafType/veb_kv_cutoffWithLeafType.h:1051-1089 | the key answered is the greatest key below x (or -1), and when there is one the value answered is its value |
| VebKVLeaves.KVLeaf.InsertToEmpty | src/rideables/veb_kv_cutoffWithLeafType/veb_kv_cutoffWithLeafType.h:1091-1095 | an empty leaf afterwards maps exactly x to val |
| VebKVLeaves.KVLeaf.Upsert | src/rideables/veb_kv_cutoffWithLeafType/veb_kv_cutoffWithLeafType.h:1098-1156 | the map becomes the old map with x set to val, and the answer is true exactly when x was absent |
| VebKVLeaves.KVLeaf.UpsertUnder | src/rideables/veb_kv_cutoffWithLeafType/veb_kv_cutoffWithLeafType.h:1126-1153 | below min, x becomes the new min with val, the old min moves into the bitmap, and the answer is true |
| VebKVLeaves.KVLeaf.UpsertAbove | src/rideables/veb_kv_cutoffWithLeafType/veb_kv_cutoffWithLeafType.h:1139-1156 | above min, x is set to val (overwriting an existing value), and the answer is true exactly when x was absent |
| VebKVLeaves.KVLeaf.Insert | src/rideables/veb_kv_cutoffWithLeafType/veb_kv_cutoffWithLeafType.h:1159-1199 | a present key keeps its value; an absent one is added with val; the answer is true exactly when x was absent |
| VebKVLeaves.KVLeaf.InsertUnder | src/rideables/veb_kv_cutoffWithLeafType/veb_kv_cutoffWithLeafType.h:1173-1198 | below min, x is added with val as the new min, and the answer is true |
| VebKVLeaves.KVLeaf.InsertAbove | src/rideables/veb_kv_cutoffWithLeafType/veb_kv_cutoffWithLeafType.h:1186-1198 | above min, only an absent key is added, and the answer is true exactly when x was absent |
| VebKVLeaves.KVLeaf.Del | src/rideables/veb_kv_cutoffWithLeafType/veb_kv_cutoffWithLeafType.h:1201-1253 | the map becomes the old map without x, and the answer is true exactly when x was present |
| VebKVLeaves.KVLeaf.DelMin | src/rideables/veb_kv_cutoffWithLeafType/veb_kv_cutoffWithLeafType.h:1221-1233 | removing min promotes the least bitmap key and its value to min and removes only the old min |
| VebKVLeaves.KVLeaf.DelAbove | src/rideables/veb_kv_cutoffWithLeafType/veb_kv_cutoffWithLeafType.h:1235-1253 | removing a key above min clears its bit, recomputes max, and removes only x |
| VebK.KPools.Draw | src/rideables/veb_kv_cutoffWithLeafType/veb_kv_cutoffWithLeafType.h:596-608 | the node handed out is the last of the pool of its universe, which loses exactly that node; the node is empty and no longer spare; the universe is appended to `kToRefill`; nothing else changes |
| VebK.KPools.Reclaim | src/rideables/veb_kv_cutoffWithLeafType/veb_kv_cutoffWithLeafType.h:785-786 | an emptied node is appended to `kToReclaim` and becomes spare again; pools, map and refill list are unchanged |
| VebK.KPools.PopulateMaps | src/rideables/veb_kv_cutoffWithLeafType/veb_kv_cutoffWithLeafType.h:343-356 | `kMap` gains the `divide_node` split of u and of every universe below it, and no other key |
| VebK.KPools.PopulateMapsKV | src/rideables/veb_kv_cutoffWithLeafType/veb_kv_cutoffWithLeafType.h:1323-1344 | `populate_maps(u, true)`: `kvMap` gains u and the chain of cluster sizes below it; `kMap` gains the summary size of each node of that chain and every universe below it, and no other key |
| VebK.KPools.FileKV | src/rideables/veb_kv_cutoffWithLeafType/veb_kv_cutoffWithLeafType.h:1327-1331 | `kvMap` gains u when it lacks it, filed under `divide_node(u)`, and no other key |
| VebK.KVSizesBound | src/rideables/veb_kv_cutoffWithLeafType/veb_kv_cutoffWithLeafType.h:1323-1344 | every key-value universe is a power of two at most u, and every key-only universe is a power of two below u, so the root's universe never gets a key-only pool |
| VebK.SummariesCovered | src/rideables/veb_kv_cutoffWithLeafType/veb_kv_cutoffWithLeafType.h:1323-1365 | for every node of the key-value chain, its summary's universe and every universe below that summary are in the key-only set `kMap` receives |
| VebK.KPools.InitThread | src/rideables/veb_kv_cutoffWithLeafType/veb_kv_cutoffWithLeafType.h:1346-1365 | both maps are cleared and refilled by `populate_maps(u, true)`, so `kMap` holds exactly the key-only universes below the key-value root and `kvMap` the key-value chain; each `kMap` pool gains exactly `POINTERS_PER_POOL` fresh empty nodes at its end, other pools are untouched, and every node of the key-value chain can then draw its summary and insert into it from pools holding at least two nodes |
| VebK.KPools.AllSummariesReady | src/rideables/veb_kv_cutoffWithLeafType/veb_kv_cutoffWithLeafType.h:1346-1365 | once `kMap` holds exactly the key-only universes `populate_maps(u, true)` files and each of their pools holds two nodes, every node of the key-value chain can draw its summary and insert into it |
| VebK.KPools.SeedPool | src/rideables/veb_kv_cutoffWithLeafType/veb_kv_cutoffWithLeafType.h:1355-1363 | the pool of one universe keeps its nodes and gains `POINTERS_PER_POOL` fresh empty ones at its end; every other pool is unchanged |
| VebK.KPools.SeedAll | src/rideables/veb_kv_cutoffWithLeafType/veb_kv_cutoffWithLeafType.h:1351-1365 | every universe of `kMap`, and only those, has its pool seeded with `POINTERS_PER_POOL` more nodes |
| VebK.KPools.SeedNext | src/rideables/veb_kv_cutoffWithLeafType/veb_kv_cutoffWithLeafType.h:1351-1365 | one more universe of the loop is seeded, and the seeded set strictly grows |
| VebK.SeededStocked | src/rideables/veb_kv_cutoffWithLeafType/veb_kv_cutoffWithLeafType.h:1351-1365 | once every universe is seeded, every pool holds at least two nodes |
| VebK.KPools.Refill | src/rideables/veb_kv_cutoffWithLeafType/veb_kv_cutoffWithLeafType.h:907-925 | `kToRefill` is emptied; each universe on it has its pool topped up at the end to `POINTERS_PER_POOL` nodes (or keeps the more it had); other pools are unchanged |
| VebK.KPools.RefillPool | src/rideables/veb_kv_cutoffWithLeafType/veb_kv_cutoffWithLeafType.h:909-922 | one pool keeps its nodes and grows at its end with fresh empty nodes to `POINTERS_PER_POOL`, or keeps the more it had |
| VebK.KPools.ReclaimAll | src/rideables/veb_kv_cutoffWithLeafType/veb_kv_cutoffWithLeafType.h:934-959 | `kToReclaim` is emptied; each reclaimed node is made reusable and pushed on its universe's pool unless that pool already holds `POINTERS_PER_POOL * POOL_GROW_COEFFICIENT` nodes; pools only grow, and only by reclaimed nodes |
| VebK.KPools.ReclaimOne | src/rideables/veb_kv_cutoffWithLeafType/veb_kv_cutoffWithLeafType.h:935-957 | one step of the reclaim loop keeps the `Recycled` relation over the prefix handled so far |
| VebK.KPools.Repool | src/rideables/veb_kv_cutoffWithLeafType/veb_kv_cutoffWithLeafType.h:936-955 | a node whose pool is not full is made reusable and appended to that pool |
| VebK.StockedAfterRefill | src/rideables/veb_kv_cutoffWithLeafType/veb_kv_cutoffWithLeafType.h:905-927 | an insertion followed by the driver's refill leaves every pool with at least as many nodes as before (up to `POINTERS_PER_POOL`) |
| VebK.StockedAfterRecycle | src/rideables/veb_kv_cutoffWithLeafType/veb_kv_cutoffWithLeafType.h:929-961 | the driver's reclaim loop never takes a node out of a pool |
| VebK.KInternal.constructor | src/rideables/veb_kv_cutoffWithLeafType/veb_kv_cutoffWithLeafType.h:289-311 | a new internal node of universe u holds no key, with null summary and null clusters |
| VebK.KInternal.MakeMeReusable | src/rideables/veb_kv_cutoffWithLeafType/veb_kv_cutoffWithLeafType.h:313-317 | an empty node gets min and max -1 and is otherwise unchanged |
| VebK.KInternal.Member | src/rideables/veb_kv_cutoffWithLeafType/veb_kv_cutoffWithLeafType.h:372-400 | the answer is true exactly when x is a key of the subtree |
| VebK.KInternal.Successor | src/rideables/veb_kv_cutoffWithLeafType/veb_kv_cutoffWithLeafType.h:402-484 | the answer is the least key of the subtree above x, or -1 |
| VebK.KInternal.SuccessorInLaterCluster | src/rideables/veb_kv_cutoffWithLeafType/veb_kv_cutoffWithLeafType.h:440-484 | when x's cluster has nothing above x, the answer is the min of the next non-empty cluster that the summary names, or -1 |
| VebK.KInternal.Predecessor | src/rideables/veb_kv_cutoffWithLeafType/veb_kv_cutoffWithLeafType.h:486-594 | the answer is the greatest key of the subtree below x, or -1 |
| VebK.KInternal.PredecessorInEarlierCluster | src/rideables/veb_kv_cutoffWithLeafType/veb_kv_cutoffWithLeafType.h:543-594 | when x's cluster has nothing below x, the answer is the max of the previous non-empty cluster, else min when it is below x, else -1 |
| VebK.KInternal.InsertToEmpty | src/rideables/veb_kv_cutoffWithLeafType/veb_kv_cutoffWithLeafType.h:624-627 | an empty node afterwards holds exactly x, as its min and its max |
| VebK.KInternal.AllocateClusterIfNeeded | src/rideables/veb_kv_cutoffWithLeafType/veb_kv_cutoffWithLeafType.h:596-608 | a null cluster is replaced by the last node of the cluster-size pool (which loses it and is put on `kToRefill`); an existing cluster is kept and the pools are untouched |
| VebK.KInternal.AllocateSummaryIfNeeded | src/rideables/veb_kv_cutoffWithLeafType/veb_kv_cutoffWithLeafType.h:610-622 | a null summary is replaced by the last node of the summary-size pool; an existing one is kept and the pools are untouched |
| VebK.KInternal.Insert | src/rideables/veb_kv_cutoffWithLeafType/veb_kv_cutoffWithLeafType.h:629-691 | the keys become the old keys plus x, the answer is true exactly when x was absent, and the pools lose only nodes the insertion now owns, each recorded on `kToRefill` |
| VebK.KInternal.InsertBelow | src/rideables/veb_kv_cutoffWithLeafType/veb_kv_cutoffWithLeafType.h:644-690 | a key above min (min having been swapped first when x is smaller) goes into its cluster; a null or empty cluster is allocated and named in the summary first |
| VebK.KInternal.Del | src/rideables/veb_kv_cutoffWithLeafType/veb_kv_cutoffWithLeafType.h:693-897 | the keys become the old keys minus x, the answer is true exactly when x was present, and every node emptied and detached is put on `kToReclaim` |
| VebK.KInternal.DelSeveral | src/rideables/veb_kv_cutoffWithLeafType/veb_kv_cutoffWithLeafType.h:721-896 | in a node with at least two keys, deleting min promotes the least cluster key to min, and deleting any key leaves exactly the other keys |
| VebK.KInternal.RecomputeMax | src/rideables/veb_kv_cutoffWithLeafType/veb_kv_cutoffWithLeafType.h:853-864 | after the max was deleted, max becomes the largest remaining key: min when the summary is empty, else the max of the last non-empty cluster |
| VebK.LeafMaxWord | src/rideables/veb_kv_cutoffWithLeafType/veb_kv_cutoffWithLeafType.h:853-864 | the word `PTR_TO_KLEAF(clusters[summaryMax])->max` reads: a leaf's `max`, but an internal node's `summary` pointer |
| VebK.LeafMaxWordOfLoneNode | src/rideables/veb_kv_cutoffWithLeafType/veb_kv_cutoffWithLeafType.h:874-886 | an internal cluster holding one key has a null summary, so the leaf cast reads 0, an offset of one of its keys only when that key is 0, while its `max` is its key |
| VebK.KInternal.InsertDriver | src/rideables/veb_kv_cutoffWithLeafType/veb_kv_cutoffWithLeafType.h:905-927 | the keys gain x and the answer says whether x was new; after a real insertion `kToRefill` is empty and every pool an insertion may use is stocked again |
| VebK.KInternal.DelDriver | src/rideables/veb_kv_cutoffWithLeafType/veb_kv_cutoffWithLeafType.h:929-961 | the keys lose x and the answer says whether x was present; after a real deletion `kToReclaim` is empty, and pools that were stocked stay stocked |
| VebK.RefMember | src/rideables/veb_kv_cutoffWithLeafType/veb_kv_cutoffWithLeafType.h:391-397 | asking a child of either kind answers membership in that child |
| VebK.RefSuccessor | src/rideables/veb_kv_cutoffWithLeafType/veb_kv_cutoffWithLeafType.h:414-433 | asking a child of either kind answers the least key of that child above x |
| VebK.RefPredecessor | src/rideables/veb_kv_cutoffWithLeafType/veb_kv_cutoffWithLeafType.h:519-536 | asking a child of either kind answers the greatest key of that child below x |
| VebK.RefInsert | src/rideables/veb_kv_cutoffWithLeafType/veb_kv_cutoffWithLeafType.h:663-684 | inserting into a child of either kind adds exactly x to it and reports whether x was new |
| VebK.RefDel | src/rideables/veb_kv_cutoffWithLeafType/veb_kv_cutoffWithLeafType.h:778-839 | deleting from a child of either kind removes exactly x from it and reports whether x was present |
| VebK.RefInsertToEmpty | src/rideables/veb_kv_cutoffWithLeafType/veb_kv_cutoffWithLeafType.h:663-684 | an empty child of either kind afterwards holds exactly x |
| VebK.RefMakeMeReusable | src/rideables/veb_kv_cutoffWithLeafType/veb_kv_cutoffWithLeafType.h:937-951 | a reclaimed node of either kind is emptied in place, keeping its footprint |
| VebKV.GetValue | src/rideables/veb_kv_cutoffWithLeafType/veb_kv_cutoffWithLeafType.h:1510-1524 | the value found for a subtree's max is the value the tree maps it to |
| VebKV.MemberCorrect | src/rideables/veb_kv_cutoffWithLeafType/veb_kv_cutoffWithLeafType.h:1390-1418 | `member` is true exactly when x is a key of the tree |
| VebKV.SuccessorCorrect | src/rideables/veb_kv_cutoffWithLeafType/veb_kv_cutoffWithLeafType.h:1420-1506 | `successor` answers the least key above x (or -1) together with that key's value |
| VebKV.PredecessorCorrect | src/rideables/veb_kv_cutoffWithLeafType/veb_kv_cutoffWithLeafType.h:1526-1648 | `predecessor` answers the greatest key below x (or -1) together with that key's value |
| VebKV.SingleCorrect | src/rideables/veb_kv_cutoffWithLeafType/veb_kv_cutoffWithLeafType.h:1678-1682 | a node after `insertToEmptyVEB(x, val)` is well formed and maps exactly x to val |
| VebKV.UpsertCorrect | src/rideables/veb_kv_cutoffWithLeafType/veb_kv_cutoffWithLeafType.h:1684-1758 | after `upsert`, x maps to val, every other key keeps its value, the tree is well formed, and the answer is true exactly when x was absent |
| VebKV.UpsertBelowCorrect | src/rideables/veb_kv_cutoffWithLeafType/veb_kv_cutoffWithLeafType.h:1700-1758 | the key sent down to its cluster (a fresh one when null) lands there with its value, and min takes the smaller key with its value |
| VebKV.InsertCorrect | src/rideables/veb_kv_cutoffWithLeafType/veb_kv_cutoffWithLeafType.h:1760-1829 | after `insert`, an absent x maps to val, a present x keeps its value, everything else is unchanged, and the answer is true exactly when x was absent |
| VebKV.InsertBelowCorrect | src/rideables/veb_kv_cutoffWithLeafType/veb_kv_cutoffWithLeafType.h:1772-1829 | the key sent down lands in its cluster only when absent there, and min takes the smaller key with its value |
| VebKV.DelCorrect | src/rideables/veb_kv_cutoffWithLeafType/veb_kv_cutoffWithLeafType.h:1832-2040 | after `del`, x has no value, every other key keeps its value, the tree is well formed, and the answer is true exactly when x was present |
| VebKV.DelBelowCorrect | src/rideables/veb_kv_cutoffWithLeafType/veb_kv_cutoffWithLeafType.h:1911-2040 | deleting below min from its cluster removes only that key, empties and drops the summary entry of an emptied cluster, and recomputes max with its value |
| VebKV.DelBelowAsWritten | src/rideables/veb_kv_cutoffWithLeafType/veb_kv_cutoffWithLeafType.h:1911-2040 | `del` below min with the new `max` taken from the word the leaf cast reads off the last named cluster; whenever clusters are leaves it equals the corrected DelBelow |
| VebKV.LeafMaxWord | src/rideables/veb_kv_cutoffWithLeafType/veb_kv_cutoffWithLeafType.h:1996-2004 | the word the leaf cast reads off a cluster is a leaf's `max`; off an internal node it is the `summary` pointer |
| VebKV.MaxFromLastCluster | src/rideables/veb_kv_cutoffWithLeafType/veb_kv_cutoffWithLeafType.h:1996-2030 | when y is `max` and its cluster empties, the new `max` is `INDEX(summaryMax, ...)` of the last named cluster's `max` in the corrected deletion and of the leaf-cast word as written |
| VebKV.DelThreeKeys | src/rideables/veb_kv_cutoffWithLeafType/veb_kv_cutoffWithLeafType.h:2013-2030 | on any tree of universe 2^14 holding keys (0, 200, 300) with 200 and 300 in internal clusters 1 and 2, `del(300)` leaves `max` `INDEX(1, 72)` when corrected and `INDEX(1, 0)` as written |
| VebKV.DelReadsSummaryAsMax | src/rideables/veb_kv_cutoffWithLeafType/veb_kv_cutoffWithLeafType.h:2013-2030 | on that tree the corrected `max`, 200, is the greatest key left after `del(300)`; the `max` as written is 128, which is not the greatest key left and not a key at all |
| VebKV.ThreeKeysValid | src/rideables/veb_kv_cutoffWithLeafType/veb_kv_cutoffWithLeafType.h:2013-2030 | the example tree ThreeKeys is well-formed, holds exactly {0, 200, 300} and has the layout the two lemmas above require, so their input exists |
| NaiveVeb.NaiveNode.constructor | src/rideables/HTMvEBTree.hpp:91-114 | a node of universe u is built with its whole subtree of empty summary and clusters, and holds no key |
| NaiveVeb.NaiveNode.InsertToEmpty | src/rideables/HTMvEBTree.hpp:130-133 | an empty node afterwards holds exactly x, as its min and its max |
| NaiveVeb.NaiveNode.Insert | src/rideables/HTMvEBTree.hpp:135-190 | the keys become the old keys plus x, and the answer is true exactly when x was absent |
| NaiveVeb.NaiveNode.InsertBelow | src/rideables/HTMvEBTree.hpp:162-188 | a key above min goes into its cluster; an empty cluster is first named in the summary |
| NaiveVeb.NaiveNode.Del | src/rideables/HTMvEBTree.hpp:192-281 | the keys become the old keys minus x, and the answer is true exactly when x was present |
| NaiveVeb.NaiveNode.DelInBase | src/rideables/HTMvEBTree.hpp:212-221 | in a universe-2 node holding two keys, deleting one leaves only the other |
| NaiveVeb.NaiveNode.DelSeveral | src/rideables/HTMvEBTree.hpp:224-280 | above the base case, deleting min promotes the least cluster key; any deletion leaves exactly the other keys |
| NaiveVeb.NaiveNode.InsertDriver | src/rideables/HTMvEBTree.hpp:283-296 | the keys gain x and the answer says whether x was new |
| NaiveVeb.NaiveNode.DelDriver | src/rideables/HTMvEBTree.hpp:298-315 | the keys lose x and the answer says whether x was present |
| NaiveVeb.NaiveTree.PopulateMaps | src/rideables/HTMvEBTree.hpp:410-422 | `kMap` gains the `divide_node` split of u and of every universe below it, and no other key |
| NaiveVeb.NaiveTree.InitThread | src/rideables/HTMvEBTree.hpp:424-436 | `kMap` holds exactly the splits of the tree's universe and of every universe below it |
| NaiveVeb.NaiveTree.Insert | src/rideables/HTMvEBTree.hpp:443 | the tree's keys gain key, and the answer says whether key was new |
| NaiveVeb.NaiveTree.Remove | src/rideables/HTMvEBTree.hpp:444 | the tree's keys lose key, and the answer says whether key was present |
| NaiveVeb.NaiveSizesSplit | src/rideables/HTMvEBTree.hpp:359-408 | the universes below u are u and those below its two halves, which are both smaller powers of two |
| NaiveVeb.Base2InsertAsWritten | src/rideables/HTMvEBTree.hpp:147-189 | in a universe-2 node holding m, inserting a smaller x reports true, but inserting a larger x reports the uninitialised flag |
| NaiveVeb.Base2InsertReportsGarbage | src/rideables/HTMvEBTree.hpp:147-189 | inserting 1 into the universe-2 node holding 0 adds the key, so the intended answer is true, yet with the uninitialised flag false the answer as written is false |
| HtmHashTable.Lookup | src/rideables/HTMHashTable.hpp:95-102 | walking a bucket finds a value exactly when the key is in it |
| HtmHashTable.PutKeys | src/rideables/HTMHashTable.hpp:140-160 | after the upsert walk, the bucket holds its old keys plus key |
| HtmHashTable.PutAscending | src/rideables/HTMHashTable.hpp:140-160 | the upsert walk keeps the bucket in ascending key order |
| HtmHashTable.PutLookup | src/rideables/HTMHashTable.hpp:140-160 | after the upsert walk, key maps to the new value and every other key is unchanged |
| HtmHashTable.RemoveKeys | src/rideables/HTMHashTable.hpp:282-299 | after the removal walk, the bucket holds its old keys minus key |
| HtmHashTable.RemoveAscending | src/rideables/HTMHashTable.hpp:282-299 | the removal walk keeps the bucket in ascending key order |
| HtmHashTable.RemoveLookup | src/rideables/HTMHashTable.hpp:282-299 | after the removal walk, key has no value and every other key is unchanged |
| HtmHashTable.LookupAt | src/rideables/HTMHashTable.hpp:140-160 | in an ascending bucket, the first entry not below key is key's entry when it exists |
| HtmHashTable.HashTable.Index | src/rideables/HTMHashTable.hpp:85 | `hash_fn(key) % idxSize` is a bucket index |
| HtmHashTable.HashTable.constructor | src/rideables/HTMHashTable.hpp:65-69 | every bucket is empty and the table maps no key |
| HtmHashTable.HashTable.Walk | src/rideables/HTMHashTable.hpp:140-160 | the `prev`/`curr` walk stops at the first entry whose key is not below the key, and every entry before it has a smaller key |
| HtmHashTable.HashTable.Get | src/rideables/HTMHashTable.hpp:82-124 | the answer is key's value in the table, or none |
| HtmHashTable.HashTable.Put | src/rideables/HTMHashTable.hpp:126-195 | key maps to val afterwards, every other key is unchanged, only key's bucket changes, and the answer is the old value, or none |
| HtmHashTable.HashTable.Insert | src/rideables/HTMHashTable.hpp:197-262 | an absent key is added with val and the answer is true; a present key leaves the table unchanged and the answer is false |
| HtmHashTable.HashTable.Remove | src/rideables/HTMHashTable.hpp:269-331 | key has no value afterwards, every other key is unchanged, and the answer is the removed value, or none |
| HtmHashTable.HashTable.Clear | src/rideables/HTMHashTable.hpp:333-344 | every bucket is emptied and the table maps no key |
| HtmQueue.NextSn | src/rideables/HTMQueue.hpp:104 | the 64-bit serial number goes up by one, wrapping to 0 after 2^64 - 1 |
| HtmQueue.Queue.constructor | src/rideables/HTMQueue.hpp:69-71 | a new queue is empty, with no head or tail, and `global_sn` is 0 |
| HtmQueue.Queue.EndsAgree | src/rideables/HTMQueue.hpp:103-131 | head is null exactly when tail is null, which is exactly when the queue is empty |
| HtmQueue.Queue.Enqueue | src/rideables/HTMQueue.hpp:89-135 | v is appended at the tail, stamped with the old `global_sn`, and `global_sn` advances |
| HtmQueue.Queue.Dequeue | src/rideables/HTMQueue.hpp:138-194 | an empty queue answers none and stays empty; otherwise the head value is answered and removed, and the rest keep their order |
| HtmQueue.Apply | src/rideables/HTMQueue.hpp:89-194 | enqueue appends a stamped item; dequeue on an empty queue changes nothing and answers none, otherwise it removes and answers the first item |
| HtmQueue.FifoOrder | src/rideables/HTMQueue.hpp:89-194 | over any run of operations, the values dequeued followed by those still queued are exactly the values enqueued, in order |
| HtmQueue.Stamps | src/rideables/HTMQueue.hpp:103-124 | after any run, `global_sn` counts the enqueues modulo 2^64, and the items still queued carry consecutive serial numbers |
| RangeParser.ParseInt | run.py:10-16 | the list built is the one the pattern's matches denote |
| RangeParser.Parse | run.py:8-16 | every number produced is non-negative |
| RangeParser.Span | run.py:13-14 | `range(a, b + 1)` lists a, a + 1, ..., b, and is empty when b < a |
| RangeParser.LoneNumber | run.py:8-16 | a string of digits alone denotes just that number |
| RangeParser.RangeGroup | run.py:8-16 | `a-b` (or another separator) denotes every integer from a to b, and nothing when b < a |
| RangeParser.DanglingSeparator | run.py:8-16 | a number followed only by a separator denotes just that number |
| RangeParser.NoDigits | run.py:8-16 | text without digits denotes nothing |
| RangeParser.Concatenation | run.py:8-16 | groups joined by a character that is neither a digit nor a separator denote the concatenation of what each denotes |

## Left out

- Hardware transactions, the `TLE` macro and the global-lock fallback are not modelled. Each operation runs as one atomic step. The fallback bodies of `HTMHashTable` and `HTMQueue` repeat the transactional ones, so one method models both.
- Tagged pointers (`MARK_PTR_AS_KLEAF`, `IS_LEAF`, `PTR_TO_*`) become the `KRef` datatype, with one case per node kind.
- VebK.KInternal.Del: promises the corrected `max` after deleting the maximum. As written, `veb_kv_cutoffWithLeafType.h:859` and `:880` read the last named cluster through the leaf cast. For an internal cluster that reads its `summary` pointer, not its `max`. This is recorded under Findings.
- VebK.KInternal.DelSeveral: same as `Del`: the model reads the last named cluster's `max` by its kind, where the source reads the `summary` field of an internal cluster.
- VebK.KInternal.RecomputeMax: ensures the true maximum. As written, the source stores `INDEX(summaryMax, w)`, with w the `summary` pointer whenever clusters are internal nodes (universes of 2^14 and up). See Findings.
- VebKV.DelCorrect: proves a well-formed tree with the corrected `max`. As written, `:2002` and `:2023` can store a `max` that is not a key, as VebKV.DelReadsSummaryAsMax shows.
- VebKV.DelBelowCorrect: is about the corrected DelBelow. VebKV.DelBelowAsWritten models the read as written.
- VebGlobal.DivideNode: `(int)log2(u)` on a double is replaced by the exact integer exponent of a power of two.
- `delete` of nodes beyond a full pool, destructors and `deinitThread` are not modelled. A freed node simply leaves every footprint.
- VebK.KPools.Draw: `kPool[s].back()` on an empty pool is undefined behaviour in the source. The model requires a non-empty pool, and the drivers' stocking invariant provides it.
- Keys are limited to `0 <= x < u`, the universe every caller in the source respects. Keys outside it are undefined in the source and a precondition here.
- The KV internal node is a value model (`VebKV.KVTree`). It has no `kvPool`, no KV `allocate*IfNeeded`, no `upsertDriver`/`insertIfAbsentDriver`/`delDriver`, and no `kvPool` loop of `initThread`. Leaves are maps and the summary is a set. In-place update and node reuse of the KV tree are therefore not captured.
- VebKVLeaves.KVLeaf.Del: the source also writes `nullptr` into `vals[x]` and `minVal`. A generic value type has no null, so the model leaves the stale value, which `Contents` no longer maps.
- VebKVLeaves.KVLeaf.Successor: when the answer is -1, the value returned is unspecified, where the source returns whatever it last read.
- VebKVLeaves.KVLeaf.GetValue: requires that x is not `min` unless the leaf holds one key. The source would return the stale `vals[min]`. Every caller passes only a cluster's `max`.
- VebKVLeaves.KVLeaf.Successor: at `veb_kv_cutoffWithLeafType.h:1010`, `:1018` and `:1023`, `std::make_pair(-1, nullptr);` is a statement whose value is discarded. Control goes on to the bitmap scan at `:1029-1038`. For an empty leaf, for x at or above `max`, and for a lone key, the scan finds no bit and yields `(-1, nullptr)` when x < 63. For x = 63 the shift by 64 is undefined. The model returns -1 at those points, which is what the scan yields below 63. Both internal callers (`:1437`, `:1449`) call `successor(l)` only when `l < maxLow`, so the tree never reaches these paths.
- VebK.KPools.InitThread: the source walks `kMap` in ascending key order. The model seeds the universes in an unspecified order, with the same resulting pools.
- VebK.KPools.InitThread: models the `kMap`/`kPool` half of `initThread` and the filing of `kvMap`. The `kvPool` loop is left out with the rest of the KV pools. The key-only class `VebKInternal` has no `initThread` of its own.
- Each bucket's linked list is modelled as the sequence of its entries, and linking a node in or out as splicing that sequence. In-place relinking of `next` fields and node allocation are not captured.
- The hash function `std::hash<K>` is a parameter of the table. `idxSize` is a constructor argument instead of a template constant.
- `Payload`, persistence, `recover`, the `MontageGraph` callers and the queue's `val`/`sn` persistent fields are not modelled. The queue's nodes hold the value and the serial number directly.
- RangeParser.ParseInt: Python's `\d` also matches non-ASCII decimal digits. The model accepts only `0`-`9`, the characters a thread-count argument uses.
- The `main` of `run.py`, the shell commands it builds and its command-line handling are not modelled.
- `print_tree` and the other debugging output are not modelled.
- NaiveVeb.NaiveNode.constructor: requires u >= 2. With `HTMvEBTreeRange == 1`, `divide_node(1)` gives one cluster of size 1. The constructor at `HTMvEBTree.hpp:96-112` would then build a node of universe 1 beneath it, and so on forever.

## Findings

| source | as written | input that shows it | evidently intended | confidence | as-written member | corrected member |
|---|---|---|---|---|---|---|
| src/rideables/HTMvEBTree.hpp:147-189 | in a node of universe 2, `inserted` is assigned only when x is below `min`; above it the function returns the uninitialised variable (the `inserted = true` at :185 is commented out) | `insert(1)` on the universe-2 node holding `{0}` | report true, since 1 was absent and is now a key | not executed | NaiveVeb.Base2InsertReportsGarbage | NaiveVeb.NaiveNode.Insert |
| src/rideables/veb_kv_cutoffWithLeafType/veb_kv_cutoffWithLeafType.h:1996-2030 | once `del` empties the max's cluster, the new `max` is `INDEX(summaryMax, PTR_TO_KLEAF(clusters[summaryMax])->max)` (`:2002`, `:2023`). `VebKVLeaf` keeps `max` at offset 16, but `VebKVInternal` keeps `summary` there, so for an internal cluster this reads the summary pointer | keys {0, 200, 300} in universe 2^14 (clusters of 128 are internal nodes), `del(300)`: cluster 1 holds only offset 72, so its summary is null, and `max` becomes `INDEX(1, 0)` = 128, which is not a key | read the cluster's `max` through its own kind, giving 200 | not executed | VebKV.DelReadsSummaryAsMax | VebKV.DelBelowCorrect |
| src/rideables/veb_kv_cutoffWithLeafType/veb_kv_cutoffWithLeafType.h:853-886 | the same read in the key-only `del` (`:859`, `:880`): `VebKLeaf` keeps `max` at offset 16, `VebKInternal` keeps `summary` there | a key-only node of universe 2^14 holding {0, 200, 300}, `del(300)`: the same read gives 128 | read the cluster's `max` through its own kind | not executed | VebK.LeafMaxWordOfLoneNode | VebK.KInternal.RecomputeMax |
