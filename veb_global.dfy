/**
 * Universe splitting shared by every van Emde Boas node: `divide_node`, the
 * `HIGH`/`LOW`/`INDEX` key decomposition and the pool constants.
 *
 * Universes are powers of two, `u == 2^p`; the floating-point `log2`, `floor`,
 * `ceil` and `pow` of the source are replaced by the integer exponent `p`.
 */
module VebGlobal {
  /** The `UniverseInfo` record. */
  datatype UniverseInfo = UniverseInfo(
    clusterSize: int,  // size of each cluster
    nClusters: int,    // number of clusters, the universe of the summary
    lowBits: int,
    highBits: int,
    lowMask: int)      // clusterSize - 1

  const Cutoff: int := 64
  const CutoffPower: int := 6
  const PointersPerPool: nat := 5
  const PoolGrowCoefficient: nat := 2

  function Pow2(n: nat): (r: nat)
    ensures r >= 1
  {
    if n == 0 then 1 else 2 * Pow2(n - 1)
  }

  predicate IsPow2(u: int)
    decreases if u > 0 then u else 0
  {
    u == 1 || (u > 1 && u % 2 == 0 && IsPow2(u / 2))
  }

  /** The exponent of a power of two (the source's `log2(u)`). */
  function Log2(u: int): (p: nat)
    requires IsPow2(u)
    ensures Pow2(p) == u
    decreases if u > 0 then u else 0
  {
    if u == 1 then 0 else 1 + Log2(u / 2)
  }

  lemma {:induction false} Pow2IsPow2(p: nat)
    ensures IsPow2(Pow2(p))
    ensures Log2(Pow2(p)) == p
  {
    if p > 0 {
      Pow2IsPow2(p - 1);
      assert Pow2(p) / 2 == Pow2(p - 1);
    }
  }

  lemma {:induction false} Pow2Add(a: nat, b: nat)
    ensures Pow2(a) * Pow2(b) == Pow2(a + b)
  {
    if a > 0 {
      Pow2Add(a - 1, b);
    }
  }

  lemma {:induction false} Pow2Monotone(a: nat, b: nat)
    requires a < b
    ensures Pow2(a) < Pow2(b)
  {
    if a + 1 < b {
      Pow2Monotone(a, b - 1);
    }
  }

  /** The record `divide_node` fills in from the two powers (`pow(2, ...)`). */
  function MakeInfo(lowerPower: nat, upperPower: nat): UniverseInfo
  {
    UniverseInfo(Pow2(lowerPower), Pow2(upperPower), lowerPower, upperPower, Pow2(lowerPower) - 1)
  }

  /** The two halves multiply back to the universe and are powers of two. */
  lemma MakeInfoSplits(lowerPower: nat, upperPower: nat)
    ensures MakeInfo(lowerPower, upperPower).clusterSize * MakeInfo(lowerPower, upperPower).nClusters
         == Pow2(lowerPower + upperPower)
    ensures IsPow2(MakeInfo(lowerPower, upperPower).clusterSize)
    ensures Log2(MakeInfo(lowerPower, upperPower).clusterSize) == lowerPower
    ensures IsPow2(MakeInfo(lowerPower, upperPower).nClusters)
    ensures Log2(MakeInfo(lowerPower, upperPower).nClusters) == upperPower
  {
    Pow2Add(lowerPower, upperPower);
    Pow2IsPow2(lowerPower);
    Pow2IsPow2(upperPower);
  }

  /** `divide_node` in the default build: `lowBits = floor(p/2)`, `highBits = ceil(p/2)`. */
  function DivideNode(u: int): (ui: UniverseInfo)
    requires IsPow2(u)
    ensures ui.lowBits + ui.highBits == Log2(u)
    ensures 0 <= ui.lowBits <= ui.highBits <= ui.lowBits + 1
    ensures ui.lowMask == ui.clusterSize - 1
  {
    var p := Log2(u);
    MakeInfo(p / 2, (p + 1) / 2)
  }

  /** `clusterSize * nClusters == u`, and both are powers of two. */
  lemma DivideNodeSplits(u: int)
    requires IsPow2(u)
    ensures DivideNode(u).clusterSize * DivideNode(u).nClusters == u
    ensures IsPow2(DivideNode(u).clusterSize) && Log2(DivideNode(u).clusterSize) == DivideNode(u).lowBits
    ensures IsPow2(DivideNode(u).nClusters) && Log2(DivideNode(u).nClusters) == DivideNode(u).highBits
  {
    var p := Log2(u);
    MakeInfoSplits(p / 2, (p + 1) / 2);
  }

  /** Above the cutoff a universe has exponent 7 or more. */
  lemma AboveCutoff(u: int)
    requires IsPow2(u) && u > Cutoff
    ensures Log2(u) >= 7
  {
    assert Pow2(6) == 64;
    if Log2(u) < 7 {
      Pow2Le(Log2(u), 6);
      assert false;
    }
  }

  lemma {:induction false} Pow2Le(a: nat, b: nat)
    requires a <= b
    ensures Pow2(a) <= Pow2(b)
  {
    if a < b {
      Pow2Le(a, b - 1);
    }
  }

  /** The split is proper above the cutoff: both halves are smaller than `u`. */
  lemma DivideNodeShrinks(u: int)
    requires IsPow2(u) && u > Cutoff
    ensures IsPow2(DivideNode(u).clusterSize) && IsPow2(DivideNode(u).nClusters)
    ensures 2 <= DivideNode(u).clusterSize < u && 2 <= DivideNode(u).nClusters < u
    ensures DivideNode(u).clusterSize <= DivideNode(u).nClusters
  {
    var ui := DivideNode(u);
    var p := Log2(u);
    DivideNodeSplits(u);
    AboveCutoff(u);
    Pow2Monotone(ui.highBits, p);
    Pow2Monotone(ui.lowBits, p);
    Pow2Monotone(0, ui.lowBits);
    if ui.lowBits < ui.highBits {
      Pow2Monotone(ui.lowBits, ui.highBits);
    }
  }

  /** A summary of an internal node's summary is
      smaller than the node's clusters once both are above the cutoff. */
  lemma SummaryOfSummarySmall(u: int)
    requires IsPow2(u) && u > Cutoff
    requires DivideNode(u).nClusters > Cutoff
    ensures IsPow2(DivideNode(u).nClusters)
    ensures DivideNode(DivideNode(u).nClusters).nClusters < DivideNode(u).clusterSize
  {
    var ui := DivideNode(u);
    DivideNodeSplits(u);
    var n := ui.nClusters;
    var vi := DivideNode(n);
    AboveCutoff(n);
    Pow2Monotone(vi.highBits, ui.lowBits);
  }

  // ---- the optional build flags of `divide_node` ----

  /** The `SHARD_24`, `FORCE_64_KV` and `FORCE_64_K` compile-time switches. */
  datatype BuildFlags = BuildFlags(shard24: bool, force64KV: bool, force64K: bool)

  /** The powers after the `FORCE_64_*` loop: `lower` grows toward the
      cutoff power as long as `upper` has something to give. */
  function Rebalanced(lower: int, upper: int, cutoffPower: int): int
  {
    if lower >= cutoffPower then lower
    else if lower + upper < cutoffPower then lower + upper
    else cutoffPower
  }

  /** Whether the `FORCE_64_*` loop runs for this kind of structure. */
  predicate Forcing(isKV: bool, flags: BuildFlags)
  {
    (flags.force64KV && isKV) || (flags.force64K && !isKV)
  }

  /** The lower power after the `SHARD_24` adjustment (or `floor(p/2)` without it). */
  function ShardedLower(p: nat, shard24: bool): (r: nat)
    ensures r <= p
  {
    if shard24 && p > 24 then 24
    else if shard24 && 12 < p < 24 then 12
    else p / 2
  }

  /** `divide_node` with the build flags made explicit. */
  method DivideNodeConfigured(u: int, cutoffPower: int, isKV: bool, flags: BuildFlags)
    returns (ui: UniverseInfo)
    requires IsPow2(u)
    ensures ui.lowBits >= 0 && ui.highBits >= 0
    ensures ui.lowBits == if Forcing(isKV, flags)
                          then Rebalanced(ShardedLower(Log2(u), flags.shard24), Log2(u) - ShardedLower(Log2(u), flags.shard24), cutoffPower)
                          else ShardedLower(Log2(u), flags.shard24)
    ensures ui.lowBits + ui.highBits == Log2(u)
    ensures ui.clusterSize * ui.nClusters == u
    ensures ui.lowMask == ui.clusterSize - 1
    ensures flags == BuildFlags(false, false, false) ==> ui == DivideNode(u)
    ensures Forcing(isKV, flags) ==> ui.lowBits >= cutoffPower || ui.highBits == 0
  {
    var powers := Log2(u);
    var lowerPower := powers / 2;
    var upperPower := (powers + 1) / 2;

    if flags.shard24 {
      if powers > 24 {
        lowerPower := 24;
        upperPower := powers - 24;
      } else if powers < 24 && powers > 12 {
        lowerPower := 12;
        upperPower := powers - 12;
      }
    }
    assert lowerPower == ShardedLower(powers, flags.shard24) && upperPower == powers - lowerPower;
    ghost var plain := !flags.shard24 && !Forcing(isKV, flags);
    assert plain ==> MakeInfo(lowerPower, upperPower) == DivideNode(u);

    if Forcing(isKV, flags) {
      ghost var lower0, upper0 := lowerPower, upperPower;
      while lowerPower < cutoffPower && upperPower > 0
        invariant lowerPower + upperPower == lower0 + upper0
        invariant upperPower >= 0
        invariant lower0 <= lowerPower
        invariant lower0 < cutoffPower ==> lowerPower <= cutoffPower
        invariant lower0 >= cutoffPower ==> lowerPower == lower0
        decreases upperPower
      {
        lowerPower := lowerPower + 1;
        upperPower := upperPower - 1;
      }
      assert lowerPower == Rebalanced(lower0, upper0, cutoffPower);
    }

    ui := MakeInfo(lowerPower, upperPower);
    assert ui.clusterSize * ui.nClusters == u by {
      MakeInfoSplits(lowerPower, upperPower);
    }
  }

  // ---- HIGH, LOW and INDEX in their bitwise form ----

  /** `x >> k` for non-negative x. */
  function ShiftRight(x: nat, k: nat): nat
  {
    if k == 0 then x else ShiftRight(x / 2, k - 1)
  }

  /** `c << k` for non-negative c (no overflow). */
  function ShiftLeft(c: nat, k: nat): nat
    decreases k
  {
    if k == 0 then c else ShiftLeft(2 * c, k - 1)
  }

  /** `x & ((1 << k) - 1)`: the lowest k bits of x. */
  function LowBitsOf(x: nat, k: nat): nat
  {
    if k == 0 then 0 else x % 2 + 2 * LowBitsOf(x / 2, k - 1)
  }

  /** `HIGH(x, ui)` is `x >> ui.lowBits`. */
  function High(x: nat, ui: UniverseInfo): nat
    requires ui.lowBits >= 0
  {
    ShiftRight(x, ui.lowBits)
  }

  /** `LOW(x, ui)` is `x & ui.lowMask`, the mask being `(1 << lowBits) - 1`. */
  function Low(x: nat, ui: UniverseInfo): nat
    requires ui.lowBits >= 0
  {
    LowBitsOf(x, ui.lowBits)
  }

  /** `INDEX(c, o, ui)` in the default build. */
  function Index(c: int, o: int, ui: UniverseInfo): int
  {
    c * ui.clusterSize + o
  }

  /** `INDEX(c, o, ui)` under `BITWISE_INDEX`. */
  function IndexBitwise(c: nat, o: int, ui: UniverseInfo): int
    requires ui.lowBits >= 0
  {
    ShiftLeft(c, ui.lowBits) + o
  }

  lemma DivUnique(x: int, d: int, q: int)
    requires d > 0 && d * q <= x < d * (q + 1)
    ensures x / d == q && x % d == x - d * q
  {
    var q' := x / d;
    assert d * q' <= x < d * (q' + 1);
    if q' < q {
      MulLe(d, q' + 1, q);
      assert false;
    } else if q' > q {
      MulLe(d, q + 1, q');
      assert false;
    }
  }

  lemma MulLe(d: nat, a: int, b: int)
    requires a <= b
    ensures d * a <= d * b
  {}

  lemma HalveThenDivide(x: nat, b: nat)
    requires b > 0
    ensures (x / 2) / b == x / (2 * b)
    ensures x % (2 * b) == x % 2 + 2 * ((x / 2) % b)
  {
    var z := x / 2;
    var w := z / b;
    DivUnique(z, b, w);
    DivUnique(x, 2, z);
    assert b * w + 1 <= b * (w + 1) by {
      assert b * (w + 1) == b * w + b;
    }
    assert (2 * b) * w <= x < (2 * b) * (w + 1) by {
      assert (2 * b) * w == 2 * (b * w);
      assert (2 * b) * (w + 1) == 2 * (b * (w + 1));
    }
    DivUnique(x, 2 * b, w);
    assert (2 * b) * w == 2 * (b * w);
  }

  lemma {:induction false} ShiftRightIsDiv(x: nat, k: nat)
    ensures ShiftRight(x, k) == x / Pow2(k)
  {
    if k > 0 {
      ShiftRightIsDiv(x / 2, k - 1);
      HalveThenDivide(x, Pow2(k - 1));
    }
  }

  lemma {:induction false} LowBitsIsMod(x: nat, k: nat)
    ensures LowBitsOf(x, k) == x % Pow2(k)
  {
    if k > 0 {
      LowBitsIsMod(x / 2, k - 1);
      HalveThenDivide(x, Pow2(k - 1));
    }
  }

  lemma {:induction false} ShiftLeftIsMul(c: nat, k: nat)
    ensures ShiftLeft(c, k) == c * Pow2(k)
    decreases k
  {
    if k > 0 {
      ShiftLeftIsMul(2 * c, k - 1);
    }
  }

  /** What a node relies on in its `UniverseInfo`: `clusterSize == 2^lowBits`,
      `lowMask == clusterSize - 1` and `clusterSize * nClusters == u`. */
  ghost predicate SplitOf(ui: UniverseInfo, u: int)
  {
    ui.lowBits >= 0 && ui.clusterSize == Pow2(ui.lowBits) && ui.nClusters >= 1
    && ui.clusterSize * ui.nClusters == u && ui.lowMask == ui.clusterSize - 1
  }

  lemma DivideNodeSplitOf(u: int)
    requires IsPow2(u)
    ensures SplitOf(DivideNode(u), u)
  {
    DivideNodeSplits(u);
  }

  /** The `BITWISE_INDEX` form agrees with the arithmetic one. */
  lemma IndexBitwiseAgrees(ui: UniverseInfo, u: int, c: nat, o: int)
    requires SplitOf(ui, u)
    ensures IndexBitwise(c, o, ui) == Index(c, o, ui)
  {
    ShiftLeftIsMul(c, ui.lowBits);
  }

  /** `HIGH` and `LOW` are the quotient and remainder by the cluster size. */
  lemma HighLowArith(ui: UniverseInfo, u: int, x: nat)
    requires SplitOf(ui, u)
    ensures High(x, ui) == x / ui.clusterSize
    ensures Low(x, ui) == x % ui.clusterSize
  {
    ShiftRightIsDiv(x, ui.lowBits);
    LowBitsIsMod(x, ui.lowBits);
  }

  lemma MulLeft(d: nat, a: int, b: int)
    requires a <= b
    ensures a * d <= b * d
  {}

  lemma DivModBounds(x: int, c: int, n: int)
    requires c > 0 && n > 0 && 0 <= x < c * n
    ensures 0 <= x / c < n && 0 <= x % c < c && (x / c) * c + x % c == x
  {
    if x / c >= n {
      MulLe(c, n, x / c);
      assert false;
    }
  }

  lemma ComposeArith(h: int, l: int, c: int, n: int, x: int)
    requires 0 <= h < n && 0 <= l < c && x == h * c + l
    ensures 0 <= x < c * n
    ensures x / c == h && x % c == l
  {
    MulLe(c, h + 1, n);
    DivUnique(x, c, h);
  }

  lemma OrderArith(h1: int, l1: int, h2: int, l2: int, c: int)
    requires 0 <= l1 < c && 0 <= l2 && h1 < h2
    ensures h1 * c + l1 < h2 * c + l2
  {
    MulLe(c, h1 + 1, h2);
  }

  /** For a key of the universe, `HIGH` names a cluster, `LOW` an offset in
      it, and `INDEX` puts them back together. */
  lemma Decompose(ui: UniverseInfo, u: int, x: int)
    requires SplitOf(ui, u) && 0 <= x < u
    ensures 0 <= High(x, ui) < ui.nClusters
    ensures 0 <= Low(x, ui) < ui.clusterSize
    ensures Index(High(x, ui), Low(x, ui), ui) == x
  {
    var hi, lo := High(x, ui), Low(x, ui);
    var c, n := ui.clusterSize, ui.nClusters;
    assert hi == x / c && lo == x % c by {
      HighLowArith(ui, u, x);
    }
    DivModBounds(x, c, n);
  }

  /** An offset inside cluster h decomposes back to (h, offset). */
  lemma Compose(ui: UniverseInfo, u: int, h: int, l: int)
    requires SplitOf(ui, u)
    requires 0 <= h < ui.nClusters && 0 <= l < ui.clusterSize
    ensures 0 <= Index(h, l, ui) < u
    ensures High(Index(h, l, ui), ui) == h
    ensures Low(Index(h, l, ui), ui) == l
  {
    var c, n := ui.clusterSize, ui.nClusters;
    var x := Index(h, l, ui);
    ComposeArith(h, l, c, n, x);
    HighLowArith(ui, u, x);
  }

  /** Keys of a lower cluster come before keys of a higher one. */
  lemma IndexOrder(ui: UniverseInfo, h1: int, l1: int, h2: int, l2: int)
    requires 0 <= l1 < ui.clusterSize && 0 <= l2 && h1 < h2
    ensures Index(h1, l1, ui) < Index(h2, l2, ui)
  {
    OrderArith(h1, l1, h2, l2, ui.clusterSize);
  }
}
