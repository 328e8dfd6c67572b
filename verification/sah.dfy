/** The recursive binned-SAH builder of src/SurfaceAreaHeuristic.cpp:
    `split_bvh_node` and `build_bvh`. Line numbers below refer to that file.

    A call on node `nodeIdx` computes the node's box over its triangles,
    then stops (the node stays a leaf) at the depth or size cut-off, when
    the centroids are flat along the chosen axis, when no boundary beats
    the leaf cost, or when the partition puts every triangle on one side;
    otherwise it partitions the node's index range, appends two children
    and recurses into both. */
module Sah {
  import opened Types
  import opened Aabb
  import opened Partition
  import opened Binning
  import opened BvhTree

  const MaxDepth: nat := 32
  const MinTrianglesPerLeaf: nat := 2

  /** One past the last index position of a node's range. */
  function RangeEnd(n: BvhNode): nat
  {
    n.leftFirst + n.triCount
  }

  /** Positions `[lo, hi)` of `idx` exist and hold triangle ids of `mesh`. */
  predicate IdsValid(mesh: seq<CachedTriangle>, idx: seq<nat>, lo: nat, hi: nat)
  {
    lo <= hi <= |idx| && forall k :: lo <= k < hi ==> idx[k] < |mesh|
  }

  /** The triangles referenced by positions `[lo, hi)`, in index order. */
  function RangeTris(mesh: seq<CachedTriangle>, idx: seq<nat>, lo: nat, hi: nat): (ts: seq<CachedTriangle>)
    requires IdsValid(mesh, idx, lo, hi)
    ensures |ts| == hi - lo
    ensures forall k :: 0 <= k < hi - lo ==> ts[k] == mesh[idx[lo + k]]
  {
    seq(hi - lo, k requires 0 <= k < hi - lo => mesh[idx[lo + k]])
  }

  /** Lines 49-55: the node box, grown from every triangle's local min and
      max in index order. */
  function TriangleBounds(ts: seq<CachedTriangle>): (b: Box)
    ensures forall k :: 0 <= k < |ts| ==> HoldsTriangle(b, ts[k])
    ensures |ts| > 0 ==> Proper(b)
    ensures |ts| == 0 ==> b == EmptyBox
  {
    if |ts| == 0 then EmptyBox
    else
      var prev := TriangleBounds(ts[..|ts| - 1]);
      var t := ts[|ts| - 1];
      GrowIsProper(prev, t.min);
      GrowIsProper(Grow(prev, t.min), t.max);
      var b := Grow(Grow(prev, t.min), t.max);
      WithinTrans(prev, Grow(prev, t.min), b);
      HoldsExtended(ts, ts[..|ts| - 1], prev, b);
      b
  }

  /** A box holding the triangles of a prefix, inside a box that also
      holds the last triangle, holds them all. */
  lemma HoldsExtended(ts: seq<CachedTriangle>, p: seq<CachedTriangle>, prev: Box, b: Box)
    requires |ts| > 0 && p == ts[..|ts| - 1]
    requires forall k :: 0 <= k < |p| ==> HoldsTriangle(prev, p[k])
    requires Within(prev, b) && HoldsTriangle(b, ts[|ts| - 1])
    ensures forall k :: 0 <= k < |ts| ==> HoldsTriangle(b, ts[k])
  {
    forall k | 0 <= k < |ts| ensures HoldsTriangle(b, ts[k]) {
      if k < |ts| - 1 {
        assert p[k] == ts[k];
      }
    }
  }

  /** The node box is the smallest box holding its triangles. */
  lemma {:induction false} TriangleBoundsLeast(ts: seq<CachedTriangle>, c: Box)
    requires forall k :: 0 <= k < |ts| ==> HoldsTriangle(c, ts[k])
    ensures Within(TriangleBounds(ts), c)
  {
    if |ts| > 0 {
      var p := ts[..|ts| - 1];
      forall k | 0 <= k < |p| ensures HoldsTriangle(c, p[k]) {
        assert p[k] == ts[k];
      }
      TriangleBoundsLeast(p, c);
    }
  }

  /** Lines 62-67: the box of the triangle centroids. */
  function CentroidBounds(ts: seq<CachedTriangle>): (b: Box)
    ensures forall k :: 0 <= k < |ts| ==> Inside(b, ts[k].centroid)
    ensures |ts| > 0 ==> Proper(b)
    ensures |ts| == 0 ==> b == EmptyBox
  {
    if |ts| == 0 then EmptyBox
    else
      var prev := CentroidBounds(ts[..|ts| - 1]);
      GrowIsProper(prev, ts[|ts| - 1].centroid);
      Grow(prev, ts[|ts| - 1].centroid)
  }

  /** The centroid box is the smallest box holding the centroids. */
  lemma {:induction false} CentroidBoundsLeast(ts: seq<CachedTriangle>, c: Box)
    requires forall k :: 0 <= k < |ts| ==> Inside(c, ts[k].centroid)
    ensures Within(CentroidBounds(ts), c)
  {
    if |ts| > 0 {
      var p := ts[..|ts| - 1];
      forall k | 0 <= k < |p| ensures Inside(c, p[k].centroid) {
        assert p[k] == ts[k];
      }
      CentroidBoundsLeast(p, c);
    }
  }

  /** Lines 69-74: the axis of greatest centroid extent, the lowest such
      axis on ties. */
  function ChooseAxis(cb: Box): (axis: Axis)
    ensures forall a: Axis :: Span(cb, a) <= Span(cb, axis)
    ensures forall a: Axis :: a < axis ==> Span(cb, a) < Span(cb, axis)
  {
    var ex, ey, ez := Span(cb, 0), Span(cb, 1), Span(cb, 2);
    var axis := if ey > ex then 1 else 0;
    if ez > ex && ez > ey then 2 else axis
  }

  /** The centroids of a range lie within the centroid box along any axis. */
  lemma {:induction false} CentroidsInBox(ts: seq<CachedTriangle>, axis: Axis)
    requires |ts| > 0
    ensures CentroidsIn(ts, axis, Coord(CentroidBounds(ts).min, axis), Span(CentroidBounds(ts), axis))
  {
  }

  /** Lines 136-143: the partition predicate sends a triangle left when its
      (doubly clamped) bin is at most the chosen boundary. */
  function GoesLeft(axis: Axis, cmin: int, ext: nat, boundary: int): CachedTriangle -> bool
  {
    (t: CachedTriangle) => PartitionBinIndex(Coord(t.centroid, axis), cmin, ext) <= boundary
  }

  /** A predicate on triangles lifted to triangle ids of `mesh`. */
  function OnMesh(mesh: seq<CachedTriangle>, p: CachedTriangle -> bool): nat -> bool
  {
    (i: nat) => i < |mesh| && p(mesh[i])
  }

  /** Lines 57-147: the decision `split_bvh_node` takes for the triangles
      `ts` of a node at depth `depth`. */
  function Decide(ts: seq<CachedTriangle>, depth: nat): (d: Decision)
    ensures d.Divide? ==> depth < MaxDepth && |ts| > MinTrianglesPerLeaf
    ensures d.Divide? ==> 0 < d.leftCount < |ts|
  {
    if depth >= MaxDepth || |ts| <= MinTrianglesPerLeaf then Stop(DepthOrSize)
    else
      var cb := CentroidBounds(ts);
      var axis := ChooseAxis(cb);
      var ext := Span(cb, axis);
      if (ext as real) < 0.0001 then Stop(FlatCentroids)
      else
        CentroidsInBox(ts, axis);
        DecideAlong(ts, axis, Coord(cb.min, axis), ext)
  }

  /** Lines 79-147: once the axis and the centroid range along it are
      fixed, bin the triangles, pick the cheapest boundary, and split there
      unless a leaf is as cheap or one side would be empty. */
  function DecideAlong(ts: seq<CachedTriangle>, axis: Axis, cmin: int, ext: nat): (d: Decision)
    requires CentroidsIn(ts, axis, cmin, ext)
    ensures d.Divide? ==> 0 < d.leftCount < |ts| && d.axis == axis && d.cmin == cmin && d.ext == ext
  {
    var choice := BestBoundary(Costs(Bins(ts, axis, cmin, ext)));
    if choice.minCost >= |ts| * SurfaceArea(TriangleBounds(ts)) then Stop(NoCheaperSplit)
    else
      var k := CountIf(ts, GoesLeft(axis, cmin, ext, choice.splitIdx));
      if k == 0 || k == |ts| then Stop(OneSided)
      else Divide(axis, cmin, ext, choice.splitIdx, choice.minCost, k)
  }

  /** A split agrees with the sweep that chose it: the centroids were
      binned along a non-flat axis, the boundary is a real one (never the
      `-1` sentinel), its cost is the sweep's cost there, the least of all
      15 and the first to reach it, and below the leaf cost; and the
      partition predicate puts on the left exactly as many triangles as the
      left sweep counted at that boundary, the rest going right. */
  lemma {:induction false} DivideAgreesWithSweep(ts: seq<CachedTriangle>, depth: nat)
    requires Decide(ts, depth).Divide?
    ensures var d := Decide(ts, depth);
      && d.axis == ChooseAxis(CentroidBounds(ts))
      && d.cmin == Coord(CentroidBounds(ts).min, d.axis)
      && d.ext == Span(CentroidBounds(ts), d.axis)
      && d.ext > 0 && CentroidsIn(ts, d.axis, d.cmin, d.ext)
      && 0 <= d.boundary < BvhBins - 1
      && var bins := Bins(ts, d.axis, d.cmin, d.ext);
      && d.cost == BoundaryCost(bins, d.boundary)
      && (forall j :: 0 <= j < BvhBins - 1 ==> d.cost <= BoundaryCost(bins, j))
      && (forall j :: 0 <= j < d.boundary ==> d.cost < BoundaryCost(bins, j))
      && d.cost < |ts| * SurfaceArea(TriangleBounds(ts))
      && d.leftCount == LeftCount(bins, d.boundary + 1)
      && |ts| - d.leftCount == RightCount(bins, d.boundary + 1)
  {
    var cb := CentroidBounds(ts);
    var axis := ChooseAxis(cb);
    var ext := Span(cb, axis);
    var cmin := Coord(cb.min, axis);
    CentroidsInBox(ts, axis);
    var bins := Bins(ts, axis, cmin, ext);
    var choice := BestBoundary(Costs(bins));
    var goesLeft := GoesLeft(axis, cmin, ext, choice.splitIdx);
    forall k | 0 <= k < |ts|
      ensures goesLeft(ts[k]) == BinBelow(axis, cmin, ext, choice.splitIdx + 1)(ts[k])
    {
      BinIndexInRange(Coord(ts[k].centroid, axis), cmin, ext);
    }
    CountIfSame(ts, goesLeft, BinBelow(axis, cmin, ext, choice.splitIdx + 1));
    NothingBelowFirstBin(ts, axis, cmin, ext);
    SweepCounts(ts, axis, cmin, ext, choice.splitIdx + 1);
  }

  /** Line 77: a node that passed the depth and size test stays a leaf
      for flat centroids exactly when all its centroids coincide, since the
      chosen axis has the widest spread and integer spreads below 0.0001
      are zero. */
  lemma {:induction false} FlatCentroidsStop(ts: seq<CachedTriangle>, depth: nat)
    ensures Decide(ts, depth) == Stop(FlatCentroids) <==>
      && depth < MaxDepth && |ts| > MinTrianglesPerLeaf
      && (forall k :: 0 <= k < |ts| ==> ts[k].centroid == ts[0].centroid)
  {
    if depth < MaxDepth && |ts| > MinTrianglesPerLeaf {
      var cb := CentroidBounds(ts);
      var axis := ChooseAxis(cb);
      var c := ts[0].centroid;
      if forall k :: 0 <= k < |ts| ==> ts[k].centroid == c {
        CentroidBoundsLeast(ts, Box(c, c));
        assert Span(cb, axis) == 0;
      }
      if Span(cb, axis) == 0 {
        assert forall a: Axis :: Span(cb, a) == 0;
        assert cb.min == cb.max;
      }
    }
  }

  /** The converse, along a fixed axis: the triangles are split at the
      first cheapest boundary `b` whenever that cost is below both the leaf
      cost and the `FLT_MAX` start value of the search, and the partition
      leaves neither side empty. */
  lemma {:induction false} DivideAlongWhenCheaper(ts: seq<CachedTriangle>, axis: Axis, cmin: int, ext: nat, b: nat)
    requires CentroidsIn(ts, axis, cmin, ext)
    requires b < BvhBins - 1
    requires var bins := Bins(ts, axis, cmin, ext);
      && (forall j :: 0 <= j < BvhBins - 1 ==> BoundaryCost(bins, b) <= BoundaryCost(bins, j))
      && (forall j :: 0 <= j < b ==> BoundaryCost(bins, b) < BoundaryCost(bins, j))
      && BoundaryCost(bins, b) < FloatMax
      && BoundaryCost(bins, b) < |ts| * SurfaceArea(TriangleBounds(ts))
    requires 0 < CountIf(ts, GoesLeft(axis, cmin, ext, b)) < |ts|
    ensures DecideAlong(ts, axis, cmin, ext)
      == Divide(axis, cmin, ext, b, BoundaryCost(Bins(ts, axis, cmin, ext), b),
                CountIf(ts, GoesLeft(axis, cmin, ext, b)))
  {
    var bins := Bins(ts, axis, cmin, ext);
    var costs := Costs(bins);
    var choice := BestBoundary(costs);
    assert costs[b] == BoundaryCost(bins, b);
    assert choice.splitIdx != -1;
    assert costs[choice.splitIdx] == BoundaryCost(bins, choice.splitIdx);
  }

  /** A node below the depth ceiling with more than two triangles and a
      non-flat centroid range along the chosen axis is decided by binning
      along that axis over that range. */
  lemma {:induction false} DecideBinsAlongAxis(ts: seq<CachedTriangle>, depth: nat)
    requires depth < MaxDepth && |ts| > MinTrianglesPerLeaf
    requires Span(CentroidBounds(ts), ChooseAxis(CentroidBounds(ts))) > 0
    ensures var cb := CentroidBounds(ts);
      var axis := ChooseAxis(cb);
      && CentroidsIn(ts, axis, Coord(cb.min, axis), Span(cb, axis))
      && Decide(ts, depth) == DecideAlong(ts, axis, Coord(cb.min, axis), Span(cb, axis))
  {
    CentroidsInBox(ts, ChooseAxis(CentroidBounds(ts)));
  }

  /** Every centroid lands in bin 0 or above, so the sentinel boundary
      `-1` would send nothing left. */
  lemma {:induction false} NothingBelowFirstBin(ts: seq<CachedTriangle>, axis: Axis, cmin: int, ext: nat)
    requires CentroidsIn(ts, axis, cmin, ext)
    ensures CountIf(ts, BinBelow(axis, cmin, ext, 0)) == 0
  {
    forall k | 0 <= k < |ts| ensures !BinBelow(axis, cmin, ext, 0)(ts[k]) {
      BinIndexInRange(Coord(ts[k].centroid, axis), cmin, ext);
    }
    CountIfAll(ts, BinBelow(axis, cmin, ext, 0), false);
  }

  /** `s` is exactly `{root}` together with the slots `[lo, hi)`. */
  predicate SlotsAre(s: set<nat>, root: nat, lo: nat, hi: nat)
  {
    && root in s
    && (forall j :: j in s ==> j == root || lo <= j < hi)
    && (forall j: nat :: lo <= j < hi ==> j in s)
  }

  /** The slots of a tree rooted at slot 0 whose other nodes fill `[1, n)`. */
  lemma RootSlots(s: set<nat>, n: nat)
    requires SlotsAre(s, 0, 1, n) && 1 <= n
    ensures forall j :: j in s <==> 0 <= j < n
  {
  }

  // ---------------------------------------------------------------------
  // Facts about index ranges used by the recursion.

  /** A permuted range still holds valid ids, on every sub-range. */
  lemma PermKeepsValid(mesh: seq<CachedTriangle>, a: seq<nat>, b: seq<nat>, lo: nat, hi: nat, lo': nat, hi': nat)
    requires IdsValid(mesh, a, lo, hi) && PermutesWithin(a, b, lo, hi)
    requires lo <= lo' <= hi' <= hi
    ensures IdsValid(mesh, b, lo', hi')
  {
    forall k | lo' <= k < hi' ensures b[k] < |mesh| {
      assert b[lo..hi][k - lo] == b[k];
      assert b[k] in multiset(a[lo..hi]);
      var m :| 0 <= m < hi - lo && a[lo..hi][m] == b[k];
      assert a[lo + m] == b[k];
    }
  }

  /** The node box of a range holds every triangle the range references. */
  lemma CoversBounds(mesh: seq<CachedTriangle>, idx: seq<nat>, lo: nat, hi: nat)
    requires IdsValid(mesh, idx, lo, hi)
    ensures Covers(TriangleBounds(RangeTris(mesh, idx, lo, hi)), mesh, idx, lo, hi)
  {
    var ts := RangeTris(mesh, idx, lo, hi);
    forall k | lo <= k < hi
      ensures idx[k] < |mesh| && HoldsTriangle(TriangleBounds(ts), mesh[idx[k]])
    {
      assert ts[k - lo] == mesh[idx[k]];
    }
  }

  lemma CoversPerm(b: Box, mesh: seq<CachedTriangle>, x: seq<nat>, y: seq<nat>, lo: nat, hi: nat)
    requires Covers(b, mesh, x, lo, hi) && hi <= |y| && multiset(y[lo..hi]) == multiset(x[lo..hi])
    ensures Covers(b, mesh, y, lo, hi)
  {
    forall k | lo <= k < hi
      ensures y[k] < |mesh| && HoldsTriangle(b, mesh[y[k]])
    {
      assert y[lo..hi][k - lo] == y[k];
      assert y[k] in multiset(x[lo..hi]);
      var m :| 0 <= m < hi - lo && x[lo..hi][m] == y[k];
      assert x[lo + m] == y[k];
    }
  }

  /** The node box of a sub-range lies in any box covering the whole range. */
  lemma ChildWithin(mesh: seq<CachedTriangle>, idx: seq<nat>, lo: nat, hi: nat, lo': nat, hi': nat, b: Box)
    requires Covers(b, mesh, idx, lo, hi) && lo <= lo' <= hi' <= hi
    requires IdsValid(mesh, idx, lo', hi')
    ensures Within(TriangleBounds(RangeTris(mesh, idx, lo', hi')), b)
  {
    var ts := RangeTris(mesh, idx, lo', hi');
    forall k | 0 <= k < |ts| ensures HoldsTriangle(b, ts[k]) {
      assert ts[k] == mesh[idx[lo' + k]];
    }
    TriangleBoundsLeast(ts, b);
  }

  /** Counting ids by a lifted predicate counts the referenced triangles. */
  lemma {:induction false} CountOnMesh(mesh: seq<CachedTriangle>, idx: seq<nat>, lo: nat, hi: nat, p: CachedTriangle -> bool)
    requires IdsValid(mesh, idx, lo, hi)
    ensures CountIf(idx[lo..hi], OnMesh(mesh, p)) == CountIf(RangeTris(mesh, idx, lo, hi), p)
    decreases hi - lo
  {
    if lo < hi {
      CountOnMesh(mesh, idx, lo + 1, hi, p);
      assert idx[lo..hi][1..] == idx[lo + 1..hi];
      assert RangeTris(mesh, idx, lo, hi)[1..] == RangeTris(mesh, idx, lo + 1, hi);
    }
  }

  lemma RangeTrisSame(mesh: seq<CachedTriangle>, x: seq<nat>, y: seq<nat>, lo: nat, hi: nat)
    requires IdsValid(mesh, x, lo, hi) && AgreeOn(x, y, lo, hi)
    ensures IdsValid(mesh, y, lo, hi)
    ensures RangeTris(mesh, y, lo, hi) == RangeTris(mesh, x, lo, hi)
  {
  }

  // ---------------------------------------------------------------------
  // The builder.

  /** The decision half of `split_bvh_node` (lines 57-147) for the node
      range `[lo, hi)`: returns `k = 0` when the node stays a leaf and the
      size of the left child otherwise; the index range comes back
      partitioned whenever the partition ran. */
  method PlanSplit(mesh: seq<CachedTriangle>, indices: seq<nat>, lo: nat, hi: nat, depth: nat, maxDepth: nat)
    returns (indices': seq<nat>, k: nat, maxDepth': nat)
    requires IdsValid(mesh, indices, lo, hi) && lo < hi
    ensures PermutesWithin(indices, indices', lo, hi)
    ensures k == 0 <==> Decide(RangeTris(mesh, indices, lo, hi), depth).Stop?
    ensures k == 0 ==> indices' == indices
    ensures k > 0 ==> k == Decide(RangeTris(mesh, indices, lo, hi), depth).leftCount
    ensures k > 0 ==>
      var d := Decide(RangeTris(mesh, indices, lo, hi), depth);
      && (forall i :: lo <= i < lo + k ==> OnMesh(mesh, GoesLeft(d.axis, d.cmin, d.ext, d.boundary))(indices'[i]))
      && (forall i :: lo + k <= i < hi ==> !OnMesh(mesh, GoesLeft(d.axis, d.cmin, d.ext, d.boundary))(indices'[i]))
    ensures maxDepth' == if depth < MaxDepth && hi - lo > MinTrianglesPerLeaf && depth > maxDepth then depth else maxDepth
  {
    var tc := hi - lo;
    var ts := RangeTris(mesh, indices, lo, hi);
    indices', k, maxDepth' := indices, 0, maxDepth;
    if depth >= MaxDepth || tc <= MinTrianglesPerLeaf {
      return;
    }
    if depth > maxDepth' {
      maxDepth' := depth;
    }

    var cb := CentroidBounds(ts);
    var axis := ChooseAxis(cb);
    var ext := Span(cb, axis);
    if (ext as real) < 0.0001 {
      return;
    }
    CentroidsInBox(ts, axis);
    indices', k := SplitAlong(mesh, indices, lo, hi, axis, Coord(cb.min, axis), ext);
  }

  /** Lines 79-147 on the node range `[lo, hi)`: bin, choose the boundary,
      and partition the ids unless a leaf is as cheap; `k` is the size of
      the left group, or 0 when the node stays a leaf. */
  method SplitAlong(mesh: seq<CachedTriangle>, indices: seq<nat>, lo: nat, hi: nat, axis: Axis, cmin: int, ext: nat)
    returns (indices': seq<nat>, k: nat)
    requires IdsValid(mesh, indices, lo, hi)
    requires CentroidsIn(RangeTris(mesh, indices, lo, hi), axis, cmin, ext)
    ensures PermutesWithin(indices, indices', lo, hi)
    ensures k == 0 <==> DecideAlong(RangeTris(mesh, indices, lo, hi), axis, cmin, ext).Stop?
    ensures k == 0 ==> indices' == indices
    ensures k > 0 ==> k == DecideAlong(RangeTris(mesh, indices, lo, hi), axis, cmin, ext).leftCount
    ensures k > 0 ==>
      var d := DecideAlong(RangeTris(mesh, indices, lo, hi), axis, cmin, ext);
      && (forall i :: lo <= i < lo + k ==> OnMesh(mesh, GoesLeft(axis, cmin, ext, d.boundary))(indices'[i]))
      && (forall i :: lo + k <= i < hi ==> !OnMesh(mesh, GoesLeft(axis, cmin, ext, d.boundary))(indices'[i]))
  {
    var tc := hi - lo;
    var ts := RangeTris(mesh, indices, lo, hi);
    indices', k := indices, 0;
    var bins := Bins(ts, axis, cmin, ext);
    var choice := BestBoundary(Costs(bins));
    if choice.minCost >= tc * SurfaceArea(TriangleBounds(ts)) {
      return;
    }

    var goesLeft := GoesLeft(axis, cmin, ext, choice.splitIdx);
    var mid;
    indices', mid := PartitionRange(indices, lo, hi, OnMesh(mesh, goesLeft));
    PartitionCount(indices, indices', lo, mid, hi, OnMesh(mesh, goesLeft));
    CountOnMesh(mesh, indices, lo, hi, goesLeft);
    if mid - lo == 0 || mid - lo == tc {
      return;
    }
    k := mid - lo;
  }

  /** Lines 149-165: append two default nodes, turn `nodeIdx` into an
      interior node pointing at the first, and give the children the two
      halves `[lo, lo + k)` and `[lo + k, lo + tc)` of its range. */
  function AddChildren(nodes: seq<BvhNode>, nodeIdx: nat, lo: nat, k: nat, tc: nat): (r: seq<BvhNode>)
    requires nodeIdx < |nodes| && k <= tc
    ensures |r| == |nodes| + 2
    ensures r[nodeIdx] == nodes[nodeIdx].(leftFirst := |nodes|, triCount := 0)
    ensures r[|nodes|] == DefaultNode.(leftFirst := lo, triCount := k)
    ensures r[|nodes| + 1] == DefaultNode.(leftFirst := lo + k, triCount := tc - k)
    ensures forall j :: 0 <= j < |nodes| && j != nodeIdx ==> r[j] == nodes[j]
  {
    var c := |nodes|;
    var grown := nodes + [DefaultNode, DefaultNode];
    var parent := grown[nodeIdx := grown[nodeIdx].(leftFirst := c, triCount := 0)];
    var left := parent[c := parent[c].(leftFirst := lo, triCount := k)];
    left[c + 1 := left[c + 1].(leftFirst := lo + k, triCount := tc - k)]
  }

  /** `s` is exactly the slots `[lo, hi)`. */
  predicate SlotsExactly(s: set<nat>, lo: nat, hi: nat)
  {
    && (forall j :: j in s ==> lo <= j < hi)
    && (forall j: nat :: lo <= j < hi ==> j in s)
  }

  /** The triangles a node saw when the builder reached it. */
  function SeenTris(mesh: seq<CachedTriangle>, t: Tree): (ts: seq<CachedTriangle>)
    requires IdsValid(mesh, t.seen, 0, |t.seen|)
    ensures |ts| == |t.seen|
  {
    RangeTris(mesh, t.seen, 0, |t.seen|)
  }

  /** `s` is a node of `t` and lies `sd` levels down, `t` itself lying
      `depth` levels down. */
  predicate IsNode(t: Tree, depth: nat, s: Tree, sd: nat)
  {
    || (s == t && sd == depth)
    || (t.Split? && (IsNode(t.left, depth + 1, s, sd) || IsNode(t.right, depth + 1, s, sd)))
  }

  /** Node `s`, `depth` levels down, records the decision `Decide` takes
      on the ids it saw. */
  ghost predicate DecidedAt(mesh: seq<CachedTriangle>, s: Tree, depth: nat)
  {
    IdsValid(mesh, s.seen, 0, |s.seen|) && s.d == Decide(SeenTris(mesh, s), depth)
  }

  /** Every id of `ids` goes left under division `d` when `left` holds,
      and none does otherwise. */
  predicate AllGo(mesh: seq<CachedTriangle>, d: Decision, ids: seq<nat>, left: bool)
    requires d.Divide?
  {
    forall i :: 0 <= i < |ids| ==> OnMesh(mesh, GoesLeft(d.axis, d.cmin, d.ext, d.boundary))(ids[i]) == left
  }

  /** Node `s` carries out the decision it records, with `idx` the final
      id array: its range in `idx` holds the ids it saw, in some order; a
      leaf records a stop; a divided node records a division, and its two
      children saw the ids it saw split by the chosen boundary, the left
      child exactly `leftCount` of them, all going left, the right child
      the rest, none going left. */
  ghost predicate CarriedAt(mesh: seq<CachedTriangle>, idx: seq<nat>, s: Tree)
  {
    && Lo(s) + |s.seen| == Hi(s) <= |idx|
    && multiset(idx[Lo(s)..Hi(s)]) == multiset(s.seen)
    && match s
    case Leaf(_, _, _, _, d) => d.Stop?
    case Split(_, l, r, seen, d) =>
      && d.Divide?
      && |l.seen| == d.leftCount
      && Hi(l) == Lo(r)
      && multiset(l.seen + r.seen) == multiset(seen)
      && AllGo(mesh, d, l.seen, true)
      && AllGo(mesh, d, r.seen, false)
  }

  /** Subtree `t`, rooted `depth` levels down, is the tree the binned SAH
      builds over the final id array `idx`: every node took the decision
      `Decide` takes on the ids it saw, and carried it out. */
  ghost predicate FollowsSah(mesh: seq<CachedTriangle>, idx: seq<nat>, t: Tree, depth: nat)
  {
    AllDecided(mesh, t, depth) && AllCarried(mesh, idx, t, depth)
  }

  /** Every node of `t` records the decision `Decide` takes on the ids it saw. */
  ghost predicate AllDecided(mesh: seq<CachedTriangle>, t: Tree, depth: nat)
  {
    forall s, sd | IsNode(t, depth, s, sd) :: DecidedAt(mesh, s, sd)
  }

  /** Every node of `t` carries out the decision it records. */
  ghost predicate AllCarried(mesh: seq<CachedTriangle>, idx: seq<nat>, t: Tree, depth: nat)
  {
    forall s, sd | IsNode(t, depth, s, sd) :: CarriedAt(mesh, idx, s)
  }

  /** The children of a node of `t` are nodes of `t`, one level deeper. */
  lemma {:induction false} NodesClosed(t: Tree, depth: nat, s: Tree, sd: nat)
    requires IsNode(t, depth, s, sd) && s.Split?
    ensures IsNode(t, depth, s.left, sd + 1) && IsNode(t, depth, s.right, sd + 1)
  {
    if !(s == t && sd == depth) {
      if IsNode(t.left, depth + 1, s, sd) {
        NodesClosed(t.left, depth + 1, s, sd);
      } else {
        NodesClosed(t.right, depth + 1, s, sd);
      }
    }
  }

  /** Both subtrees of an SAH tree are SAH trees one level deeper. */
  lemma FollowsChildren(mesh: seq<CachedTriangle>, idx: seq<nat>, t: Tree, depth: nat)
    requires FollowsSah(mesh, idx, t, depth) && t.Split?
    ensures FollowsSah(mesh, idx, t.left, depth + 1) && FollowsSah(mesh, idx, t.right, depth + 1)
  {
    forall s, sd | IsNode(t.left, depth + 1, s, sd) ensures DecidedAt(mesh, s, sd) && CarriedAt(mesh, idx, s) {
      assert IsNode(t, depth, s, sd);
    }
    forall s, sd | IsNode(t.right, depth + 1, s, sd) ensures DecidedAt(mesh, s, sd) && CarriedAt(mesh, idx, s) {
      assert IsNode(t, depth, s, sd);
    }
  }

  /** Every node of a tiled tree covers part of the root's range. */
  lemma {:induction false} NodesInRange(t: Tree, depth: nat)
    requires Tiled(t)
    ensures forall s, sd | IsNode(t, depth, s, sd) :: Lo(t) <= Lo(s) <= Hi(s) <= Hi(t)
  {
    if t.Split? {
      var l, r := t.left, t.right;
      NodesInRange(l, depth + 1);
      NodesInRange(r, depth + 1);
      assert IsNode(l, depth + 1, l, depth + 1) && IsNode(r, depth + 1, r, depth + 1);
    }
  }

  /** If positions `[lo, hi)` of `idx` hold the elements of `s` in some
      order, each of them goes left, or each does not, as every element of
      `s` does. */
  lemma AllInPerm(mesh: seq<CachedTriangle>, d: Decision, idx: seq<nat>, lo: nat, hi: nat, s: seq<nat>, left: bool)
    requires d.Divide? && lo <= hi <= |idx| && multiset(idx[lo..hi]) == multiset(s)
    requires AllGo(mesh, d, s, left)
    ensures AllGo(mesh, d, idx[lo..hi], left)
  {
    forall i | 0 <= i < hi - lo
      ensures OnMesh(mesh, GoesLeft(d.axis, d.cmin, d.ext, d.boundary))(idx[lo..hi][i]) == left
    {
      assert idx[lo..hi][i] in multiset(s);
    }
  }

  /** In every divided node `s` of an SAH tree, the final id array holds,
      in the left child's range, exactly `leftCount` ids that go left under
      the boundary `Decide` chose for the ids `s` saw and, in the right
      child's range, ids that do not: the partition at lines 136-143
      survives the reordering below. */
  lemma {:induction false} SplitSeparates(mesh: seq<CachedTriangle>, idx: seq<nat>, t: Tree, depth: nat, s: Tree, sd: nat)
    requires FollowsSah(mesh, idx, t, depth) && IsNode(t, depth, s, sd) && s.Split?
    ensures IdsValid(mesh, s.seen, 0, |s.seen|) && s.d == Decide(SeenTris(mesh, s), sd) && s.d.Divide?
    ensures Lo(s.left) <= Hi(s.left) == Lo(s.right) <= Hi(s.right) <= |idx|
    ensures Hi(s.left) - Lo(s.left) == s.d.leftCount
    ensures AllGo(mesh, s.d, idx[Lo(s.left)..Hi(s.left)], true)
    ensures AllGo(mesh, s.d, idx[Lo(s.right)..Hi(s.right)], false)
  {
    var l, r := s.left, s.right;
    NodesClosed(t, depth, s, sd);
    assert CarriedAt(mesh, idx, l) && CarriedAt(mesh, idx, r);
    AllInPerm(mesh, s.d, idx, Lo(l), Hi(l), l.seen, true);
    AllInPerm(mesh, s.d, idx, Lo(r), Hi(r), r.seen, false);
  }

  /** Whether the nodes of a tiled subtree carry out their decisions
      depends only on the id positions of its range. */
  lemma {:induction false} CarriedFrame(mesh: seq<CachedTriangle>, x: seq<nat>, y: seq<nat>, t: Tree, depth: nat)
    requires Tiled(t) && AllCarried(mesh, x, t, depth) && AgreeOn(x, y, Lo(t), Hi(t))
    ensures AllCarried(mesh, y, t, depth)
  {
    NodesInRange(t, depth);
    forall s, sd | IsNode(t, depth, s, sd) ensures CarriedAt(mesh, y, s) {
      assert y[Lo(s)..Hi(s)] == x[Lo(s)..Hi(s)];
    }
  }

  /** A range's ids taken out as a sequence of their own reference the
      same triangles. */
  lemma RangeTrisSlice(mesh: seq<CachedTriangle>, idx: seq<nat>, lo: nat, hi: nat)
    requires IdsValid(mesh, idx, lo, hi)
    ensures IdsValid(mesh, idx[lo..hi], 0, hi - lo)
    ensures RangeTris(mesh, idx[lo..hi], 0, hi - lo) == RangeTris(mesh, idx, lo, hi)
  {
  }

  /** Every node of `t` stores in its slot the bounds of the triangles it
      saw: the box lines 49-55 compute when the builder reaches it. */
  predicate BoxesExact(mesh: seq<CachedTriangle>, nodes: seq<BvhNode>, t: Tree)
    decreases t
  {
    && t.at < |nodes| && IdsValid(mesh, t.seen, 0, |t.seen|)
    && BoxOf(nodes[t.at]) == TriangleBounds(SeenTris(mesh, t))
    && (t.Split? ==> BoxesExact(mesh, nodes, t.left) && BoxesExact(mesh, nodes, t.right))
  }

  /** Exact boxes depend only on the subtree's slots. */
  lemma {:induction false} BoxesExactFrame(mesh: seq<CachedTriangle>, a: seq<BvhNode>, b: seq<BvhNode>, t: Tree)
    requires BoxesExact(mesh, a, t) && SameOn(a, b, Slots(t))
    ensures BoxesExact(mesh, b, t)
    decreases t
  {
    if t.Split? {
      BoxesExactFrame(mesh, a, b, t.left);
      BoxesExactFrame(mesh, a, b, t.right);
    }
  }

  /** Every node of a tree with exact boxes, at any depth, stores the
      bounds of the triangles it saw. */
  lemma {:induction false} BoxesExactAt(mesh: seq<CachedTriangle>, nodes: seq<BvhNode>, t: Tree, depth: nat, s: Tree, sd: nat)
    requires BoxesExact(mesh, nodes, t) && IsNode(t, depth, s, sd)
    ensures s.at < |nodes| && IdsValid(mesh, s.seen, 0, |s.seen|)
    ensures BoxOf(nodes[s.at]) == TriangleBounds(SeenTris(mesh, s))
    decreases t
  {
    if !(s == t && sd == depth) {
      if IsNode(t.left, depth + 1, s, sd) {
        BoxesExactAt(mesh, nodes, t.left, depth + 1, s, sd);
      } else {
        BoxesExactAt(mesh, nodes, t.right, depth + 1, s, sd);
      }
    }
  }

  /** The larger of two levels. */
  function Larger(a: int, b: int): int
  {
    if a < b then b else a
  }

  /** The deepest level, `t` itself lying `depth` levels down, at which a
      node of `t` got past the cut-off at line 57 (depth below 32, more
      than two triangles) and so reached the `max_depth` update at line
      60; -1 when no node did. */
  function DeepestPast(t: Tree, depth: nat): int
  {
    var own := if depth < MaxDepth && |t.seen| > MinTrianglesPerLeaf then depth else -1;
    match t
    case Leaf(_, _, _, _, _) => own
    case Split(_, l, r, _, _) => Larger(own, Larger(DeepestPast(l, depth + 1), DeepestPast(r, depth + 1)))
  }

  /** What `split_bvh_node` on node `nodeIdx` leaves behind, relating the
      index and node arrays before (`idx`, `nodes`) and after (`idx'`,
      `nodes'`) to the subtree `t` it built: `t` tiles the node's range,
      which now holds a permutation of its ids; the subtree occupies the
      node's slot and every appended slot, and is encoded there; nothing
      else in the array changed; every box of the subtree holds its range
      and its children's boxes. */
  ghost predicate Built(mesh: seq<CachedTriangle>, nodeIdx: nat, idx: seq<nat>, nodes: seq<BvhNode>,
                        idx': seq<nat>, nodes': seq<BvhNode>, t: Tree)
  {
    && nodeIdx < |nodes|
    && t.at == nodeIdx && Tiled(t)
    && Lo(t) == nodes[nodeIdx].leftFirst && Hi(t) == RangeEnd(nodes[nodeIdx])
    && IdsValid(mesh, idx, Lo(t), Hi(t))
    && PermutesWithin(idx, idx', Lo(t), Hi(t))
    && |nodes'| == |nodes| + Size(t) - 1
    && (forall j :: 0 <= j < |nodes| && j != nodeIdx ==> nodes'[j] == nodes[j])
    && SlotsAre(Slots(t), nodeIdx, |nodes|, |nodes'|)
    && Encodes(nodes', t)
    && BoxesNest(nodes', t, mesh, idx')
  }

  /** What building the two children appended at slots `c` and `c + 1`
      over `[lo, lo + k)` and `[lo + k, hi)` leaves behind. */
  ghost predicate ChildrenBuilt(mesh: seq<CachedTriangle>, c: nat, lo: nat, k: nat, hi: nat,
                                idx: seq<nat>, nodes: seq<BvhNode>, idx': seq<nat>, nodes': seq<BvhNode>,
                                tl: Tree, tr: Tree)
  {
    && lo <= lo + k <= hi
    && tl.at == c && Tiled(tl) && Lo(tl) == lo && Hi(tl) == lo + k
    && tr.at == c + 1 && Tiled(tr) && Lo(tr) == lo + k && Hi(tr) == hi
    && IdsValid(mesh, idx, lo, hi)
    && PermutesWithin(idx, idx', lo, hi)
    && |nodes'| == |nodes| + Size(tl) + Size(tr) - 2
    && Encodes(nodes', tl) && Encodes(nodes', tr)
    && c <= |nodes| && (forall j :: 0 <= j < c ==> nodes'[j] == nodes[j])
    && SlotsExactly(Slots(tl) + Slots(tr), c, |nodes'|)
    && BoxesNest(nodes', tl, mesh, idx') && BoxesNest(nodes', tr, mesh, idx')
  }

  /** `split_bvh_node`. The global `max_depth` is threaded through as
      `maxDepth`; the shape built below `nodeIdx` is returned as the ghost
      tree `t`. */
  method SplitNode(nodeIdx: nat, mesh: seq<CachedTriangle>, indices: seq<nat>, nodes: seq<BvhNode>, depth: nat, maxDepth: nat)
    returns (indices': seq<nat>, nodes': seq<BvhNode>, maxDepth': nat, ghost t: Tree)
    requires nodeIdx < |nodes| && nodes[nodeIdx].triCount >= 1
    requires IdsValid(mesh, indices, nodes[nodeIdx].leftFirst, RangeEnd(nodes[nodeIdx]))
    requires depth <= MaxDepth
    decreases MaxDepth - depth, 1
    ensures Built(mesh, nodeIdx, indices, nodes, indices', nodes', t)
    ensures BoxOf(nodes'[nodeIdx]) == TriangleBounds(RangeTris(mesh, indices, nodes[nodeIdx].leftFirst, RangeEnd(nodes[nodeIdx])))
    ensures var d := Decide(RangeTris(mesh, indices, nodes[nodeIdx].leftFirst, RangeEnd(nodes[nodeIdx])), depth);
      && (t.Split? <==> d.Divide?)
      && (t.Split? ==> Hi(t.left) == nodes[nodeIdx].leftFirst + d.leftCount)
    ensures depth + Height(t) <= MaxDepth
    ensures maxDepth <= maxDepth' <= (if maxDepth < MaxDepth - 1 then MaxDepth - 1 else maxDepth)
    ensures depth < MaxDepth && nodes[nodeIdx].triCount > MinTrianglesPerLeaf ==> depth <= maxDepth'
    ensures t.Split? ==> depth + Height(t) - 1 <= maxDepth'
    ensures FollowsSah(mesh, indices', t, depth)
    ensures t.seen == indices[nodes[nodeIdx].leftFirst..RangeEnd(nodes[nodeIdx])]
    ensures BoxesExact(mesh, nodes', t)
    ensures maxDepth' == Larger(maxDepth, DeepestPast(t, depth))
    ensures t.Leaf? ==> indices' == indices
  {
    hide Decide, AllDecided, AllCarried, BoxesExact, DeepestPast, Larger, TriangleBounds, Built, Encodes, BoxesNest, SlotsAre, SlotsExactly, Slots;
    var lo, tc := nodes[nodeIdx].leftFirst, nodes[nodeIdx].triCount;
    var hi := lo + tc;
    ghost var seen := indices[lo..hi];
    ghost var d := Decide(RangeTris(mesh, indices, lo, hi), depth);
    RangeTrisSlice(mesh, indices, lo, hi);
    var box := TriangleBounds(RangeTris(mesh, indices, lo, hi));
    CoversBounds(mesh, indices, lo, hi);
    nodes' := nodes[nodeIdx := nodes[nodeIdx].(aabbMin := box.min, aabbMax := box.max)];
    assert BoxOf(nodes'[nodeIdx]) == box;
    var k;
    indices', k, maxDepth' := PlanSplit(mesh, indices, lo, hi, depth, maxDepth);
    ghost var mid := maxDepth';
    CoversPerm(box, mesh, indices, indices', lo, hi);
    if k == 0 {
      t := Leaf(nodeIdx, lo, tc, seen, d);
      LeafBuilt(mesh, nodeIdx, indices, nodes, indices', nodes', box, seen, d);
      LeafFollows(mesh, t, depth, indices, indices');
      assert SeenTris(mesh, t) == RangeTris(mesh, indices, lo, hi);
      NodeExact(mesh, nodes', t, depth, maxDepth, maxDepth', maxDepth');
      return;
    }

    ghost var nodes0, idx0 := nodes', indices';
    var c := |nodes'|;
    nodes' := AddChildren(nodes', nodeIdx, lo, k, tc);
    PermKeepsValid(mesh, indices, indices', lo, hi, lo, hi);
    ghost var nodes1 := nodes';
    ghost var tl, tr;
    indices', nodes', maxDepth', tl, tr := SplitChildren(c, mesh, indices', nodes', lo, k, hi, depth, maxDepth', box);
    t := Split(nodeIdx, tl, tr, seen, d);
    ParentFacts(mesh, nodeIdx, lo, k, hi, box, indices, nodes, idx0, nodes1, indices', nodes', tl, tr, seen, d);
    SplitDepths(nodeIdx, depth, maxDepth', tl, tr, seen, d);
    SahParent(mesh, nodeIdx, lo, k, hi, depth, indices, idx0, indices', tl, tr);
    assert SeenTris(mesh, t) == RangeTris(mesh, indices, lo, hi);
    NodeExact(mesh, nodes', t, depth, maxDepth, mid, maxDepth');
  }

  /** A node's own box and `max_depth` step, together with its children's
      (when it has any), give the whole subtree's. `mid` is `max_depth`
      after the node's own check at lines 57-60. */
  lemma NodeExact(mesh: seq<CachedTriangle>, nodes: seq<BvhNode>, t: Tree, depth: nat, maxDepth: nat, mid: int, maxDepth': int)
    requires t.at < |nodes| && IdsValid(mesh, t.seen, 0, |t.seen|)
    requires BoxOf(nodes[t.at]) == TriangleBounds(SeenTris(mesh, t))
    requires mid == if depth < MaxDepth && |t.seen| > MinTrianglesPerLeaf && depth > maxDepth then depth else maxDepth
    requires t.Leaf? ==> maxDepth' == mid
    requires t.Split? ==> BoxesExact(mesh, nodes, t.left) && BoxesExact(mesh, nodes, t.right)
    requires t.Split? ==> maxDepth' == Larger(Larger(mid, DeepestPast(t.left, depth + 1)), DeepestPast(t.right, depth + 1))
    ensures BoxesExact(mesh, nodes, t)
    ensures maxDepth' == Larger(maxDepth, DeepestPast(t, depth))
  {
  }

  /** A node that stays a leaf keeps its range and gets the box of its
      triangles. */
  lemma LeafBuilt(mesh: seq<CachedTriangle>, nodeIdx: nat, idx: seq<nat>, nodes: seq<BvhNode>,
                  idx': seq<nat>, nodes': seq<BvhNode>, box: Box, seen: seq<nat>, d: Decision)
    requires nodeIdx < |nodes| && nodes[nodeIdx].triCount >= 1
    requires IdsValid(mesh, idx, nodes[nodeIdx].leftFirst, RangeEnd(nodes[nodeIdx]))
    requires nodes' == nodes[nodeIdx := nodes[nodeIdx].(aabbMin := box.min, aabbMax := box.max)]
    requires PermutesWithin(idx, idx', nodes[nodeIdx].leftFirst, RangeEnd(nodes[nodeIdx]))
    requires Covers(box, mesh, idx', nodes[nodeIdx].leftFirst, RangeEnd(nodes[nodeIdx]))
    ensures Built(mesh, nodeIdx, idx, nodes, idx', nodes', Leaf(nodeIdx, nodes[nodeIdx].leftFirst, nodes[nodeIdx].triCount, seen, d))
  {
  }

  /** A node that `PlanSplit` kept as a leaf follows the SAH. */
  lemma LeafFollows(mesh: seq<CachedTriangle>, t: Tree, depth: nat, idx0: seq<nat>, idx1: seq<nat>)
    requires t.Leaf? && IdsValid(mesh, idx0, t.first, t.first + t.count)
    requires t.seen == idx0[t.first..t.first + t.count] && t.d == Decide(RangeTris(mesh, idx0, t.first, t.first + t.count), depth)
    requires PermutesWithin(idx0, idx1, t.first, t.first + t.count)
    requires t.d.Stop?
    ensures FollowsSah(mesh, idx1, t, depth)
  {
    hide Decide;
    var lo, hi := t.first, t.first + t.count;
    RangeTrisSlice(mesh, idx0, lo, hi);
    assert SeenTris(mesh, t) == RangeTris(mesh, idx0, lo, hi);
  }

  /** The depth bounds of a divided node follow from its children's. */
  lemma {:induction false} SplitDepths(at: nat, depth: nat, maxDepth': nat, tl: Tree, tr: Tree, seen: seq<nat>, d: Decision)
    requires depth + 1 + Height(tl) <= MaxDepth && depth + 1 + Height(tr) <= MaxDepth
    requires depth <= maxDepth'
    requires tl.Split? ==> depth + Height(tl) <= maxDepth'
    requires tr.Split? ==> depth + Height(tr) <= maxDepth'
    ensures depth + Height(Split(at, tl, tr, seen, d)) <= MaxDepth
    ensures depth + Height(Split(at, tl, tr, seen, d)) - 1 <= maxDepth'
  {
  }

  /** Lines 167-168: build the two children appended at slots `c` and
      `c + 1`, the left one first, one level deeper. `box` is the parent's
      box, which covers both children's ranges. */
  method SplitChildren(c: nat, mesh: seq<CachedTriangle>, indices: seq<nat>, nodes: seq<BvhNode>,
                       lo: nat, k: nat, hi: nat, depth: nat, maxDepth: nat, ghost box: Box)
    returns (indices': seq<nat>, nodes': seq<BvhNode>, maxDepth': nat, ghost tl: Tree, ghost tr: Tree)
    requires c + 2 == |nodes|
    requires nodes[c].leftFirst == lo && nodes[c].triCount == k
    requires nodes[c + 1].leftFirst == lo + k && nodes[c + 1].triCount == hi - (lo + k)
    requires 0 < k < hi - lo && IdsValid(mesh, indices, lo, hi) && Covers(box, mesh, indices, lo, hi)
    requires depth < MaxDepth
    decreases MaxDepth - depth, 0
    ensures ChildrenBuilt(mesh, c, lo, k, hi, indices, nodes, indices', nodes', tl, tr)
    ensures Within(BoxOf(nodes'[c]), box) && Within(BoxOf(nodes'[c + 1]), box)
    ensures depth + 1 + Height(tl) <= MaxDepth && depth + 1 + Height(tr) <= MaxDepth
    ensures maxDepth <= maxDepth' <= (if maxDepth < MaxDepth - 1 then MaxDepth - 1 else maxDepth)
    ensures tl.Split? ==> depth + Height(tl) <= maxDepth'
    ensures tr.Split? ==> depth + Height(tr) <= maxDepth'
    ensures FollowsSah(mesh, indices', tl, depth + 1) && FollowsSah(mesh, indices', tr, depth + 1)
    ensures tl.seen == indices[lo..lo + k] && tr.seen == indices[lo + k..hi]
    ensures BoxesExact(mesh, nodes', tl) && BoxesExact(mesh, nodes', tr)
    ensures maxDepth' == Larger(Larger(maxDepth, DeepestPast(tl, depth + 1)), DeepestPast(tr, depth + 1))
  {
    hide Decide, AllDecided, AllCarried, BoxesExact, DeepestPast, Larger, Encodes, BoxesNest, SlotsAre, SlotsExactly, Slots;
    PermKeepsValid(mesh, indices, indices, lo, hi, lo, lo + k);
    ghost var idx1 := indices;
    indices', nodes', maxDepth', tl := SplitChild(c, mesh, indices, nodes, depth + 1, maxDepth, box);
    ghost var nodes2, idx2 := nodes', indices';
    RightReady(mesh, c, lo, k, hi, box, idx1, nodes, idx2, nodes2, tl);
    assert tl.seen == idx1[lo..lo + k];
    assert nodes2[c + 1].leftFirst == lo + k && RangeEnd(nodes2[c + 1]) == hi;
    indices', nodes', maxDepth', tr := SplitChild(c + 1, mesh, indices', nodes', depth + 1, maxDepth', box);
    assert tr.seen == idx1[lo + k..hi];
    ChildrenFacts(mesh, c, lo, k, hi, idx1, nodes, idx2, nodes2, indices', nodes', tl, tr);
    LeftSubtreeKept(mesh, c, lo, k, hi, depth + 1, idx2, nodes2, indices', nodes', tl, tr);
  }

  /** Building the right child leaves the left subtree's decisions and
      boxes as they were. */
  lemma {:induction false} LeftSubtreeKept(mesh: seq<CachedTriangle>, c: nat, lo: nat, k: nat, hi: nat, depth: nat,
                        idx2: seq<nat>, nodes2: seq<BvhNode>, idx3: seq<nat>, nodes3: seq<BvhNode>, tl: Tree, tr: Tree)
    requires Tiled(tl) && Lo(tl) == lo && Hi(tl) == lo + k
    requires FollowsSah(mesh, idx2, tl, depth) && BoxesExact(mesh, nodes2, tl)
    requires c + 2 <= |nodes2| && SlotsAre(Slots(tl), c, c + 2, |nodes2|)
    requires nodes2[c + 1].leftFirst == lo + k && RangeEnd(nodes2[c + 1]) == hi
    requires Built(mesh, c + 1, idx2, nodes2, idx3, nodes3, tr)
    ensures FollowsSah(mesh, idx3, tl, depth) && BoxesExact(mesh, nodes3, tl)
  {
    LeftFollowsKept(mesh, lo, k, hi, depth, idx2, idx3, tl);
    LeftExactKept(mesh, c, nodes2, nodes3, tl);
  }

  /** Building the right child leaves the left subtree's boxes exact. */
  lemma {:induction false} LeftExactKept(mesh: seq<CachedTriangle>, c: nat, nodes2: seq<BvhNode>, nodes3: seq<BvhNode>, tl: Tree)
    requires BoxesExact(mesh, nodes2, tl) && SlotsAre(Slots(tl), c, c + 2, |nodes2|)
    requires |nodes2| <= |nodes3| && forall j :: 0 <= j < |nodes2| && j != c + 1 ==> nodes3[j] == nodes2[j]
    ensures BoxesExact(mesh, nodes3, tl)
  {
    assert SameOn(nodes2, nodes3, Slots(tl));
    BoxesExactFrame(mesh, nodes2, nodes3, tl);
  }

  /** One recursive `split_bvh_node` call on a child whose range `box`
      covers, stating only what its parent needs: the built subtree, its
      box inside `box`, and the depth bounds. */
  method SplitChild(at: nat, mesh: seq<CachedTriangle>, indices: seq<nat>, nodes: seq<BvhNode>,
                    depth: nat, maxDepth: nat, ghost box: Box)
    returns (indices': seq<nat>, nodes': seq<BvhNode>, maxDepth': nat, ghost t: Tree)
    requires at < |nodes| && nodes[at].triCount >= 1
    requires IdsValid(mesh, indices, nodes[at].leftFirst, RangeEnd(nodes[at]))
    requires Covers(box, mesh, indices, nodes[at].leftFirst, RangeEnd(nodes[at]))
    requires depth <= MaxDepth
    decreases MaxDepth - depth, 2
    ensures Built(mesh, at, indices, nodes, indices', nodes', t)
    ensures Within(BoxOf(nodes'[at]), box)
    ensures depth + Height(t) <= MaxDepth
    ensures maxDepth <= maxDepth' <= (if maxDepth < MaxDepth - 1 then MaxDepth - 1 else maxDepth)
    ensures t.Split? ==> depth + Height(t) - 1 <= maxDepth'
    ensures FollowsSah(mesh, indices', t, depth)
    ensures t.seen == indices[nodes[at].leftFirst..RangeEnd(nodes[at])]
    ensures BoxesExact(mesh, nodes', t)
    ensures maxDepth' == Larger(maxDepth, DeepestPast(t, depth))
  {
    ChildWithin(mesh, indices, nodes[at].leftFirst, RangeEnd(nodes[at]), nodes[at].leftFirst, RangeEnd(nodes[at]), box);
    indices', nodes', maxDepth', t := SplitNode(at, mesh, indices, nodes, depth, maxDepth);
  }

  /** After the left child is built, the right child's node and index
      range are as they were. */
  lemma RightReady(mesh: seq<CachedTriangle>, c: nat, lo: nat, k: nat, hi: nat, box: Box,
                   idx1: seq<nat>, nodes1: seq<BvhNode>, idx2: seq<nat>, nodes2: seq<BvhNode>, tl: Tree)
    requires c + 2 == |nodes1| && 0 < k < hi - lo
    requires nodes1[c].leftFirst == lo && nodes1[c].triCount == k
    requires IdsValid(mesh, idx1, lo, hi) && Covers(box, mesh, idx1, lo, hi)
    requires Built(mesh, c, idx1, nodes1, idx2, nodes2, tl)
    ensures c + 1 < |nodes2| && nodes2[c + 1] == nodes1[c + 1]
    ensures IdsValid(mesh, idx2, lo + k, hi) && Covers(box, mesh, idx2, lo + k, hi)
    ensures idx2[lo + k..hi] == idx1[lo + k..hi]
  {
    TiledCounts(tl);
    assert AgreeOn(idx1, idx2, lo + k, hi);
  }

  /** Building the right child over `[lo + k, hi)` leaves the left
      subtree following the SAH. */
  lemma {:induction false} LeftFollowsKept(mesh: seq<CachedTriangle>, lo: nat, k: nat, hi: nat, depth: nat,
                        idx2: seq<nat>, idx3: seq<nat>, tl: Tree)
    requires Tiled(tl) && FollowsSah(mesh, idx2, tl, depth) && Lo(tl) == lo && Hi(tl) == lo + k
    requires PermutesWithin(idx2, idx3, lo + k, hi)
    ensures FollowsSah(mesh, idx3, tl, depth)
  {
    assert AgreeOn(idx2, idx3, lo, lo + k);
    CarriedFrame(mesh, idx2, idx3, tl, depth);
  }

  /** The two children's slot sets make up exactly the slots from `c` on. */
  lemma {:induction false} ChildrenSlots(c: nat, n1: nat, n2: nat, n3: nat, tl: Tree, tr: Tree)
    requires c + 2 == n1 <= n2 <= n3
    requires SlotsAre(Slots(tl), c, n1, n2) && SlotsAre(Slots(tr), c + 1, n2, n3)
    ensures SlotsExactly(Slots(tl) + Slots(tr), c, n3)
  {
    forall j: nat | c <= j < n3 ensures j in Slots(tl) + Slots(tr) {
      if j == c || (c + 2 <= j < n2) {
        assert j in Slots(tl);
      } else {
        assert j in Slots(tr);
      }
    }
  }

  /** Building the right child leaves the left subtree intact. */
  lemma {:induction false} LeftKept(mesh: seq<CachedTriangle>, c: nat, lo: nat, k: nat, hi: nat,
                 idx2: seq<nat>, nodes2: seq<BvhNode>, idx3: seq<nat>, nodes3: seq<BvhNode>, tl: Tree)
    requires tl.at == c && Tiled(tl) && Lo(tl) == lo && Hi(tl) == lo + k && lo + k <= hi
    requires Encodes(nodes2, tl) && BoxesNest(nodes2, tl, mesh, idx2)
    requires SlotsAre(Slots(tl), c, c + 2, |nodes2|)
    requires |nodes2| <= |nodes3| && forall j :: 0 <= j < |nodes2| && j != c + 1 ==> nodes3[j] == nodes2[j]
    requires PermutesWithin(idx2, idx3, lo + k, hi)
    ensures Encodes(nodes3, tl) && BoxesNest(nodes3, tl, mesh, idx3)
  {
    assert SameOn(nodes2, nodes3, Slots(tl));
    EncodesFrame(nodes2, nodes3, tl);
    assert AgreeOn(idx2, idx3, lo, lo + k);
    BoxesNestFrame(nodes2, nodes3, tl, mesh, idx2, idx3);
  }

  /** Permuting `[lo, mid)` and then `[mid, hi)` permutes `[lo, hi)`. */
  lemma PermutesAdjacent(x: seq<nat>, y: seq<nat>, z: seq<nat>, lo: nat, mid: nat, hi: nat)
    requires PermutesWithin(x, y, lo, mid) && PermutesWithin(y, z, mid, hi)
    ensures PermutesWithin(x, z, lo, hi)
  {
    PermutesWithinWiden(x, y, lo, hi, lo, mid);
    PermutesWithinWiden(y, z, lo, hi, mid, hi);
    PermutesWithinTrans(x, y, z, lo, hi);
  }

  /** What the two recursive calls of `SplitChildren` leave behind, combined. */
  lemma ChildrenFacts(mesh: seq<CachedTriangle>, c: nat, lo: nat, k: nat, hi: nat,
                      idx1: seq<nat>, nodes1: seq<BvhNode>, idx2: seq<nat>, nodes2: seq<BvhNode>,
                      idx3: seq<nat>, nodes3: seq<BvhNode>, tl: Tree, tr: Tree)
    requires c + 2 == |nodes1| && 0 < k < hi - lo
    requires nodes1[c].leftFirst == lo && nodes1[c].triCount == k
    requires nodes1[c + 1].leftFirst == lo + k && nodes1[c + 1].triCount == hi - (lo + k)
    requires IdsValid(mesh, idx1, lo, hi)
    requires Built(mesh, c, idx1, nodes1, idx2, nodes2, tl)
    requires c + 1 < |nodes2| && nodes2[c + 1] == nodes1[c + 1]
    requires Built(mesh, c + 1, idx2, nodes2, idx3, nodes3, tr)
    ensures nodes3[c] == nodes2[c]
    ensures ChildrenBuilt(mesh, c, lo, k, hi, idx1, nodes1, idx3, nodes3, tl, tr)
  {
    hide PermutesWithin, IdsValid, Encodes, BoxesNest, SlotsAre, SlotsExactly, Slots, Size;
    PermutesAdjacent(idx1, idx2, idx3, lo, lo + k, hi);
    TiledCounts(tl);
    TiledCounts(tr);
    ChildrenSlots(c, |nodes1|, |nodes2|, |nodes3|, tl, tr);
    LeftKept(mesh, c, lo, k, hi, idx2, nodes2, idx3, nodes3, tl);
  }

  /** A divided node's box holds its range and its children's boxes. */
  lemma {:induction false} ParentNest(mesh: seq<CachedTriangle>, nodeIdx: nat, lo: nat, hi: nat, box: Box,
                   idx1: seq<nat>, idx3: seq<nat>, nodes3: seq<BvhNode>, tl: Tree, tr: Tree, seen: seq<nat>, d: Decision)
    requires Covers(box, mesh, idx1, lo, hi) && PermutesWithin(idx1, idx3, lo, hi)
    requires nodeIdx < |nodes3| && BoxOf(nodes3[nodeIdx]) == box
    requires Lo(tl) == lo && Hi(tr) == hi && tl.at < |nodes3| && tr.at < |nodes3|
    requires Within(BoxOf(nodes3[tl.at]), box) && Within(BoxOf(nodes3[tr.at]), box)
    requires BoxesNest(nodes3, tl, mesh, idx3) && BoxesNest(nodes3, tr, mesh, idx3)
    ensures BoxesNest(nodes3, Split(nodeIdx, tl, tr, seen, d), mesh, idx3)
  {
    CoversPerm(box, mesh, idx1, idx3, lo, hi);
    NestIntro(nodes3, nodeIdx, tl, tr, seen, d, mesh, idx3);
  }

  /** A divided node's slot with its children's slots: the node itself
      and everything appended after it. */
  lemma {:induction false} ParentSlots(at: nat, n0: nat, n3: nat, tl: Tree, tr: Tree, seen: seq<nat>, d: Decision)
    requires at < n0 && SlotsExactly(Slots(tl) + Slots(tr), n0, n3)
    ensures SlotsAre(Slots(Split(at, tl, tr, seen, d)), at, n0, n3)
  {
    forall j: nat | n0 <= j < n3 ensures j in Slots(Split(at, tl, tr, seen, d)) {
      assert j in Slots(tl) + Slots(tr);
    }
  }

  /** The node `SplitNode` divides: it encodes the two children, its box
      holds theirs, and its slot with theirs makes up the subtree. */
  lemma ParentFacts(mesh: seq<CachedTriangle>, nodeIdx: nat, lo: nat, k: nat, hi: nat, box: Box,
                    idx0: seq<nat>, nodes0: seq<BvhNode>, idx1: seq<nat>, nodes1: seq<BvhNode>,
                    idx3: seq<nat>, nodes3: seq<BvhNode>, tl: Tree, tr: Tree, seen: seq<nat>, d: Decision)
    requires nodeIdx < |nodes0| && 0 < k < hi - lo
    requires nodes0[nodeIdx].leftFirst == lo && RangeEnd(nodes0[nodeIdx]) == hi
    requires IdsValid(mesh, idx0, lo, hi) && PermutesWithin(idx0, idx1, lo, hi)
    requires IdsValid(mesh, idx1, lo, hi) && Covers(box, mesh, idx1, lo, hi)
    requires |nodes1| == |nodes0| + 2
    requires nodes1[nodeIdx].leftFirst == |nodes0| && nodes1[nodeIdx].triCount == 0 && BoxOf(nodes1[nodeIdx]) == box
    requires forall j :: 0 <= j < |nodes0| && j != nodeIdx ==> nodes1[j] == nodes0[j]
    requires ChildrenBuilt(mesh, |nodes0|, lo, k, hi, idx1, nodes1, idx3, nodes3, tl, tr)
    requires Within(BoxOf(nodes3[|nodes0|]), box) && Within(BoxOf(nodes3[|nodes0| + 1]), box)
    ensures Built(mesh, nodeIdx, idx0, nodes0, idx3, nodes3, Split(nodeIdx, tl, tr, seen, d))
    ensures BoxOf(nodes3[nodeIdx]) == box
  {
    PermutesWithinTrans(idx0, idx1, idx3, lo, hi);
    assert nodes3[nodeIdx] == nodes1[nodeIdx];
    ParentSlots(nodeIdx, |nodes0|, |nodes3|, tl, tr, seen, d);
    ParentNest(mesh, nodeIdx, lo, hi, box, idx1, idx3, nodes3, tl, tr, seen, d);
  }

  /** A node that `PlanSplit` divided, with children that follow the SAH
      over the two halves of its partitioned range, follows the SAH. */
  lemma {:induction false} SahParent(mesh: seq<CachedTriangle>, at: nat, lo: nat, k: nat, hi: nat, depth: nat,
                  idx0: seq<nat>, idx1: seq<nat>, idx3: seq<nat>, tl: Tree, tr: Tree)
    requires IdsValid(mesh, idx0, lo, hi) && 0 < k < hi - lo
    requires PermutesWithin(idx0, idx1, lo, hi) && PermutesWithin(idx0, idx3, lo, hi)
    requires var d := Decide(RangeTris(mesh, idx0, lo, hi), depth);
      && d.Divide? && k == d.leftCount
      && (forall i :: lo <= i < lo + k ==> OnMesh(mesh, GoesLeft(d.axis, d.cmin, d.ext, d.boundary))(idx1[i]))
      && (forall i :: lo + k <= i < hi ==> !OnMesh(mesh, GoesLeft(d.axis, d.cmin, d.ext, d.boundary))(idx1[i]))
    requires Lo(tl) == lo && Hi(tr) == hi
    requires tl.seen == idx1[lo..lo + k] && tr.seen == idx1[lo + k..hi]
    requires FollowsSah(mesh, idx3, tl, depth + 1) && FollowsSah(mesh, idx3, tr, depth + 1)
    ensures FollowsSah(mesh, idx3, Split(at, tl, tr, idx0[lo..hi], Decide(RangeTris(mesh, idx0, lo, hi), depth)), depth)
  {
    var t := Split(at, tl, tr, idx0[lo..hi], Decide(RangeTris(mesh, idx0, lo, hi), depth));
    RangeTrisSlice(mesh, idx0, lo, hi);
    assert SeenTris(mesh, t) == RangeTris(mesh, idx0, lo, hi);
    DecidedParent(mesh, t, depth);
    CarriedParent(mesh, idx0, idx1, idx3, t, depth, lo, k, hi);
  }

  /** A divided node that records its own decision, over children that
      record theirs, records the decision at every node. */
  lemma DecidedParent(mesh: seq<CachedTriangle>, t: Tree, depth: nat)
    requires t.Split? && DecidedAt(mesh, t, depth)
    requires AllDecided(mesh, t.left, depth + 1) && AllDecided(mesh, t.right, depth + 1)
    ensures AllDecided(mesh, t, depth)
  {
    forall s, sd | IsNode(t, depth, s, sd) ensures DecidedAt(mesh, s, sd) {
      if !(s == t && sd == depth) {
        assert IsNode(t.left, depth + 1, s, sd) || IsNode(t.right, depth + 1, s, sd);
      }
    }
  }

  /** A divided node whose range was partitioned by its division (`idx1`)
      and whose children saw the two halves and carry out their own
      decisions carries out its decision at every node. */
  lemma CarriedParent(mesh: seq<CachedTriangle>, idx0: seq<nat>, idx1: seq<nat>, idx3: seq<nat>, t: Tree, depth: nat,
                      lo: nat, k: nat, hi: nat)
    requires t.Split? && t.d.Divide? && k == t.d.leftCount && 0 < k < hi - lo
    requires PermutesWithin(idx0, idx1, lo, hi) && PermutesWithin(idx0, idx3, lo, hi)
    requires t.seen == idx0[lo..hi]
    requires forall i :: lo <= i < lo + k ==> OnMesh(mesh, GoesLeft(t.d.axis, t.d.cmin, t.d.ext, t.d.boundary))(idx1[i])
    requires forall i :: lo + k <= i < hi ==> !OnMesh(mesh, GoesLeft(t.d.axis, t.d.cmin, t.d.ext, t.d.boundary))(idx1[i])
    requires Lo(t.left) == lo && Hi(t.right) == hi
    requires t.left.seen == idx1[lo..lo + k] && t.right.seen == idx1[lo + k..hi]
    requires AllCarried(mesh, idx3, t.left, depth + 1) && AllCarried(mesh, idx3, t.right, depth + 1)
    ensures AllCarried(mesh, idx3, t, depth)
  {
    var tl, tr, d := t.left, t.right, t.d;
    assert IsNode(tl, depth + 1, tl, depth + 1) && IsNode(tr, depth + 1, tr, depth + 1);
    assert tl.seen + tr.seen == idx1[lo..hi];
    forall i | 0 <= i < |tl.seen|
      ensures OnMesh(mesh, GoesLeft(d.axis, d.cmin, d.ext, d.boundary))(tl.seen[i])
    {
      assert tl.seen[i] == idx1[lo + i];
    }
    forall i | 0 <= i < |tr.seen|
      ensures !OnMesh(mesh, GoesLeft(d.axis, d.cmin, d.ext, d.boundary))(tr.seen[i])
    {
      assert tr.seen[i] == idx1[lo + k + i];
    }
    assert CarriedAt(mesh, idx3, t);
    forall s, sd | IsNode(t, depth, s, sd) ensures CarriedAt(mesh, idx3, s) {
      if !(s == t && sd == depth) {
        assert IsNode(tl, depth + 1, s, sd) || IsNode(tr, depth + 1, s, sd);
      }
    }
  }

  // ---------------------------------------------------------------------
  // Building the whole hierarchy.

  /** The identity id list `[0, n)`. */
  function Iota(n: nat): seq<nat>
  {
    seq(n, i => i)
  }

  /** Lines 176-179: resize the id array to `n`, keeping what fits and
      padding with zeros, then overwrite every position with its own
      number; whatever the array held before, it ends as the identity. */
  method FillIds(outIndices: seq<nat>, n: nat) returns (ids: seq<nat>)
    ensures |ids| == n
    ensures forall i :: 0 <= i < n ==> ids[i] == i
  {
    ids := if |outIndices| >= n then outIndices[..n] else outIndices + seq(n - |outIndices|, _ => 0);
    var i := 0;
    while i < n
      invariant i <= n && |ids| == n
      invariant forall j :: 0 <= j < i ==> ids[j] == j
    {
      ids := ids[i := i];
      i := i + 1;
    }
  }

  /** Over the identity id list, a range's triangles are the mesh's own. */
  lemma RangeTrisIota(mesh: seq<CachedTriangle>)
    ensures IdsValid(mesh, Iota(|mesh|), 0, |mesh|)
    ensures RangeTris(mesh, Iota(|mesh|), 0, |mesh|) == mesh
  {
  }

  /** Lines 171-192: `build_bvh`. An empty mesh leaves both output arrays
      as they were. Otherwise the id array is reset to `0, 1, ..., n - 1`,
      the node array to a single root owning all of it, and the root is
      split recursively from depth 0. The result is a permutation of the
      ids and a node array that encodes one tiled tree over all of them,
      every slot of which is a node of the tree, with nested boxes, the
      root's box the mesh's bounds, at most `2n - 1` nodes, and a height
      within the depth limit; `maxDepth` is the deepest level at which a
      node was considered for splitting. */
  method BuildBvh(mesh: seq<CachedTriangle>, outIndices: seq<nat>, outNodes: seq<BvhNode>)
    returns (indices: seq<nat>, nodes: seq<BvhNode>, maxDepth: nat, ghost t: Tree)
    ensures |mesh| == 0 ==> indices == outIndices && nodes == outNodes && maxDepth == 0
    ensures |mesh| > 0 ==>
      && PermutesWithin(Iota(|mesh|), indices, 0, |mesh|)
      && IdsValid(mesh, indices, 0, |mesh|)
      && t.at == 0 && Tiled(t) && Lo(t) == 0 && Hi(t) == |mesh|
      && Encodes(nodes, t) && BoxesNest(nodes, t, mesh, indices)
      && |nodes| == Size(t) <= 2 * |mesh| - 1
      && (forall j :: j in Slots(t) <==> 0 <= j < |nodes|)
      && BoxOf(nodes[0]) == TriangleBounds(mesh)
      && Height(t) <= MaxDepth
      && maxDepth < MaxDepth
      && (t.Split? ==> Height(t) - 1 <= maxDepth)
      && FollowsSah(mesh, indices, t, 0) && t.seen == Iota(|mesh|)
      && (t.Split? <==> Decide(mesh, 0).Divide?)
      && BoxesExact(mesh, nodes, t)
      && maxDepth == Larger(0, DeepestPast(t, 0))
      && (t.Leaf? ==> indices == Iota(|mesh|))
  {
    hide Decide, AllDecided, AllCarried, Encodes, BoxesNest, BoxesExact, DeepestPast, Larger, SlotsAre, Built;
    maxDepth := 0;
    indices, nodes := outIndices, outNodes;
    t := Leaf(0, 0, 0, [], Stop(DepthOrSize));
    if |mesh| == 0 {
      return;
    }
    indices := FillIds(outIndices, |mesh|);
    assert indices == Iota(|mesh|);
    nodes := [DefaultNode.(leftFirst := 0, triCount := |mesh|)];
    RangeTrisIota(mesh);
    ghost var idx0, nodes0 := indices, nodes;
    indices, nodes, maxDepth, t := SplitNode(0, mesh, indices, nodes, 0, maxDepth);
    RootBuilt(mesh, idx0, nodes0, indices, nodes, t);
  }

  /** What `SplitNode` leaves behind at the root of a fresh one-node
      array over the identity ids, in the terms `BuildBvh` promises. */
  lemma {:induction false} RootBuilt(mesh: seq<CachedTriangle>, idx0: seq<nat>, nodes0: seq<BvhNode>,
                                     indices: seq<nat>, nodes: seq<BvhNode>, t: Tree)
    requires |mesh| > 0 && idx0 == Iota(|mesh|) && nodes0 == [DefaultNode.(leftFirst := 0, triCount := |mesh|)]
    requires Built(mesh, 0, idx0, nodes0, indices, nodes, t)
    ensures && PermutesWithin(Iota(|mesh|), indices, 0, |mesh|)
      && IdsValid(mesh, indices, 0, |mesh|)
      && t.at == 0 && Tiled(t) && Lo(t) == 0 && Hi(t) == |mesh|
      && Encodes(nodes, t) && BoxesNest(nodes, t, mesh, indices)
      && |nodes| == Size(t) <= 2 * |mesh| - 1
      && (forall j :: j in Slots(t) <==> 0 <= j < |nodes|)
  {
    hide Encodes, BoxesNest;
    TiledCounts(t);
    RootSlots(Slots(t), |nodes|);
    PermKeepsValid(mesh, idx0, indices, 0, |mesh|, 0, |mesh|);
  }
}
