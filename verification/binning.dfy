/** Binned SAH split search: the 16 centroid bins, the left and right
    prefix sweeps of count and box, the 15 boundary costs and the choice
    of the cheapest boundary (src/SurfaceAreaHeuristic.cpp, whose line
    numbers the comments below cite). */
module Binning {
  import opened Types
  import opened Aabb
  import opened Partition

  const BvhBins: int := 16

  /** Per-bin accumulator: a box and the number of triangles binned. */
  datatype Bin = Bin(min: U16Vec3, max: U16Vec3, count: nat)

  const EmptyBin: Bin := Bin(EmptyBox.min, EmptyBox.max, 0)

  /** `static_cast<int>` of a real: truncation toward zero. */
  function Trunc(r: real): int
  {
    if r >= 0.0 then r.Floor else -((-r).Floor)
  }

  /** `BVH_BINS / (axisExtent + 0.1f)`, computed exactly. */
  function Scale(ext: nat): real
  {
    16.0 / (ext as real + 0.1)
  }

  /** Bin of a centroid coordinate in the binning pass: `min(15, int(d * scale))`. */
  function BinIndex(val: int, cmin: int, ext: nat): int
  {
    var i := Trunc((val - cmin) as real * Scale(ext));
    if i < BvhBins - 1 then i else BvhBins - 1
  }

  /** Bin of a centroid coordinate in the partition predicate, which also
      clamps from below: `min(15, max(0, int(d * scale)))`. */
  function PartitionBinIndex(val: int, cmin: int, ext: nat): int
  {
    var i := Trunc((val - cmin) as real * Scale(ext));
    var j := if i < 0 then 0 else i;
    if j < BvhBins - 1 then j else BvhBins - 1
  }

  lemma ScaledBelowBins(d: real, e: real)
    requires 0.0 <= d <= e
    ensures 0.0 <= d * (16.0 / (e + 0.1)) < 16.0
  {
    var s := 16.0 / (e + 0.1);
    var es, ds, ts := e * s, d * s, 0.1 * s;
    assert s > 0.0;
    assert ds <= es;
    assert es + ts == 16.0;
    assert ts > 0.0;
    assert d * (16.0 / (e + 0.1)) == ds;
  }

  /** For a centroid inside the centroid box the bin index lies in
      `[0, 15]`, the clamp to the last bin never fires in exact arithmetic,
      and the partition predicate computes the same bin as the binning pass. */
  lemma BinIndexInRange(val: int, cmin: int, ext: nat)
    requires cmin <= val <= cmin + ext
    ensures 0 <= BinIndex(val, cmin, ext) < BvhBins
    ensures BinIndex(val, cmin, ext) == Trunc((val - cmin) as real * Scale(ext))
    ensures PartitionBinIndex(val, cmin, ext) == BinIndex(val, cmin, ext)
  {
    var d := (val - cmin) as real;
    var x := d * Scale(ext);
    ScaledBelowBins(d, ext as real);
    assert x == d * (16.0 / (ext as real + 0.1));
    assert 0.0 <= x < 16.0;
    assert Trunc(x) == x.Floor <= 15;
  }

  /** All centroids of `ts` lie in `[cmin, cmin + ext]` along `axis`. */
  predicate CentroidsIn(ts: seq<CachedTriangle>, axis: Axis, cmin: int, ext: nat)
  {
    forall k :: 0 <= k < |ts| ==> cmin <= Coord(ts[k].centroid, axis) <= cmin + ext
  }

  function BinOf(t: CachedTriangle, axis: Axis, cmin: int, ext: nat): int
  {
    BinIndex(Coord(t.centroid, axis), cmin, ext)
  }

  /** Lines 88-90: the count goes up, `min` grows from the triangle's local
      min, and `max` is passed as both corners of `grow_bounds`, so it ends
      equal to the triangle's local max. */
  function AddToBin(bin: Bin, t: CachedTriangle): (r: Bin)
    ensures r.count == bin.count + 1
    ensures LessEq(r.min, bin.min) && LessEq(r.min, t.min)
    ensures r.max == t.max
  {
    var grown := Grow(Box(bin.min, bin.max), t.min);
    Bin(grown.min, GrowAliased(grown.max, t.max), bin.count + 1)
  }

  /** The bins after the binning loop has visited `ts` in order. */
  function Bins(ts: seq<CachedTriangle>, axis: Axis, cmin: int, ext: nat): (bins: seq<Bin>)
    requires CentroidsIn(ts, axis, cmin, ext)
    ensures |bins| == BvhBins
    ensures forall b :: 0 <= b < BvhBins ==> bins[b].count <= |ts|
  {
    if |ts| == 0 then seq(BvhBins, _ => EmptyBin)
    else
      var bins := Bins(ts[..|ts| - 1], axis, cmin, ext);
      var t := ts[|ts| - 1];
      var b := BinOf(t, axis, cmin, ext);
      BinIndexInRange(Coord(t.centroid, axis), cmin, ext);
      bins[b := AddToBin(bins[b], t)]
  }

  function InBin(axis: Axis, cmin: int, ext: nat, b: int): CachedTriangle -> bool
  {
    t => BinOf(t, axis, cmin, ext) == b
  }

  /** What the binning pass leaves in bin `b`: its count is the number of
      triangles whose centroid falls in it, its `min` lies below every such
      triangle's local min, its `max` is the local max of the LAST such
      triangle (not a running maximum), and an untouched bin stays empty. */
  lemma {:induction false} BinContents(ts: seq<CachedTriangle>, axis: Axis, cmin: int, ext: nat, b: int)
    requires CentroidsIn(ts, axis, cmin, ext) && 0 <= b < BvhBins
    ensures var bin := Bins(ts, axis, cmin, ext)[b];
      && bin.count == CountIf(ts, InBin(axis, cmin, ext, b))
      && (bin.count == 0 ==> bin == EmptyBin)
      && (forall k :: 0 <= k < |ts| && BinOf(ts[k], axis, cmin, ext) == b ==> LessEq(bin.min, ts[k].min))
      && (forall k :: (0 <= k < |ts| && BinOf(ts[k], axis, cmin, ext) == b &&
                      (forall k' :: k < k' < |ts| ==> BinOf(ts[k'], axis, cmin, ext) != b)) ==> bin.max == ts[k].max)
  {
    if |ts| > 0 {
      var p := ts[..|ts| - 1];
      var t := ts[|ts| - 1];
      assert CentroidsIn(p, axis, cmin, ext) by {
        forall k | 0 <= k < |p| ensures cmin <= Coord(p[k].centroid, axis) <= cmin + ext {
          assert p[k] == ts[k];
        }
      }
      BinContents(p, axis, cmin, ext, b);
      var old_ := Bins(p, axis, cmin, ext)[b];
      var bin := Bins(ts, axis, cmin, ext)[b];
      BinIndexInRange(Coord(t.centroid, axis), cmin, ext);
      assert ts == p + [t];
      CountIfAppend(p, [t], InBin(axis, cmin, ext, b));
      CountIfSingle(t, InBin(axis, cmin, ext, b));
      forall k | 0 <= k < |ts| && BinOf(ts[k], axis, cmin, ext) == b
        ensures LessEq(bin.min, ts[k].min)
      {
        if k < |p| {
          assert ts[k] == p[k];
          if BinOf(t, axis, cmin, ext) == b {
            assert Within(Box(old_.min, old_.max), Grow(Box(old_.min, old_.max), t.min));
          }
        }
      }
      forall k | 0 <= k < |ts| && BinOf(ts[k], axis, cmin, ext) == b &&
          (forall k' :: k < k' < |ts| ==> BinOf(ts[k'], axis, cmin, ext) != b)
        ensures bin.max == ts[k].max
      {
        if k < |p| {
          assert ts[k] == p[k];
          assert BinOf(ts[|ts| - 1], axis, cmin, ext) != b;
          forall k' | k < k' < |p| ensures BinOf(p[k'], axis, cmin, ext) != b {
            assert p[k'] == ts[k'];
          }
        }
      }
    }
  }

  /** Component `a` of a grown box's min is the smaller of the old min's
      and the point's. */
  lemma GrowMinComponent(b: Box, q: U16Vec3, a: Axis)
    ensures Coord(Grow(b, q).min, a) == MinU(Coord(b.min, a), Coord(q, a))
  {
  }

  /** The bound on a bin's `min` in `BinContents` is attained: on every
      axis, a non-empty bin's min is the local min of one of its own
      triangles, so it is exactly the componentwise minimum over them. */
  lemma {:induction false} BinMinAttained(ts: seq<CachedTriangle>, axis: Axis, cmin: int, ext: nat, b: int, a: Axis)
      returns (k: nat)
    requires CentroidsIn(ts, axis, cmin, ext) && 0 <= b < BvhBins
    requires Bins(ts, axis, cmin, ext)[b].count > 0
    ensures k < |ts| && BinOf(ts[k], axis, cmin, ext) == b
    ensures Coord(Bins(ts, axis, cmin, ext)[b].min, a) == Coord(ts[k].min, a)
  {
    var p := ts[..|ts| - 1];
    var t := ts[|ts| - 1];
    assert CentroidsIn(p, axis, cmin, ext) by {
      forall j | 0 <= j < |p| ensures cmin <= Coord(p[j].centroid, axis) <= cmin + ext {
        assert p[j] == ts[j];
      }
    }
    var old_ := Bins(p, axis, cmin, ext)[b];
    var bin := Bins(ts, axis, cmin, ext)[b];
    BinIndexInRange(Coord(t.centroid, axis), cmin, ext);
    if BinOf(t, axis, cmin, ext) != b {
      assert bin == old_;
      k := BinMinAttained(p, axis, cmin, ext, b, a);
      assert ts[k] == p[k];
    } else {
      assert bin.min == Grow(Box(old_.min, old_.max), t.min).min;
      GrowMinComponent(Box(old_.min, old_.max), t.min, a);
      if old_.count == 0 {
        BinContents(p, axis, cmin, ext, b);
        k := |ts| - 1;
      } else if Coord(t.min, a) < Coord(old_.min, a) {
        k := |ts| - 1;
      } else {
        k := BinMinAttained(p, axis, cmin, ext, b, a);
        assert ts[k] == p[k];
      }
    }
  }

  /** Lines 100-103 / 112-115: a non-empty bin grows the running box by
      both of its corners; an empty bin leaves it alone. */
  function Accumulate(acc: Box, bin: Bin): Box
  {
    if bin.count > 0 then Grow(Grow(acc, bin.min), bin.max) else acc
  }

  /** Running box of the left sweep after bins `0 .. n-1`. */
  function LeftBox(bins: seq<Bin>, n: nat): Box
    requires n <= |bins|
  {
    if n == 0 then EmptyBox else Accumulate(LeftBox(bins, n - 1), bins[n - 1])
  }

  /** Running count of the left sweep after bins `0 .. n-1`. */
  function LeftCount(bins: seq<Bin>, n: nat): nat
    requires n <= |bins|
  {
    if n == 0 then 0 else LeftCount(bins, n - 1) + bins[n - 1].count
  }

  /** Running box of the right sweep, which visits bins from the last one
      down to bin `n`. */
  function RightBox(bins: seq<Bin>, n: nat): Box
    requires n <= |bins|
    decreases |bins| - n
  {
    if n == |bins| then EmptyBox else Accumulate(RightBox(bins, n + 1), bins[n])
  }

  /** Running count of the right sweep over bins `n ..`. */
  function RightCount(bins: seq<Bin>, n: nat): nat
    requires n <= |bins|
    decreases |bins| - n
  {
    if n == |bins| then 0 else RightCount(bins, n + 1) + bins[n].count
  }

  /** `c` holds both corners of every non-empty bin in `lo .. hi-1`. */
  predicate HoldsBins(c: Box, bins: seq<Bin>, lo: nat, hi: nat)
    requires lo <= hi <= |bins|
  {
    forall i :: lo <= i < hi && bins[i].count > 0 ==> Inside(c, bins[i].min) && Inside(c, bins[i].max)
  }

  /** The left sweep's box after bins `0 .. n-1` is exactly the smallest
      box holding both corners of each non-empty bin among them: it holds
      them, and it lies inside every box that does. */
  lemma {:induction false} LeftBoxLeast(bins: seq<Bin>, n: nat, c: Box)
    requires n <= |bins|
    ensures HoldsBins(LeftBox(bins, n), bins, 0, n)
    ensures HoldsBins(c, bins, 0, n) ==> Within(LeftBox(bins, n), c)
  {
    if n > 0 {
      LeftBoxLeast(bins, n - 1, c);
      var prev := LeftBox(bins, n - 1);
      AccumulateFacts(prev, bins[n - 1], c);
    }
  }

  /** The right sweep's box over bins `n ..` is exactly the smallest box
      holding both corners of each non-empty bin among them. */
  lemma {:induction false} RightBoxLeast(bins: seq<Bin>, n: nat, c: Box)
    requires n <= |bins|
    ensures HoldsBins(RightBox(bins, n), bins, n, |bins|)
    ensures HoldsBins(c, bins, n, |bins|) ==> Within(RightBox(bins, n), c)
    decreases |bins| - n
  {
    if n < |bins| {
      RightBoxLeast(bins, n + 1, c);
      var prev := RightBox(bins, n + 1);
      AccumulateFacts(prev, bins[n], c);
    }
  }

  /** One sweep step keeps every point it held, takes in both corners of a
      non-empty bin, and stays inside any box holding the old box and
      those corners. */
  lemma AccumulateFacts(acc: Box, bin: Bin, c: Box)
    ensures Within(acc, Accumulate(acc, bin))
    ensures bin.count > 0 ==> Inside(Accumulate(acc, bin), bin.min) && Inside(Accumulate(acc, bin), bin.max)
    ensures Within(acc, c) && (bin.count > 0 ==> Inside(c, bin.min) && Inside(c, bin.max)) ==> Within(Accumulate(acc, bin), c)
  {
    if bin.count > 0 {
      var g := Grow(acc, bin.min);
      if Within(acc, c) && Inside(c, bin.min) && Inside(c, bin.max) {
        GrowLeast(acc, bin.min, c);
        GrowLeast(g, bin.max, c);
      }
    }
  }

  /** `k` is the last triangle of `ts` binned where it is. */
  predicate LastInBin(ts: seq<CachedTriangle>, axis: Axis, cmin: int, ext: nat, k: nat)
    requires k < |ts|
  {
    forall k' :: k < k' < |ts| ==> BinOf(ts[k'], axis, cmin, ext) != BinOf(ts[k], axis, cmin, ext)
  }

  /** What the left sweep's box says about the triangles themselves: its
      min lies below the local min of every triangle binned below `n`, but
      its max only has to cover the local max of the LAST triangle of each
      of those bins, because of the aliased `grow_bounds` at line 90. */
  lemma {:induction false} LeftBoxOfMembers(ts: seq<CachedTriangle>, axis: Axis, cmin: int, ext: nat, n: nat)
    requires CentroidsIn(ts, axis, cmin, ext) && n <= BvhBins
    ensures forall k :: 0 <= k < |ts| && BinOf(ts[k], axis, cmin, ext) < n ==>
      LessEq(LeftBox(Bins(ts, axis, cmin, ext), n).min, ts[k].min)
    ensures forall k :: 0 <= k < |ts| && BinOf(ts[k], axis, cmin, ext) < n && LastInBin(ts, axis, cmin, ext, k) ==>
      LessEq(ts[k].max, LeftBox(Bins(ts, axis, cmin, ext), n).max)
  {
    var bins := Bins(ts, axis, cmin, ext);
    LeftBoxLeast(bins, n, EmptyBox);
    forall k | 0 <= k < |ts| && BinOf(ts[k], axis, cmin, ext) < n
      ensures LessEq(LeftBox(bins, n).min, ts[k].min)
      ensures LastInBin(ts, axis, cmin, ext, k) ==> LessEq(ts[k].max, LeftBox(bins, n).max)
    {
      MemberCorners(ts, axis, cmin, ext, k);
    }
  }

  /** The same for the right sweep's box and the triangles binned at or
      above `n`. */
  lemma {:induction false} RightBoxOfMembers(ts: seq<CachedTriangle>, axis: Axis, cmin: int, ext: nat, n: nat)
    requires CentroidsIn(ts, axis, cmin, ext) && n <= BvhBins
    ensures forall k :: 0 <= k < |ts| && BinOf(ts[k], axis, cmin, ext) >= n ==>
      LessEq(RightBox(Bins(ts, axis, cmin, ext), n).min, ts[k].min)
    ensures forall k :: 0 <= k < |ts| && BinOf(ts[k], axis, cmin, ext) >= n && LastInBin(ts, axis, cmin, ext, k) ==>
      LessEq(ts[k].max, RightBox(Bins(ts, axis, cmin, ext), n).max)
  {
    var bins := Bins(ts, axis, cmin, ext);
    RightBoxLeast(bins, n, EmptyBox);
    forall k | 0 <= k < |ts| && BinOf(ts[k], axis, cmin, ext) >= n
      ensures LessEq(RightBox(bins, n).min, ts[k].min)
      ensures LastInBin(ts, axis, cmin, ext, k) ==> LessEq(ts[k].max, RightBox(bins, n).max)
    {
      MemberCorners(ts, axis, cmin, ext, k);
    }
  }

  /** A triangle's bin is non-empty, lies below its local min, and ends
      with its local max when no later triangle lands there. */
  lemma {:induction false} MemberCorners(ts: seq<CachedTriangle>, axis: Axis, cmin: int, ext: nat, k: nat)
    requires CentroidsIn(ts, axis, cmin, ext) && k < |ts|
    ensures 0 <= BinOf(ts[k], axis, cmin, ext) < BvhBins
    ensures var bin := Bins(ts, axis, cmin, ext)[BinOf(ts[k], axis, cmin, ext)];
      && bin.count > 0
      && LessEq(bin.min, ts[k].min)
      && (LastInBin(ts, axis, cmin, ext, k) ==> bin.max == ts[k].max)
  {
    var b := BinOf(ts[k], axis, cmin, ext);
    BinIndexInRange(Coord(ts[k].centroid, axis), cmin, ext);
    BinContents(ts, axis, cmin, ext, b);
    CountIfRemove(ts, k, InBin(axis, cmin, ext, b));
  }

  /** Cost of boundary `i` (between bins `i` and `i + 1`):
      `leftCount[i] * leftArea[i] + rightCount[i] * rightArea[i]`. */
  function BoundaryCost(bins: seq<Bin>, i: nat): int
    requires |bins| == BvhBins && i < BvhBins - 1
  {
    LeftCount(bins, i + 1) * SurfaceArea(LeftBox(bins, i + 1)) +
    RightCount(bins, i + 1) * SurfaceArea(RightBox(bins, i + 1))
  }

  /** The 15 candidate boundary costs. */
  function Costs(bins: seq<Bin>): (costs: seq<int>)
    requires |bins| == BvhBins
    ensures |costs| == BvhBins - 1
    ensures forall i :: 0 <= i < BvhBins - 1 ==> costs[i] == BoundaryCost(bins, i)
  {
    seq(BvhBins - 1, i requires 0 <= i < BvhBins - 1 => BoundaryCost(bins, i))
  }

  /** The outcome of the boundary search: `splitIdx` is -1 and `minCost`
      the float maximum when no cost beats that sentinel. */
  datatype Choice = Choice(splitIdx: int, minCost: int)

  /** Lines 120-130: keep the first strictly cheaper boundary, starting
      from the sentinel `(-1, FLT_MAX)`. The result is the LOWEST index of
      minimal cost. */
  function BestBoundary(costs: seq<int>): (r: Choice)
    ensures r.splitIdx == -1 ==> r.minCost == FloatMax && forall j :: 0 <= j < |costs| ==> costs[j] >= FloatMax
    ensures r.splitIdx != -1 ==>
      && 0 <= r.splitIdx < |costs|
      && r.minCost == costs[r.splitIdx] < FloatMax
      && (forall j :: 0 <= j < |costs| ==> costs[j] >= r.minCost)
      && (forall j :: 0 <= j < r.splitIdx ==> costs[j] > r.minCost)
  {
    if |costs| == 0 then Choice(-1, FloatMax)
    else
      var best := BestBoundary(costs[..|costs| - 1]);
      var c := costs[|costs| - 1];
      if c < best.minCost then Choice(|costs| - 1, c) else best
  }

  /** Lines 96-106: the left sweep, run over the arrays as written. Entry
      `i` holds the area and the count of the running box after bins
      `0 .. i`. */
  method LeftSweep(bins: seq<Bin>) returns (leftArea: seq<int>, leftCount: seq<int>)
    requires |bins| == BvhBins
    ensures |leftArea| == BvhBins - 1 && |leftCount| == BvhBins - 1
    ensures forall i :: 0 <= i < BvhBins - 1 ==>
      leftArea[i] == SurfaceArea(LeftBox(bins, i + 1)) && leftCount[i] == LeftCount(bins, i + 1)
  {
    leftArea, leftCount := seq(BvhBins - 1, _ => 0), seq(BvhBins - 1, _ => 0);
    var current, currentCount := EmptyBox, 0;
    var i := 0;
    while i < BvhBins - 1
      invariant 0 <= i <= BvhBins - 1
      invariant |leftArea| == BvhBins - 1 && |leftCount| == BvhBins - 1
      invariant current == LeftBox(bins, i) && currentCount == LeftCount(bins, i)
      invariant forall j :: 0 <= j < i ==>
        leftArea[j] == SurfaceArea(LeftBox(bins, j + 1)) && leftCount[j] == LeftCount(bins, j + 1)
    {
      currentCount := currentCount + bins[i].count;
      if bins[i].count > 0 {
        current := Grow(current, bins[i].min);
        current := Grow(current, bins[i].max);
      }
      leftArea := leftArea[i := SurfaceArea(current)];
      leftCount := leftCount[i := currentCount];
      i := i + 1;
    }
  }

  /** Lines 108-118: the right sweep, from the last bin down. Entry `i`
      holds the area and the count of the running box over bins
      `i + 1 .. 15`. */
  method RightSweep(bins: seq<Bin>) returns (rightArea: seq<int>, rightCount: seq<int>)
    requires |bins| == BvhBins
    ensures |rightArea| == BvhBins - 1 && |rightCount| == BvhBins - 1
    ensures forall i :: 0 <= i < BvhBins - 1 ==>
      rightArea[i] == SurfaceArea(RightBox(bins, i + 1)) && rightCount[i] == RightCount(bins, i + 1)
  {
    rightArea, rightCount := seq(BvhBins - 1, _ => 0), seq(BvhBins - 1, _ => 0);
    var current, currentCount := EmptyBox, 0;
    var i := BvhBins - 2;
    while i >= 0
      invariant -1 <= i <= BvhBins - 2
      invariant |rightArea| == BvhBins - 1 && |rightCount| == BvhBins - 1
      invariant current == RightBox(bins, i + 2) && currentCount == RightCount(bins, i + 2)
      invariant forall j :: i < j < BvhBins - 1 ==>
        rightArea[j] == SurfaceArea(RightBox(bins, j + 1)) && rightCount[j] == RightCount(bins, j + 1)
    {
      currentCount := currentCount + bins[i + 1].count;
      if bins[i + 1].count > 0 {
        current := Grow(current, bins[i + 1].min);
        current := Grow(current, bins[i + 1].max);
      }
      rightArea := rightArea[i := SurfaceArea(current)];
      rightCount := rightCount[i := currentCount];
      i := i - 1;
    }
  }

  /** Lines 93-130: both sweeps, then the search that keeps the first
      strictly cheaper boundary. The loops choose exactly the boundary and
      cost that `BestBoundary` gives over the 15 `Costs`. */
  method SplitSearch(bins: seq<Bin>) returns (splitIdx: int, minCost: int)
    requires |bins| == BvhBins
    ensures Choice(splitIdx, minCost) == BestBoundary(Costs(bins))
  {
    var leftArea, leftCount := LeftSweep(bins);
    var rightArea, rightCount := RightSweep(bins);
    ghost var costs := Costs(bins);
    minCost, splitIdx := FloatMax, -1;
    var i := 0;
    while i < BvhBins - 1
      invariant 0 <= i <= BvhBins - 1
      invariant Choice(splitIdx, minCost) == BestBoundary(costs[..i])
    {
      var cost := leftCount[i] * leftArea[i] + rightCount[i] * rightArea[i];
      assert costs[..i + 1][..i] == costs[..i];
      assert cost == costs[..i + 1][i];
      if cost < minCost {
        minCost, splitIdx := cost, i;
      }
      i := i + 1;
    }
    assert costs[..BvhBins - 1] == costs;
  }

  /** The left sweep at boundary `n - 1` counts the triangles in bins below `n`. */
  function BinBelow(axis: Axis, cmin: int, ext: nat, n: int): CachedTriangle -> bool
  {
    t => BinOf(t, axis, cmin, ext) < n
  }

  lemma {:induction false} CountIfSplitPred<T>(s: seq<T>, p: T -> bool, q: T -> bool, r: T -> bool)
    requires forall x :: p(x) <==> (q(x) || r(x))
    requires forall x :: !(q(x) && r(x))
    ensures CountIf(s, p) == CountIf(s, q) + CountIf(s, r)
  {
    if |s| > 0 {
      CountIfSplitPred(s[1..], p, q, r);
    }
  }

  /** The left count at each boundary is the number of triangles whose
      bin lies at or below it, and left and right counts together always
      account for every triangle of the node. */
  lemma {:induction false} SweepCounts(ts: seq<CachedTriangle>, axis: Axis, cmin: int, ext: nat, n: nat)
    requires CentroidsIn(ts, axis, cmin, ext) && n <= BvhBins
    ensures LeftCount(Bins(ts, axis, cmin, ext), n) == CountIf(ts, BinBelow(axis, cmin, ext, n))
    ensures LeftCount(Bins(ts, axis, cmin, ext), n) + RightCount(Bins(ts, axis, cmin, ext), n) == |ts|
  {
    var bins := Bins(ts, axis, cmin, ext);
    LeftCountBelow(ts, axis, cmin, ext, n);
    LeftCountBelow(ts, axis, cmin, ext, BvhBins);
    LeftRightTotal(bins, n);
    assert CountIf(ts, BinBelow(axis, cmin, ext, BvhBins)) == |ts| by {
      forall k | 0 <= k < |ts| ensures BinBelow(axis, cmin, ext, BvhBins)(ts[k]) {
        BinIndexInRange(Coord(ts[k].centroid, axis), cmin, ext);
      }
      CountIfAll(ts, BinBelow(axis, cmin, ext, BvhBins), true);
    }
  }

  lemma {:induction false} LeftCountBelow(ts: seq<CachedTriangle>, axis: Axis, cmin: int, ext: nat, n: nat)
    requires CentroidsIn(ts, axis, cmin, ext) && n <= BvhBins
    ensures LeftCount(Bins(ts, axis, cmin, ext), n) == CountIf(ts, BinBelow(axis, cmin, ext, n))
  {
    if n == 0 {
      CountIfAll(ts, BinBelow(axis, cmin, ext, 0), false) by {
        forall k | 0 <= k < |ts| ensures !BinBelow(axis, cmin, ext, 0)(ts[k]) {
          BinIndexInRange(Coord(ts[k].centroid, axis), cmin, ext);
        }
      }
    } else {
      LeftCountBelow(ts, axis, cmin, ext, n - 1);
      BinContents(ts, axis, cmin, ext, n - 1);
      CountIfSplitPred(ts, BinBelow(axis, cmin, ext, n), BinBelow(axis, cmin, ext, n - 1), InBin(axis, cmin, ext, n - 1));
    }
  }

  lemma {:induction false} LeftRightTotal(bins: seq<Bin>, n: nat)
    requires n <= |bins|
    ensures LeftCount(bins, n) + RightCount(bins, n) == LeftCount(bins, |bins|)
    decreases |bins| - n
  {
    if n < |bins| {
      LeftRightTotal(bins, n + 1);
    }
  }
}
