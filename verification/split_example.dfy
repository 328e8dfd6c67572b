/** A worked instance of the split decision: three degenerate triangles at
    0, 10 and 20 on every axis are split, so the splitting branch of the
    builder is reachable and the facts proved about it are not vacuous. */
module SplitExample {
  import opened Types
  import opened Aabb
  import opened Partition
  import opened Binning
  import opened Sah

  /** The point with all three coordinates equal to `c`. */
  function Pt(c: u16): U16Vec3
  {
    U16Vec3(c, c, c)
  }

  /** A triangle collapsed onto the point `Pt(c)`. */
  function Tri(c: u16): CachedTriangle
  {
    CachedTriangle(Pt(c), Pt(c), Pt(c), Pt(c), Pt(c), Pt(c), 0)
  }

  function Spread(): seq<CachedTriangle>
  {
    [Tri(0), Tri(10), Tri(20)]
  }

  /** A box with span `w` on every axis has area `6 w^2`. */
  lemma CubeArea(b: Box, w: int)
    requires Span(b, 0) == w && Span(b, 1) == w && Span(b, 2) == w
    ensures SurfaceArea(b) == 6 * (w * w)
  {
  }

  /** A box whose corners coincide has no area. */
  lemma FlatArea(b: Box)
    requires b.min == b.max
    ensures SurfaceArea(b) == 0
  {
    CubeArea(b, 0);
  }

  lemma UpperArea(b: Box)
    requires b == Box(Pt(10), Pt(20))
    ensures SurfaceArea(b) == 600
  {
    CubeArea(b, 10);
  }

  lemma WholeArea(b: Box)
    requires b == Box(Pt(0), Pt(20))
    ensures SurfaceArea(b) == 2400
  {
    CubeArea(b, 20);
  }

  lemma SpreadCentroidBounds()
    ensures CentroidBounds(Spread()) == Box(Pt(0), Pt(20))
  {
    var ts := Spread();
    assert ts[..2] == [Tri(0), Tri(10)];
    assert ts[..2][..1] == [Tri(0)];
    assert [Tri(0)][..0] == [];
    var c1 := CentroidBounds([Tri(0)]);
    assert c1 == Box(Pt(0), Pt(0));
    var c2 := CentroidBounds([Tri(0), Tri(10)]);
    assert c2 == Grow(c1, Pt(10));
    assert c2 == Box(Pt(0), Pt(10));
    assert CentroidBounds(ts) == Grow(c2, Pt(20));
  }

  lemma SpreadTriangleBounds()
    ensures TriangleBounds(Spread()) == Box(Pt(0), Pt(20))
  {
    var ts := Spread();
    assert ts[..2] == [Tri(0), Tri(10)];
    assert ts[..2][..1] == [Tri(0)];
    assert [Tri(0)][..0] == [];
    var c1 := TriangleBounds([Tri(0)]);
    assert c1 == Box(Pt(0), Pt(0));
    var c2 := TriangleBounds([Tri(0), Tri(10)]);
    assert c2 == Grow(Grow(c1, Pt(10)), Pt(10));
    assert c2 == Box(Pt(0), Pt(10));
    assert TriangleBounds(ts) == Grow(Grow(c2, Pt(20)), Pt(20));
  }

  /** With `scale = 16 / 20.1` the centroids land in bins 0, 7 and 15. */
  lemma SpreadBinOf()
    ensures BinOf(Tri(0), 0, 0, 20) == 0
    ensures BinOf(Tri(10), 0, 0, 20) == 7
    ensures BinOf(Tri(20), 0, 0, 20) == 15
  {
    assert (10 - 0) as real * Scale(20) == 160.0 / 20.1;
    assert 7.0 <= 160.0 / 20.1 < 8.0;
    assert (20 - 0) as real * Scale(20) == 320.0 / 20.1;
    assert 15.0 <= 320.0 / 20.1 < 16.0;
  }

  /** A bin holding the one triangle `Tri(c)`. */
  function One(c: u16): Bin
  {
    Bin(Pt(c), Pt(c), 1)
  }

  lemma SpreadBins()
    ensures CentroidsIn(Spread(), 0, 0, 20)
    ensures Bins(Spread(), 0, 0, 20) == seq(BvhBins, _ => EmptyBin)[0 := One(0)][7 := One(10)][15 := One(20)]
  {
    SpreadBinOf();
    var ts := Spread();
    assert ts[..2] == [Tri(0), Tri(10)];
    assert ts[..2][..1] == [Tri(0)];
    assert [Tri(0)][..0] == [];
    var e := seq(BvhBins, _ => EmptyBin);
    assert AddToBin(EmptyBin, Tri(0)) == One(0);
    assert AddToBin(EmptyBin, Tri(10)) == One(10);
    assert AddToBin(EmptyBin, Tri(20)) == One(20);
    assert Bins([Tri(0)], 0, 0, 20) == e[0 := One(0)];
    assert Bins([Tri(0), Tri(10)], 0, 0, 20) == e[0 := One(0)][7 := One(10)];
  }

  lemma SpreadBinAt(k: nat)
    requires k < BvhBins
    ensures Bins(Spread(), 0, 0, 20)[k] ==
      if k == 0 then One(0) else if k == 7 then One(10) else if k == 15 then One(20) else EmptyBin
  {
    SpreadBins();
  }

  lemma {:induction false} SpreadRightSweep(n: nat)
    requires 1 <= n <= BvhBins
    ensures RightBox(Bins(Spread(), 0, 0, 20), n) ==
      if n == BvhBins then EmptyBox else if n >= 8 then Box(Pt(20), Pt(20)) else Box(Pt(10), Pt(20))
    ensures RightCount(Bins(Spread(), 0, 0, 20), n) == if n == BvhBins then 0 else if n >= 8 then 1 else 2
    decreases BvhBins - n
  {
    SpreadBins();
    if n < BvhBins {
      SpreadRightSweep(n + 1);
      SpreadBinAt(n);
    }
  }

  lemma {:induction false} CostAtZero(bins: seq<Bin>)
    requires |bins| == BvhBins
    requires LeftCount(bins, 1) == 1 && LeftBox(bins, 1) == Box(Pt(0), Pt(0))
    requires RightCount(bins, 1) == 2 && RightBox(bins, 1) == Box(Pt(10), Pt(20))
    ensures BoundaryCost(bins, 0) == 1200
  {
    FlatArea(LeftBox(bins, 1));
    UpperArea(RightBox(bins, 1));
    assert LeftCount(bins, 1) * SurfaceArea(LeftBox(bins, 1)) == 1 * 0;
    assert RightCount(bins, 1) * SurfaceArea(RightBox(bins, 1)) == 2 * 600;
  }

  /** Cutting after bin 0 costs `1 * 0 + 2 * 600`. */
  lemma SpreadFirstCost()
    ensures BoundaryCost(Bins(Spread(), 0, 0, 20), 0) == 1200
  {
    SpreadBins();
    var bins := Bins(Spread(), 0, 0, 20);
    SpreadBinAt(0);
    assert LeftCount(bins, 1) == 1;
    assert LeftBox(bins, 1) == Box(Pt(0), Pt(0));
    SpreadRightSweep(1);
    CostAtZero(bins);
  }

  /** Every real boundary puts the first triangle left and the last right. */
  lemma SpreadLeftCount(b: int)
    requires 0 <= b < BvhBins - 1
    ensures 0 < CountIf(Spread(), GoesLeft(0, 0, 20, b)) < 3
  {
    var ts := Spread();
    BinIndexInRange(0, 0, 20);
    BinIndexInRange(20, 0, 20);
    SpreadBinOf();
    var p := GoesLeft(0, 0, 20, b);
    assert p(Tri(0));
    assert !p(Tri(20));
    assert ts[1..] == [Tri(10), Tri(20)];
    assert ts[1..][1..] == [Tri(20)];
    assert ts[1..][1..][1..] == [];
  }

  /** The three conditions under which the decision along one axis
      divides: a boundary beats both the sentinel and the leaf, and every
      boundary leaves both sides non-empty. Kept apart from its one caller
      so that the unfolding of `DecideAlong` happens in a small context. */
  lemma {:induction false} DivideWhen(ts: seq<CachedTriangle>, axis: Axis, cmin: int, ext: nat)
    requires CentroidsIn(ts, axis, cmin, ext)
    requires BestBoundary(Costs(Bins(ts, axis, cmin, ext))).minCost < |ts| * SurfaceArea(TriangleBounds(ts))
    requires 0 <= BestBoundary(Costs(Bins(ts, axis, cmin, ext))).splitIdx < BvhBins - 1
    requires forall b :: 0 <= b < BvhBins - 1 ==> 0 < CountIf(ts, GoesLeft(axis, cmin, ext, b)) < |ts|
    ensures DecideAlong(ts, axis, cmin, ext).Divide?
  {
  }

  /** Keeping the three triangles in one leaf costs `3 * 2400`. */
  lemma {:induction false} SpreadLeafCost(ts: seq<CachedTriangle>)
    requires ts == Spread()
    ensures |ts| * SurfaceArea(TriangleBounds(ts)) == 7200
  {
    assert |ts| == 3;
    SpreadTriangleBounds();
    assert TriangleBounds(ts) == Box(Pt(0), Pt(20));
    WholeArea(TriangleBounds(ts));
    assert |ts| * SurfaceArea(TriangleBounds(ts)) == 3 * 2400;
  }

  /** The first cheapest boundary of that mesh costs at most 1200, below
      both the sentinel and the leaf cost, and is a real boundary. */
  lemma {:induction false} SpreadCheapest(ts: seq<CachedTriangle>)
    requires ts == Spread()
    ensures CentroidsIn(ts, 0, 0, 20)
    ensures BestBoundary(Costs(Bins(ts, 0, 0, 20))).minCost <= 1200
    ensures 0 <= BestBoundary(Costs(Bins(ts, 0, 0, 20))).splitIdx < BvhBins - 1
  {
    SpreadInRange();
    SpreadFirstCost();
    var costs := Costs(Bins(ts, 0, 0, 20));
    assert costs[0] == 1200;
    CheapestAtMost(costs, 0);
  }

  lemma SpreadInRange()
    ensures CentroidsIn(Spread(), 0, 0, 20)
  {
  }

  /** A cost below the sentinel makes the search pick a real boundary
      that costs no more. */
  lemma {:induction false} CheapestAtMost(costs: seq<int>, j: nat)
    requires j < |costs| && costs[j] < FloatMax
    ensures 0 <= BestBoundary(costs).splitIdx < |costs|
    ensures BestBoundary(costs).minCost <= costs[j]
  {
  }

  lemma SpreadDividesAlongX(ts: seq<CachedTriangle>)
    requires ts == Spread()
    ensures CentroidsIn(ts, 0, 0, 20)
    ensures DecideAlong(ts, 0, 0, 20).Divide?
  {
    SpreadCheapest(ts);
    SpreadLeafCost(ts);
    forall b | 0 <= b < BvhBins - 1 ensures 0 < CountIf(ts, GoesLeft(0, 0, 20, b)) < |ts| {
      SpreadLeftCount(b);
    }
    DivideWhen(ts, 0, 0, 20);
  }

  /** The root of a mesh of three spread-out triangles is split along x. */
  lemma SpreadSplits(ts: seq<CachedTriangle>)
    requires ts == Spread()
    ensures Decide(ts, 0).Divide?
    ensures Decide(ts, 0).axis == 0
  {
    SpreadCentroidBounds();
    SpreadDividesAlongX(ts);
    var cb := Box(Pt(0), Pt(20));
    assert ChooseAxis(cb) == 0 && Span(cb, 0) == 20 && Coord(cb.min, 0) == 0;
    DecideBinsAlongAxis(ts, 0);
  }

  /** A triangle at the origin whose local box reaches up to `top`. */
  function Reaching(top: u16): CachedTriangle
  {
    CachedTriangle(Pt(0), Pt(0), Pt(0), Pt(0), Pt(0), Pt(top), 0)
  }

  /** Two triangles land in bin 0, the first reaching up to 50 and the
      second only up to 2. Because line 90 overwrites the bin's max, the
      left sweep's box after bin 0 reaches only up to 2, and the first
      triangle's local max sticks out of the box whose area is charged. */
  lemma {:induction false} AliasedMaxDropsEarlier(ts: seq<CachedTriangle>)
    requires ts == [Reaching(50), Reaching(2)]
    ensures CentroidsIn(ts, 0, 0, 20)
    ensures LeftBox(Bins(ts, 0, 0, 20), 1) == Box(Pt(0), Pt(2))
    ensures !LessEq(ts[0].max, LeftBox(Bins(ts, 0, 0, 20), 1).max)
  {
    assert (0 - 0) as real * Scale(20) == 0.0;
    assert BinIndex(0, 0, 20) == 0;
    assert BinOf(Reaching(50), 0, 0, 20) == 0;
    assert BinOf(Reaching(2), 0, 0, 20) == 0;
    assert ts[..1] == [Reaching(50)];
    assert [Reaching(50)][..0] == [];
    var e := seq(BvhBins, _ => EmptyBin);
    assert AddToBin(EmptyBin, Reaching(50)) == Bin(Pt(0), Pt(50), 1);
    assert Bins([Reaching(50)], 0, 0, 20) == e[0 := Bin(Pt(0), Pt(50), 1)];
    assert AddToBin(Bin(Pt(0), Pt(50), 1), Reaching(2)) == Bin(Pt(0), Pt(2), 2);
    var bins := Bins(ts, 0, 0, 20);
    assert bins[0] == Bin(Pt(0), Pt(2), 2);
    assert LeftBox(bins, 1) == Accumulate(EmptyBox, bins[0]);
  }
}
