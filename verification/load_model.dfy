/** The bounds estimator (`load_bounds`) and the quantized triangle cache
    builder (`load_cache`) of src/LoadModel.cpp. */
module LoadModel {
  import opened Types
  import opened Quantization

  /** Spans below this are treated as degenerate and replaced by 1.0. */
  const Epsilon: real := 0.000001

  const FloatMaxReal: real := FloatMax as real

  function RealCoord(v: Vec3, axis: Axis): real
  {
    if axis == 0 then v.x else if axis == 1 then v.y else v.z
  }

  /** `minPos <= v <= maxPos` componentwise. */
  predicate Encloses(b: MeshBounds, v: Vec3)
  {
    RealLessEq(b.minPos, v) && RealLessEq(v, b.maxPos)
  }

  /** Every vertex of every triangle is enclosed by `b`. */
  predicate EnclosesAll(tris: seq<Triangle>, b: MeshBounds)
  {
    forall i, k :: 0 <= i < |tris| && 0 <= k < 3 ==> Encloses(b, Vertex(tris[i], k))
  }

  /** `c` is the `axis` coordinate of some vertex of `tris`. */
  ghost predicate Attained(tris: seq<Triangle>, c: real, axis: Axis)
  {
    exists i, k :: 0 <= i < |tris| && 0 <= k < 3 && RealCoord(Vertex(tris[i], k), axis) == c
  }

  /** Every component of both corners is a coordinate of some vertex. */
  ghost predicate Tight(tris: seq<Triangle>, b: MeshBounds)
  {
    forall axis: Axis :: Attained(tris, RealCoord(b.minPos, axis), axis) && Attained(tris, RealCoord(b.maxPos, axis), axis)
  }

  /** Every coordinate is a finite single-precision value. */
  predicate FiniteVertices(tris: seq<Triangle>)
  {
    forall i, k, axis: Axis :: 0 <= i < |tris| && 0 <= k < 3 ==>
      -FloatMaxReal <= RealCoord(Vertex(tris[i], k), axis) <= FloatMaxReal
  }

  /** One application of the per-vertex update: each component of the
      minimum moves down to `v` and each component of the maximum moves
      up to `v` when `v` lies beyond it. */
  function GrowReal(b: MeshBounds, v: Vec3): (r: MeshBounds)
    ensures Encloses(r, v)
    ensures RealLessEq(r.minPos, b.minPos) && RealLessEq(b.maxPos, r.maxPos)
    ensures forall axis: Axis ::
      (RealCoord(r.minPos, axis) == RealCoord(b.minPos, axis) || RealCoord(r.minPos, axis) == RealCoord(v, axis)) &&
      (RealCoord(r.maxPos, axis) == RealCoord(b.maxPos, axis) || RealCoord(r.maxPos, axis) == RealCoord(v, axis))
  {
    MeshBounds(
      Vec3(if v.x < b.minPos.x then v.x else b.minPos.x,
           if v.y < b.minPos.y then v.y else b.minPos.y,
           if v.z < b.minPos.z then v.z else b.minPos.z),
      Vec3(if v.x > b.maxPos.x then v.x else b.maxPos.x,
           if v.y > b.maxPos.y then v.y else b.maxPos.y,
           if v.z > b.maxPos.z then v.z else b.maxPos.z))
  }

  /** The inner loop of `load_bounds` over the three vertices of one triangle. */
  function GrowByTriangle(b: MeshBounds, t: Triangle): MeshBounds
  {
    GrowReal(GrowReal(GrowReal(b, t.v1), t.v2), t.v3)
  }

  /** Start value of `load_bounds`: min at the largest float, max at the lowest. */
  const InitialBounds: MeshBounds :=
    MeshBounds(Vec3(FloatMaxReal, FloatMaxReal, FloatMaxReal), Vec3(-FloatMaxReal, -FloatMaxReal, -FloatMaxReal))

  /** The bounds after the outer loop has visited `tris` in order. */
  function BoundsOf(tris: seq<Triangle>): MeshBounds
  {
    if |tris| == 0 then InitialBounds
    else GrowByTriangle(BoundsOf(tris[..|tris| - 1]), tris[|tris| - 1])
  }

  lemma GrowByTriangleEncloses(b: MeshBounds, t: Triangle)
    ensures forall k :: 0 <= k < 3 ==> Encloses(GrowByTriangle(b, t), Vertex(t, k))
    ensures RealLessEq(GrowByTriangle(b, t).minPos, b.minPos) && RealLessEq(b.maxPos, GrowByTriangle(b, t).maxPos)
  {
  }

  /** The computed bounds enclose every vertex. */
  lemma {:induction false} BoundsEnclose(tris: seq<Triangle>)
    ensures EnclosesAll(tris, BoundsOf(tris))
  {
    if |tris| > 0 {
      var p := tris[..|tris| - 1];
      var last := tris[|tris| - 1];
      BoundsEnclose(p);
      GrowByTriangleEncloses(BoundsOf(p), last);
      forall i, k | 0 <= i < |tris| && 0 <= k < 3
        ensures Encloses(BoundsOf(tris), Vertex(tris[i], k))
      {
        if i < |p| {
          assert tris[i] == p[i];
        }
      }
    }
  }

  /** Each component of the grown corners comes from the old corner or from
      one of the triangle's vertices. */
  lemma GrowByTriangleSources(b: MeshBounds, t: Triangle, axis: Axis)
    ensures var r := GrowByTriangle(b, t);
      (RealCoord(r.minPos, axis) == RealCoord(b.minPos, axis) ||
       exists k :: 0 <= k < 3 && RealCoord(r.minPos, axis) == RealCoord(Vertex(t, k), axis)) &&
      (RealCoord(r.maxPos, axis) == RealCoord(b.maxPos, axis) ||
       exists k :: 0 <= k < 3 && RealCoord(r.maxPos, axis) == RealCoord(Vertex(t, k), axis))
  {
    var b1 := GrowReal(b, t.v1);
    var b2 := GrowReal(b1, t.v2);
    assert Vertex(t, 0) == t.v1 && Vertex(t, 1) == t.v2 && Vertex(t, 2) == t.v3;
  }

  /** With finite coordinates the bounds are tight: no corner component is
      left at its start value unless a vertex has that very value. */
  lemma {:induction false} BoundsTight(tris: seq<Triangle>)
    requires |tris| > 0 && FiniteVertices(tris)
    ensures Tight(tris, BoundsOf(tris))
  {
    var p := tris[..|tris| - 1];
    var last := tris[|tris| - 1];
    var b := BoundsOf(tris);
    assert b == GrowByTriangle(BoundsOf(p), last);
    if |p| > 0 {
      assert FiniteVertices(p) by {
        forall i, k, axis: Axis | 0 <= i < |p| && 0 <= k < 3
          ensures -FloatMaxReal <= RealCoord(Vertex(p[i], k), axis) <= FloatMaxReal
        {
          assert p[i] == tris[i];
        }
      }
      BoundsTight(p);
    }
    BoundsEnclose(tris);
    forall axis: Axis
      ensures Attained(tris, RealCoord(b.minPos, axis), axis) && Attained(tris, RealCoord(b.maxPos, axis), axis)
    {
      GrowByTriangleSources(BoundsOf(p), last, axis);
      var n := |tris| - 1;
      assert Encloses(b, Vertex(tris[n], 0));
      if RealCoord(b.minPos, axis) == RealCoord(BoundsOf(p).minPos, axis) {
        if |p| > 0 {
          var i, k :| 0 <= i < |p| && 0 <= k < 3 && RealCoord(Vertex(p[i], k), axis) == RealCoord(BoundsOf(p).minPos, axis);
          assert p[i] == tris[i];
        } else {
          // Still at the start value, which every finite coordinate reaches.
          assert RealCoord(Vertex(tris[n], 0), axis) <= FloatMaxReal;
          assert RealCoord(Vertex(tris[n], 0), axis) == RealCoord(b.minPos, axis);
        }
      } else {
        var k :| 0 <= k < 3 && RealCoord(b.minPos, axis) == RealCoord(Vertex(last, k), axis);
        assert RealCoord(Vertex(tris[n], k), axis) == RealCoord(b.minPos, axis);
      }
      if RealCoord(b.maxPos, axis) == RealCoord(BoundsOf(p).maxPos, axis) {
        if |p| > 0 {
          var i, k :| 0 <= i < |p| && 0 <= k < 3 && RealCoord(Vertex(p[i], k), axis) == RealCoord(BoundsOf(p).maxPos, axis);
          assert p[i] == tris[i];
        } else {
          assert -FloatMaxReal <= RealCoord(Vertex(tris[n], 0), axis);
          assert RealCoord(Vertex(tris[n], 0), axis) == RealCoord(b.maxPos, axis);
        }
      } else {
        var k :| 0 <= k < 3 && RealCoord(b.maxPos, axis) == RealCoord(Vertex(last, k), axis);
        assert RealCoord(Vertex(tris[n], k), axis) == RealCoord(b.maxPos, axis);
      }
    }
  }

  /** `load_bounds`: fails on an empty list and leaves `bounds` as it was;
      otherwise returns a box enclosing every vertex, tight on every axis. */
  method LoadBounds(tris: seq<Triangle>, bounds: MeshBounds) returns (ok: bool, out: MeshBounds)
    ensures ok <==> |tris| > 0
    ensures !ok ==> out == bounds
    ensures ok ==> EnclosesAll(tris, out)
    ensures ok && FiniteVertices(tris) ==> Tight(tris, out)
  {
    if |tris| == 0 {
      return false, bounds;
    }
    out := InitialBounds;
    var i := 0;
    while i < |tris|
      invariant 0 <= i <= |tris|
      invariant out == BoundsOf(tris[..i])
    {
      assert tris[..i + 1][..i] == tris[..i];
      out := GrowByTriangle(out, tris[i]);
      i := i + 1;
    }
    assert tris[..|tris|] == tris;
    BoundsEnclose(tris);
    if FiniteVertices(tris) {
      BoundsTight(tris);
    }
    ok := true;
  }

  /** One triangle spanning -1 to 1 on x and 0 to 1 on y: the bounds pick
      up exactly those extremes. */
  lemma {:induction false} BoundsOfOneTriangle(tris: seq<Triangle>)
    requires tris == [Triangle(Vec3(-1.0, 0.0, 0.0), Vec3(1.0, 0.0, 0.0), Vec3(0.0, 1.0, 0.0))]
    ensures BoundsOf(tris).minPos.x == -1.0
    ensures BoundsOf(tris).maxPos.x == 1.0
    ensures BoundsOf(tris).maxPos.y == 1.0
  {
    assert tris[..0] == [];
  }

  /** One axis of the quantization extent: a span below `Epsilon` becomes 1.0. */
  function ClampAxis(span: real): (e: real)
    ensures e >= Epsilon
    ensures span >= Epsilon ==> e == span
    ensures span < Epsilon ==> e == 1.0
  {
    if span < Epsilon then 1.0 else span
  }

  /** The extent `load_cache` quantizes with: the span of the mesh bounds,
      with every degenerate axis replaced by 1.0. */
  function ClampedExtent(b: MeshBounds): (e: Vec3)
    ensures PositiveExtent(e)
    ensures e.x >= Epsilon && e.y >= Epsilon && e.z >= Epsilon
  {
    var span := Sub(b.maxPos, b.minPos);
    Vec3(ClampAxis(span.x), ClampAxis(span.y), ClampAxis(span.z))
  }

  /** Componentwise box of one triangle, grown from `v1` by `v2` then `v3`. */
  function LocalBounds(t: Triangle): (r: MeshBounds)
    ensures forall k :: 0 <= k < 3 ==> Encloses(r, Vertex(t, k))
    ensures RealLessEq(r.minPos, r.maxPos)
    ensures forall axis: Axis ::
      (exists k :: 0 <= k < 3 && RealCoord(r.minPos, axis) == RealCoord(Vertex(t, k), axis)) &&
      (exists k :: 0 <= k < 3 && RealCoord(r.maxPos, axis) == RealCoord(Vertex(t, k), axis))
  {
    var r := GrowReal(GrowReal(MeshBounds(t.v1, t.v1), t.v2), t.v3);
    assert Vertex(t, 0) == t.v1 && Vertex(t, 1) == t.v2 && Vertex(t, 2) == t.v3;
    r
  }

  /** Arithmetic mean of the three unquantized vertices. */
  function Centroid(t: Triangle): Vec3
  {
    Div(Add(Add(t.v1, t.v2), t.v3), 3.0)
  }

  lemma CentroidInLocalBounds(t: Triangle)
    ensures Encloses(LocalBounds(t), Centroid(t))
  {
    var b := LocalBounds(t);
    assert Encloses(b, Vertex(t, 0)) && Encloses(b, Vertex(t, 1)) && Encloses(b, Vertex(t, 2));
  }

  /** Geometric normal direction: cross product of the edges `v2 - v1` and `v3 - v1`. */
  function GeometricNormal(t: Triangle): Vec3
  {
    Cross(Sub(t.v2, t.v1), Sub(t.v3, t.v1))
  }

  /** One record of the cache. `encodeNormal` stands for
      `encode_normal(normalize(.))`, whose bodies are not part of this model. */
  function CacheTriangle(t: Triangle, mn: Vec3, ext: Vec3, encodeNormal: Vec3 -> NormalCode): (r: CachedTriangle)
    requires PositiveExtent(ext)
    ensures LessEq(r.min, r.v1) && LessEq(r.v1, r.max)
    ensures LessEq(r.min, r.v2) && LessEq(r.v2, r.max)
    ensures LessEq(r.min, r.v3) && LessEq(r.v3, r.max)
    ensures LessEq(r.min, r.centroid) && LessEq(r.centroid, r.max)
  {
    var local := LocalBounds(t);
    var r := CachedTriangle(
      QuantizePosition(t.v1, mn, ext),
      QuantizePosition(t.v2, mn, ext),
      QuantizePosition(t.v3, mn, ext),
      QuantizePosition(Centroid(t), mn, ext),
      QuantizePosition(local.minPos, mn, ext),
      QuantizePosition(local.maxPos, mn, ext),
      encodeNormal(GeometricNormal(t)));
    assert Encloses(local, Vertex(t, 0)) && Encloses(local, Vertex(t, 1)) && Encloses(local, Vertex(t, 2));
    QuantizeMonotone(local.minPos, t.v1, mn, ext);
    QuantizeMonotone(t.v1, local.maxPos, mn, ext);
    QuantizeMonotone(local.minPos, t.v2, mn, ext);
    QuantizeMonotone(t.v2, local.maxPos, mn, ext);
    QuantizeMonotone(local.minPos, t.v3, mn, ext);
    QuantizeMonotone(t.v3, local.maxPos, mn, ext);
    CentroidInLocalBounds(t);
    QuantizeMonotone(local.minPos, Centroid(t), mn, ext);
    QuantizeMonotone(Centroid(t), local.maxPos, mn, ext);
    r
  }

  /** `load_cache`: fails on an empty list and leaves the object as it was;
      otherwise replaces the mesh by one record per triangle, in order,
      every quantized field using the object's `minPos` and the clamped
      extent, and keeps the bounds. */
  method LoadCache(tris: seq<Triangle>, obj: Object, encodeNormal: Vec3 -> NormalCode) returns (ok: bool, out: Object)
    ensures ok <==> |tris| > 0
    ensures !ok ==> out == obj
    ensures out.bounds == obj.bounds
    ensures ok ==> |out.mesh| == |tris|
    ensures ok ==> forall i :: 0 <= i < |tris| ==>
      var ext := ClampedExtent(obj.bounds);
      var mn := obj.bounds.minPos;
      var ct := out.mesh[i];
      var t := tris[i];
      && ct.v1 == QuantizePosition(t.v1, mn, ext)
      && ct.v2 == QuantizePosition(t.v2, mn, ext)
      && ct.v3 == QuantizePosition(t.v3, mn, ext)
      && ct.centroid == QuantizePosition(Centroid(t), mn, ext)
      && ct.min == QuantizePosition(LocalBounds(t).minPos, mn, ext)
      && ct.max == QuantizePosition(LocalBounds(t).maxPos, mn, ext)
      && ct.normal == encodeNormal(GeometricNormal(t))
    ensures ok ==> forall i :: 0 <= i < |tris| ==>
      LessEq(out.mesh[i].min, out.mesh[i].centroid) && LessEq(out.mesh[i].centroid, out.mesh[i].max)
  {
    if |tris| == 0 {
      return false, obj;
    }
    var ext := ClampedExtent(obj.bounds);
    var mesh: seq<CachedTriangle> := [];
    var i := 0;
    while i < |tris|
      invariant 0 <= i <= |tris|
      invariant |mesh| == i
      invariant forall j :: 0 <= j < i ==> mesh[j] == CacheTriangle(tris[j], obj.bounds.minPos, ext, encodeNormal)
    {
      mesh := mesh + [CacheTriangle(tris[i], obj.bounds.minPos, ext, encodeNormal)];
      i := i + 1;
    }
    ok := true;
    out := obj.(mesh := mesh);
  }
}
