/** Axis-aligned boxes in the quantized space: `grow_bounds` and
    `get_surface_area` of the SAH builder. */
module Aabb {
  import opened Types

  datatype Box = Box(min: U16Vec3, max: U16Vec3)

  /** The inverted box every accumulation starts from: min at 65535, max at 0. */
  const EmptyBox: Box := Box(U16Vec3(U16Max, U16Max, U16Max), U16Vec3(0, 0, 0))

  /** `p` lies inside `b` (componentwise `b.min <= p <= b.max`). */
  predicate Inside(b: Box, p: U16Vec3)
  {
    LessEq(b.min, p) && LessEq(p, b.max)
  }

  /** Box `a` lies inside box `b`. An inverted `a` may stick out of nothing. */
  predicate Within(a: Box, b: Box)
  {
    LessEq(b.min, a.min) && LessEq(a.max, b.max)
  }

  /** `min <= max` on every axis. */
  predicate Proper(b: Box)
  {
    LessEq(b.min, b.max)
  }

  function MinU(a: u16, b: u16): u16 { if b < a then b else a }
  function MaxU(a: u16, b: u16): u16 { if b > a then b else a }

  /** `grow_bounds(min, max, p)` with `min` and `max` distinct variables:
      the point ends inside and the corners only move outward. */
  function Grow(b: Box, p: U16Vec3): (r: Box)
    ensures Inside(r, p)
    ensures Within(b, r)
  {
    Box(U16Vec3(MinU(b.min.x, p.x), MinU(b.min.y, p.y), MinU(b.min.z, p.z)),
        U16Vec3(MaxU(b.max.x, p.x), MaxU(b.max.y, p.y), MaxU(b.max.z, p.z)))
  }

  /** Growing moves the corners no further than needed: any box holding
      both `b` and `p` holds the grown box. */
  lemma GrowLeast(b: Box, p: U16Vec3, c: Box)
    requires Within(b, c) && Inside(c, p)
    ensures Within(Grow(b, p), c)
  {
  }

  /** One component of `grow_bounds(v, v, p)`: both reference parameters
      name the same variable, so the "min" update runs first and the
      "max" update then reads the value it wrote. */
  function GrowAliasedComponent(c: u16, p: u16): (r: u16)
    ensures r == p
  {
    var afterMin := if p < c then p else c;
    if p > afterMin then p else afterMin
  }

  /** `grow_bounds(v, v, p)`: the variable ends equal to `p`, whatever it held. */
  function GrowAliased(v: U16Vec3, p: U16Vec3): (r: U16Vec3)
    ensures r == p
  {
    U16Vec3(GrowAliasedComponent(v.x, p.x), GrowAliasedComponent(v.y, p.y), GrowAliasedComponent(v.z, p.z))
  }

  /** Signed span of a box along one axis. */
  function Span(b: Box, axis: Axis): int
  {
    Coord(b.max, axis) - Coord(b.min, axis)
  }

  /** `get_surface_area`: 2(wh + wd + hd) over the signed spans, computed exactly. */
  function SurfaceArea(b: Box): int
  {
    var w := Span(b, 0);
    var h := Span(b, 1);
    var d := Span(b, 2);
    2 * (w * h + w * d + h * d)
  }

  lemma MulMono(a: int, b: int, c: int, d: int)
    requires 0 <= a <= c && 0 <= b <= d
    ensures a * b <= c * d
  {
    assert a * b <= c * b;
    assert c * b <= c * d;
  }

  /** A proper box has non-negative area, and a proper box inside another
      box has no larger area: areas only shrink going down the BVH. */
  lemma AreaMonotone(a: Box, b: Box)
    requires Proper(a) && Within(a, b)
    ensures 0 <= SurfaceArea(a) <= SurfaceArea(b)
  {
    SpanProductsMonotone(Span(a, 0), Span(a, 1), Span(a, 2), Span(b, 0), Span(b, 1), Span(b, 2));
  }

  lemma SpanProductsMonotone(w: int, h: int, d: int, W: int, H: int, D: int)
    requires 0 <= w <= W && 0 <= h <= H && 0 <= d <= D
    ensures 0 <= 2 * (w * h + w * d + h * d) <= 2 * (W * H + W * D + H * D)
  {
    MulMono(w, h, W, H);
    MulMono(w, d, W, D);
    MulMono(h, d, H, D);
    assert 0 <= w * h && 0 <= w * d && 0 <= h * d;
  }

  /** The inverted start box still has a positive area (every span is -65535). */
  lemma EmptyBoxArea()
    ensures SurfaceArea(EmptyBox) == 6 * U16Max * U16Max
  {
  }

  /** Every box grown from the empty box by at least one point is proper. */
  lemma GrowIsProper(b: Box, p: U16Vec3)
    requires b == EmptyBox || Proper(b)
    ensures Proper(Grow(b, p))
  {
  }
}
