/** Position quantization (`quantize_position` of the Types module).

    The Types module's body is not part of this model. The function below
    ASSUMES a clamp-scale-round body for it:
    `q = round(clamp((v - min) / extent, 0, 1) * 65535)` per axis, with
    halves rounded up. The rounding mode in particular is an assumption. */
module Quantization {
  import opened Types

  /** Every axis of an extent used for quantization is strictly positive. */
  predicate PositiveExtent(e: Vec3)
  {
    e.x > 0.0 && e.y > 0.0 && e.z > 0.0
  }

  function Clamp01(n: real): (c: real)
    ensures 0.0 <= c <= 1.0
    ensures 0.0 <= n <= 1.0 ==> c == n
    ensures n < 0.0 ==> c == 0.0
    ensures n > 1.0 ==> c == 1.0
  {
    if n < 0.0 then 0.0 else if n > 1.0 then 1.0 else n
  }

  function QuantizeAxis(v: real, mn: real, ext: real): (q: u16)
    requires ext > 0.0
  {
    var c := Clamp01((v - mn) / ext);
    (c * 65535.0 + 0.5).Floor
  }

  function QuantizePosition(p: Vec3, mn: Vec3, ext: Vec3): U16Vec3
    requires PositiveExtent(ext)
  {
    U16Vec3(QuantizeAxis(p.x, mn.x, ext.x), QuantizeAxis(p.y, mn.y, ext.y), QuantizeAxis(p.z, mn.z, ext.z))
  }

  /** The point a quantized coordinate stands for. */
  function DequantizeAxis(q: u16, mn: real, ext: real): real
  {
    mn + (q as real) * ext / 65535.0
  }

  lemma DivMonotone(a: real, b: real, e: real)
    requires a <= b && e > 0.0
    ensures a / e <= b / e
  {
  }

  lemma FloorMonotone(a: real, b: real)
    requires a <= b
    ensures a.Floor <= b.Floor
  {
  }

  /** Quantization preserves order on each axis. */
  lemma QuantizeAxisMonotone(v: real, w: real, mn: real, ext: real)
    requires ext > 0.0 && v <= w
    ensures QuantizeAxis(v, mn, ext) <= QuantizeAxis(w, mn, ext)
  {
    DivMonotone(v - mn, w - mn, ext);
    var cv, cw := Clamp01((v - mn) / ext), Clamp01((w - mn) / ext);
    assert cv <= cw;
    assert cv * 65535.0 <= cw * 65535.0;
    FloorMonotone(cv * 65535.0 + 0.5, cw * 65535.0 + 0.5);
  }

  /** Quantization preserves the componentwise order of points. */
  lemma QuantizeMonotone(p: Vec3, q: Vec3, mn: Vec3, ext: Vec3)
    requires PositiveExtent(ext) && RealLessEq(p, q)
    ensures LessEq(QuantizePosition(p, mn, ext), QuantizePosition(q, mn, ext))
  {
    QuantizeAxisMonotone(p.x, q.x, mn.x, ext.x);
    QuantizeAxisMonotone(p.y, q.y, mn.y, ext.y);
    QuantizeAxisMonotone(p.z, q.z, mn.z, ext.z);
  }

  /** Round trip: a coordinate inside `[mn, mn + ext]` is recovered within
      half a quantization step `ext / 65535`. */
  lemma QuantizeRoundTrip(v: real, mn: real, ext: real)
    requires ext > 0.0 && mn <= v <= mn + ext
    ensures var back := DequantizeAxis(QuantizeAxis(v, mn, ext), mn, ext);
            v - ext / 131070.0 <= back <= v + ext / 131070.0
  {
    var n := (v - mn) / ext;
    assert n * ext == v - mn;
    assert 0.0 <= v - mn;
    UnitQuotient(v - mn, ext);
    assert Clamp01(n) == n;
    var x := n * 65535.0 + 0.5;
    var q := x.Floor;
    assert q == QuantizeAxis(v, mn, ext);
    assert n * 65535.0 - 0.5 < q as real <= n * 65535.0 + 0.5;
    var e := ext / 65535.0;
    assert e > 0.0;
    ScaleBetween(q as real, n * 65535.0 - 0.5, n * 65535.0 + 0.5, e);
    assert (n * 65535.0) * e == n * ext;
    assert (q as real) * ext / 65535.0 == (q as real) * e;
  }

  lemma UnitQuotient(a: real, e: real)
    requires 0.0 <= a <= e && e > 0.0
    ensures 0.0 <= a / e <= 1.0
  {
    assert (a / e) * e == a;
  }

  lemma ScaleBetween(q: real, lo: real, hi: real, e: real)
    requires lo <= q <= hi && e > 0.0
    ensures lo * e <= q * e <= hi * e
  {
  }

  /** The unit-test expectation: the midpoint of `[0, 10]` quantizes to
      within 5 of 32767 on every axis. */
  lemma QuantizeMidpoint()
    ensures var q := QuantizePosition(Vec3(5.0, 5.0, 5.0), Vec3(0.0, 0.0, 0.0), Vec3(10.0, 10.0, 10.0));
            32767 - 5 <= q.x <= 32767 + 5 && 32767 - 5 <= q.y <= 32767 + 5 && 32767 - 5 <= q.z <= 32767 + 5
  {
    assert QuantizeAxis(5.0, 0.0, 10.0) == 32768 by {
      assert Clamp01((5.0 - 0.0) / 10.0) == 0.5;
      assert 0.5 * 65535.0 + 0.5 == 32768.0;
    }
  }
}
