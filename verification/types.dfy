/** Value types shared by the triangle cache builder and the BVH builder.

    Floating-point values are modelled as exact reals and the GPU-side
    unsigned 16-bit integers as a bounded subset of int. */
module Types {

  /** Largest value of an unsigned 16-bit integer. */
  const U16Max: int := 65535

  /** Largest finite single-precision float, (2 - 2^-23) * 2^127. */
  const FloatMax: int := 340282346638528859811704183484516925440

  type u16 = x: int | 0 <= x <= U16Max

  /** Axis selector: 0 is x, 1 is y, 2 is z. */
  type Axis = a: int | 0 <= a < 3

  /** A point in the quantized space of the cache (`u16vec3`). */
  datatype U16Vec3 = U16Vec3(x: u16, y: u16, z: u16)

  function Coord(v: U16Vec3, axis: Axis): u16
  {
    if axis == 0 then v.x else if axis == 1 then v.y else v.z
  }

  /** Componentwise `a <= b`. */
  predicate LessEq(a: U16Vec3, b: U16Vec3)
  {
    a.x <= b.x && a.y <= b.y && a.z <= b.z
  }

  /** A point of the unquantized mesh (`vec3`). */
  datatype Vec3 = Vec3(x: real, y: real, z: real)

  function Add(a: Vec3, b: Vec3): Vec3
  {
    Vec3(a.x + b.x, a.y + b.y, a.z + b.z)
  }

  function Sub(a: Vec3, b: Vec3): Vec3
  {
    Vec3(a.x - b.x, a.y - b.y, a.z - b.z)
  }

  function Div(a: Vec3, s: real): Vec3
    requires s != 0.0
  {
    Vec3(a.x / s, a.y / s, a.z / s)
  }

  function Cross(a: Vec3, b: Vec3): Vec3
  {
    Vec3(a.y * b.z - a.z * b.y, a.z * b.x - a.x * b.z, a.x * b.y - a.y * b.x)
  }

  /** Componentwise `a <= b` on unquantized points. */
  predicate RealLessEq(a: Vec3, b: Vec3)
  {
    a.x <= b.x && a.y <= b.y && a.z <= b.z
  }

  datatype Triangle = Triangle(v1: Vec3, v2: Vec3, v3: Vec3)

  /** Vertex `k` (0, 1 or 2) of a triangle. */
  function Vertex(t: Triangle, k: int): Vec3
    requires 0 <= k < 3
  {
    if k == 0 then t.v1 else if k == 1 then t.v2 else t.v3
  }

  datatype MeshBounds = MeshBounds(minPos: Vec3, maxPos: Vec3)

  /** The encoded unit normal; its bit layout belongs to the renderer. */
  type NormalCode = nat

  /** One compressed triangle of the cache: quantized corners, quantized
      centroid, quantized local box and an encoded normal. */
  datatype CachedTriangle = CachedTriangle(
    v1: U16Vec3, v2: U16Vec3, v3: U16Vec3,
    centroid: U16Vec3,
    min: U16Vec3, max: U16Vec3,
    normal: NormalCode)

  /** The loaded model: the triangle cache and the bounds it was quantized in. */
  datatype Object = Object(mesh: seq<CachedTriangle>, bounds: MeshBounds)

  /** A node of the flat BVH array. For an interior node (`triCount == 0`)
      `leftFirst` is the index of the left child and the right child is
      the next slot; for a leaf it is the first position of its range in
      the index permutation. The two padding words are not modelled. */
  datatype BvhNode = BvhNode(aabbMin: U16Vec3, aabbMax: U16Vec3, leftFirst: nat, triCount: nat)

  /** A value-initialized node, as appended by `emplace_back()`. */
  const DefaultNode: BvhNode := BvhNode(U16Vec3(0, 0, 0), U16Vec3(0, 0, 0), 0, 0)
}
