/** The shape of a built BVH as a value, and what it means for the flat
    node array to hold that shape: interior nodes point at two adjacent
    children further down the array, leaves own non-empty index ranges
    that tile their parent's range, and every node's box contains the
    triangles of its range and its children's boxes. */
module BvhTree {
  import opened Types
  import opened Aabb

  /** Why a node stays a leaf. */
  datatype StopReason = DepthOrSize | FlatCentroids | NoCheaperSplit | OneSided

  /** What the builder does with a node's triangles: keep them in a leaf,
      or divide them along `axis` at bin boundary `boundary` of the
      centroid range `[cmin, cmin + ext]`, at sweep cost `cost`, putting
      `leftCount` of them on the left. */
  datatype Decision =
    | Stop(why: StopReason)
    | Divide(axis: Axis, cmin: int, ext: nat, boundary: int, cost: int, leftCount: nat)

  /** A subtree rooted at array slot `at`: a leaf owning index positions
      `[first, first + count)`, or an interior node with two children.
      `seen` records the ids of the node's range as they stood when the
      builder reached the node, and `d` the decision it took there. */
  datatype Tree =
    | Leaf(at: nat, first: nat, count: nat, seen: seq<nat>, d: Decision)
    | Split(at: nat, left: Tree, right: Tree, seen: seq<nat>, d: Decision)

  /** First index position covered by a subtree. */
  function Lo(t: Tree): nat
  {
    match t
    case Leaf(_, f, _, _, _) => f
    case Split(_, l, _, _, _) => Lo(l)
  }

  /** One past the last index position covered by a subtree. */
  function Hi(t: Tree): nat
  {
    match t
    case Leaf(_, f, c, _, _) => f + c
    case Split(_, _, r, _, _) => Hi(r)
  }

  /** Every leaf is non-empty and the two children of every interior node
      are adjacent: the left child ends where the right child starts. */
  predicate Tiled(t: Tree)
  {
    match t
    case Leaf(_, _, c, _, _) => c >= 1
    case Split(_, l, r, _, _) => Tiled(l) && Tiled(r) && Hi(l) == Lo(r)
  }

  /** Number of nodes. */
  function Size(t: Tree): nat
  {
    match t
    case Leaf(_, _, _, _, _) => 1
    case Split(_, l, r, _, _) => 1 + Size(l) + Size(r)
  }

  function LeafCount(t: Tree): nat
  {
    match t
    case Leaf(_, _, _, _, _) => 1
    case Split(_, l, r, _, _) => LeafCount(l) + LeafCount(r)
  }

  /** Number of edges on the longest root-to-leaf path. */
  function Height(t: Tree): nat
  {
    match t
    case Leaf(_, _, _, _, _) => 0
    case Split(_, l, r, _, _) => 1 + (if Height(l) < Height(r) then Height(r) else Height(l))
  }

  /** The array slots the subtree occupies. */
  function Slots(t: Tree): set<nat>
  {
    match t
    case Leaf(at, _, _, _, _) => {at}
    case Split(at, l, r, _, _) => {at} + Slots(l) + Slots(r)
  }

  /** A tiled tree covers a non-empty range, has at most one leaf per
      triangle, and has exactly `2 * leaves - 1` nodes; so a tree over `n`
      triangles never needs more than `2n - 1` nodes. */
  lemma {:induction false} TiledCounts(t: Tree)
    requires Tiled(t)
    ensures Lo(t) < Hi(t)
    ensures 1 <= LeafCount(t) <= Hi(t) - Lo(t)
    ensures Size(t) == 2 * LeafCount(t) - 1
    ensures Size(t) <= 2 * (Hi(t) - Lo(t)) - 1
  {
    match t
    case Leaf(_, _, _, _, _) =>
    case Split(_, l, r, _, _) =>
      TiledCounts(l);
      TiledCounts(r);
  }

  /** The node array holds subtree `t`: leaves record their range, interior
      nodes have a zero count and point at their left child, which sits
      after them with the right child right behind it. */
  predicate Encodes(nodes: seq<BvhNode>, t: Tree)
  {
    t.at < |nodes| &&
    match t
    case Leaf(at, f, c, _, _) => nodes[at].leftFirst == f && nodes[at].triCount == c
    case Split(at, l, r, _, _) =>
      && nodes[at].triCount == 0
      && nodes[at].leftFirst == l.at
      && r.at == l.at + 1
      && at < l.at
      && Encodes(nodes, l)
      && Encodes(nodes, r)
  }

  /** Every slot of an encoded subtree is a valid array index at or after
      its root. */
  lemma {:induction false} EncodedSlots(nodes: seq<BvhNode>, t: Tree)
    requires Encodes(nodes, t)
    ensures forall j :: j in Slots(t) ==> t.at <= j < |nodes|
  {
    match t
    case Leaf(_, _, _, _, _) =>
    case Split(_, l, r, _, _) =>
      EncodedSlots(nodes, l);
      EncodedSlots(nodes, r);
  }

  /** Slots and array agree on the subtree: the slots hold the same nodes. */
  predicate SameOn(a: seq<BvhNode>, b: seq<BvhNode>, slots: set<nat>)
  {
    forall j :: j in slots ==> j < |a| && j < |b| && b[j] == a[j]
  }

  /** An encoded subtree depends only on the slots it occupies. */
  lemma {:induction false} EncodesFrame(a: seq<BvhNode>, b: seq<BvhNode>, t: Tree)
    requires Encodes(a, t) && SameOn(a, b, Slots(t))
    ensures Encodes(b, t)
  {
    match t
    case Leaf(_, _, _, _, _) =>
    case Split(_, l, r, _, _) =>
      EncodesFrame(a, b, l);
      EncodesFrame(a, b, r);
  }

  function BoxOf(n: BvhNode): Box
  {
    Box(n.aabbMin, n.aabbMax)
  }

  /** A triangle's quantized local min and max both lie in `b`. */
  predicate HoldsTriangle(b: Box, t: CachedTriangle)
  {
    Inside(b, t.min) && Inside(b, t.max)
  }

  /** `b` holds every triangle whose index sits at positions `[lo, hi)`. */
  predicate Covers(b: Box, mesh: seq<CachedTriangle>, idx: seq<nat>, lo: nat, hi: nat)
  {
    lo <= hi <= |idx| &&
    forall k :: lo <= k < hi ==> idx[k] < |mesh| && HoldsTriangle(b, mesh[idx[k]])
  }

  /** Every node of subtree `t` holds the triangles of its range, and every
      interior node's box contains both children's boxes. */
  predicate BoxesNest(nodes: seq<BvhNode>, t: Tree, mesh: seq<CachedTriangle>, idx: seq<nat>)
  {
    t.at < |nodes| && Covers(BoxOf(nodes[t.at]), mesh, idx, Lo(t), Hi(t)) &&
    match t
    case Leaf(_, _, _, _, _) => true
    case Split(at, l, r, _, _) =>
      && l.at < |nodes| && r.at < |nodes|
      && Within(BoxOf(nodes[l.at]), BoxOf(nodes[at]))
      && Within(BoxOf(nodes[r.at]), BoxOf(nodes[at]))
      && BoxesNest(nodes, l, mesh, idx)
      && BoxesNest(nodes, r, mesh, idx)
  }

  lemma WithinTrans(a: Box, b: Box, c: Box)
    requires Within(a, b) && Within(b, c)
    ensures Within(a, c)
  {
  }

  /** Nesting holds from a node to all of its descendants. */
  lemma {:induction false} DescendantsWithin(nodes: seq<BvhNode>, t: Tree, mesh: seq<CachedTriangle>, idx: seq<nat>)
    requires BoxesNest(nodes, t, mesh, idx)
    ensures forall j :: j in Slots(t) ==> j < |nodes| && Within(BoxOf(nodes[j]), BoxOf(nodes[t.at]))
  {
    match t
    case Leaf(_, _, _, _, _) =>
    case Split(at, l, r, _, _) =>
      DescendantsWithin(nodes, l, mesh, idx);
      DescendantsWithin(nodes, r, mesh, idx);
      forall j | j in Slots(t)
        ensures j < |nodes| && Within(BoxOf(nodes[j]), BoxOf(nodes[at]))
      {
        if j in Slots(l) {
          WithinTrans(BoxOf(nodes[j]), BoxOf(nodes[l.at]), BoxOf(nodes[at]));
        } else if j in Slots(r) {
          WithinTrans(BoxOf(nodes[j]), BoxOf(nodes[r.at]), BoxOf(nodes[at]));
        }
      }
  }

  /** The two index arrays agree on positions `[lo, hi)`. */
  predicate AgreeOn(x: seq<nat>, y: seq<nat>, lo: nat, hi: nat)
  {
    hi <= |x| && hi <= |y| && forall k :: lo <= k < hi ==> y[k] == x[k]
  }

  lemma CoversSame(b: Box, mesh: seq<CachedTriangle>, x: seq<nat>, y: seq<nat>, lo: nat, hi: nat)
    requires Covers(b, mesh, x, lo, hi) && AgreeOn(x, y, lo, hi)
    ensures Covers(b, mesh, y, lo, hi)
  {
  }

  /** Assembling nesting for an interior node from its parts. */
  lemma {:induction false} NestIntro(nodes: seq<BvhNode>, at: nat, l: Tree, r: Tree, seen: seq<nat>, d: Decision, mesh: seq<CachedTriangle>, idx: seq<nat>)
    requires at < |nodes| && Covers(BoxOf(nodes[at]), mesh, idx, Lo(l), Hi(r))
    requires l.at < |nodes| && r.at < |nodes|
    requires Within(BoxOf(nodes[l.at]), BoxOf(nodes[at])) && Within(BoxOf(nodes[r.at]), BoxOf(nodes[at]))
    requires BoxesNest(nodes, l, mesh, idx) && BoxesNest(nodes, r, mesh, idx)
    ensures BoxesNest(nodes, Split(at, l, r, seen, d), mesh, idx)
  {
  }

  /** Box nesting depends only on the subtree's slots and on the index
      positions of its range. */
  lemma {:induction false} BoxesNestFrame(a: seq<BvhNode>, b: seq<BvhNode>, t: Tree,
                                          mesh: seq<CachedTriangle>, x: seq<nat>, y: seq<nat>)
    requires BoxesNest(a, t, mesh, x) && Encodes(a, t) && Tiled(t)
    requires SameOn(a, b, Slots(t)) && AgreeOn(x, y, Lo(t), Hi(t))
    ensures BoxesNest(b, t, mesh, y)
  {
    CoversSame(BoxOf(a[t.at]), mesh, x, y, Lo(t), Hi(t));
    match t
    case Leaf(_, _, _, _, _) =>
    case Split(_, l, r, _, _) =>
      TiledCounts(l);
      TiledCounts(r);
      BoxesNestFrame(a, b, l, mesh, x, y);
      BoxesNestFrame(a, b, r, mesh, x, y);
  }
}
