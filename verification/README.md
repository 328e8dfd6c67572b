# Geometry preparation of a ray-tracing demo, in Dafny

This project models two CPU-side stages that run before a mesh is handed
to the GPU, and proves properties about them.

- **Bounds and cache** (src/LoadModel.cpp):
  - `load_bounds` computes the axis-aligned box of every vertex of a
    triangle list.
  - `load_cache` turns each triangle into a `CachedTriangle` record. The
    record holds the three vertices, the centroid and the triangle's own
    min/max corner, all quantized to 16-bit coordinates inside the mesh
    box, plus an encoded normal.
- **Binned surface-area-heuristic (SAH) BVH builder**
  (src/SurfaceAreaHeuristic.cpp):
  - `build_bvh` seeds an identity index array and a root node.
  - `split_bvh_node` does the following for each node:
    - computes the node's box;
    - stops at the depth or size cut-off;
    - picks the axis of largest centroid spread;
    - bins the centroids into 16 buckets;
    - sweeps left and right over the 15 bucket boundaries;
    - keeps the first cheapest boundary;
    - partitions the node's index range in place;
    - appends two children and recurses.

Arithmetic is exact:
- `float` is `real` in the loader, and the builder's areas and costs are
  integers (spans of 16-bit coordinates multiplied out).
- `u16` is the subset type `0..65535`.
- `FLT_MAX`, the start value of the split search, is the integer
  `340282346638528859811704183484516925440`.

The global `max_depth` counter is threaded through the recursion as an
in/out value. The shape the builder produces is returned as a ghost
`Tree` value, and the node array is proved to encode that tree.

Modules:
- `Types`: the records.
- `Aabb`: boxes, `grow_bounds`, `get_surface_area`.
- `Quantization`: `quantize_position`.
- `LoadModel`: the loader.
- `Partition`: `std::partition` on an index range.
- `Binning`: bins, sweeps, costs, best boundary.
- `BvhTree`: the tree shape and its encoding.
- `Sah`: the split decision, `split_bvh_node`, `build_bvh`.
- `SplitExample`: a three-triangle mesh on which the split branch is shown
  to be taken.

Behaviour of the code that the model keeps as written:
- `build_bvh` on an empty mesh returns at line 174 before touching its
  outputs. The model therefore leaves both arrays as they were passed in.
- `load_cache` on an empty list returns `false` at line 18, before the
  `clear()` at line 20. The model therefore leaves the whole `Object`
  unchanged.
- Line 90 calls `grow_bounds(bins[i].max, bins[i].max, tri.max)`, with
  both reference parameters naming the same vector. The `min` update runs
  first and the `max` update then reads the value it wrote, so each
  component ends equal to `tri.max`. A bin's `max` is the `max` of the
  last triangle binned there, not a running maximum. `Aabb.GrowAliased`
  and `Binning.AddToBin` model this literally.
- The binning pass clamps the bin index only from above (line 86), while
  the partition predicate clamps on both sides (line 141).
  `Binning.BinIndexInRange` shows that the two agree for every centroid
  in the centroid box.
- `std::partition` (line 136) does not fix the order of the elements on
  each side. The model uses the two-ended swap loop of libstdc++'s
  `std::partition`. The order matters: because of line 90 a bin's `max`
  depends on which of its triangles comes last, so the order the
  partition leaves on each side feeds into the children's costs.

## Model

| member | source | states |
|---|---|---|
| Aabb.Grow | src/SurfaceAreaHeuristic.cpp:32-40 | after growing, the point lies in the box and the old box lies in the new one: corners only move outward |
| Aabb.GrowLeast | src/SurfaceAreaHeuristic.cpp:32-40 | growing moves no corner further than needed: any box holding the old box and the point holds the grown box |
| Aabb.GrowAliased | src/SurfaceAreaHeuristic.cpp:90 | growing a corner with itself as both `min` and `max` leaves it equal to the point grown by, component by component |
| Aabb.AreaMonotone | src/SurfaceAreaHeuristic.cpp:24-30 | a proper box inside another has a surface area between zero and the outer box's area |
| Aabb.EmptyBoxArea | src/SurfaceAreaHeuristic.cpp:17-30 | the inverted start box (min 65535, max 0) has area `6 * 65535^2`, because the spans are signed and all three are negative |
| Aabb.GrowIsProper | src/SurfaceAreaHeuristic.cpp:32-40 | growing the inverted start box, or any proper box, by a point gives a proper box (min ≤ max on every axis) |
| Quantization.QuantizeMonotone | src/LoadModel.cpp:34-40 | quantization with the same origin and extent preserves the componentwise order of points |
| Quantization.QuantizeRoundTrip | src/LoadModel.cpp:34-36 | a coordinate inside the box, quantized and mapped back, lands within `extent / 131070` of where it started |
| Quantization.QuantizeMidpoint | tests/test_main.cpp:32-46 | the midpoint of a box from 0 to 10 quantizes to within 5 of 32767 on every axis |
| LoadModel.GrowReal | src/LoadModel.cpp:86-92 | one vertex update encloses the vertex, moves the corners only outward, and takes every corner component from the old corner or from the vertex |
| LoadModel.BoundsEnclose | src/LoadModel.cpp:78-94 | the accumulated bounds contain every vertex of every triangle |
| LoadModel.BoundsTight | src/LoadModel.cpp:78-94 | for a non-empty list of finite vertices, each component of `minPos` and of `maxPos` equals the matching coordinate of some input vertex |
| LoadModel.LoadBounds | src/LoadModel.cpp:74-96 | succeeds exactly when the list is non-empty; on failure the bounds are left as they were; on success they enclose every vertex and, with finite vertices, are attained |
| LoadModel.BoundsOfOneTriangle | tests/test_main.cpp:50-68 | one triangle spanning -1 to 1 on x and 0 to 1 on y gives `minPos.x = -1`, `maxPos.x = 1`, `maxPos.y = 1` |
| LoadModel.ClampAxis | src/LoadModel.cpp:25-27 | the extent used per axis is at least `1e-6`; it is the span itself when the span reaches `1e-6`, and exactly 1.0 otherwise |
| LoadModel.ClampedExtent | src/LoadModel.cpp:23-27 | every axis of the clamped extent is at least `1e-6`, so quantization never divides by zero |
| LoadModel.LocalBounds | src/LoadModel.cpp:43-56 | the local box encloses all three vertices, has min ≤ max, and takes each corner component from one of the vertices |
| LoadModel.CentroidInLocalBounds | src/LoadModel.cpp:39-56 | the centroid `(v1+v2+v3)/3` lies inside the triangle's local box |
| LoadModel.CacheTriangle | src/LoadModel.cpp:31-65 | in the record, the quantized min corner is ≤ each quantized vertex and the centroid, and those are ≤ the quantized max corner |
| LoadModel.LoadCache | src/LoadModel.cpp:16-72 | succeeds exactly when the list is non-empty; on failure the object is unchanged; `bounds` is never written; on success there is one record per triangle in input order, every field quantized with the same `minPos` and clamped extent, with the normal encoded from the face normal and the centroid between the min and max corners |
| Partition.PartitionRange | src/SurfaceAreaHeuristic.cpp:136-143 | the range is permuted and nothing outside it changes; elements satisfying the predicate come first, the rest after the returned split point; when the split point is either end of the range, no element moved |
| Partition.PartitionCount | src/SurfaceAreaHeuristic.cpp:145 | the distance from the range start to the split point is the number of elements in the range that satisfy the predicate |
| Partition.CountIfPerm | src/SurfaceAreaHeuristic.cpp:136-145 | sequences with the same multiset of elements have the same number of elements satisfying any predicate |
| Binning.BinIndexInRange | src/SurfaceAreaHeuristic.cpp:80-86 | for a centroid in the centroid box, the bin index lies in 0..15, is the truncated scaled offset, and equals the index the partition predicate computes (lines 140-141) |
| Binning.AddToBin | src/SurfaceAreaHeuristic.cpp:88-90 | adding a triangle raises the bin's count by one, lowers its `min` to lie below both the old `min` and the triangle's local min, and sets its `max` to the triangle's local max whatever it held before |
| Binning.Bins | src/SurfaceAreaHeuristic.cpp:83-91 | the pass yields 16 bins, and no bin counts more triangles than the node has |
| Binning.BinContents | src/SurfaceAreaHeuristic.cpp:83-91 | each bin counts exactly the triangles whose centroid falls in it; an unused bin keeps its initial value; its `min` lies below the `min` of every member; its `max` is the `max` of the last member binned there |
| Binning.BinMinAttained | src/SurfaceAreaHeuristic.cpp:83-91 | the bound on a non-empty bin's `min` is attained: on every axis it equals the local `min` of one of the bin's own triangles, so it is their componentwise minimum |
| Binning.LeftBoxLeast | src/SurfaceAreaHeuristic.cpp:96-106 | the left sweep's box after bins `0..n-1` holds both corners of every non-empty bin among them and lies inside every box that does, so it is the least such box |
| Binning.RightBoxLeast | src/SurfaceAreaHeuristic.cpp:108-118 | the right sweep's box over bins `n..15` is likewise the least box holding both corners of every non-empty bin among them |
| Binning.LeftBoxOfMembers | src/SurfaceAreaHeuristic.cpp:83-106 | the left sweep's box lies below the local `min` of every triangle binned below the boundary, but covers the local `max` only of the last triangle of each bin |
| Binning.RightBoxOfMembers | src/SurfaceAreaHeuristic.cpp:83-118 | the same for the right sweep's box and the triangles binned at or above the boundary |
| Binning.LeftSweep | src/SurfaceAreaHeuristic.cpp:96-106 | the loop leaves, at entry `i`, the area and count of the least box over the non-empty bins `0..i` and the number of triangles in them |
| Binning.RightSweep | src/SurfaceAreaHeuristic.cpp:108-118 | the downward loop leaves, at entry `i`, the area and count of the least box over the non-empty bins `i+1..15` and the number of triangles in them |
| Binning.SplitSearch | src/SurfaceAreaHeuristic.cpp:93-130 | the two sweeps and the search loop, run over arrays as written, return exactly the boundary and cost that `BestBoundary` characterises over the 15 costs |
| Binning.BestBoundary | src/SurfaceAreaHeuristic.cpp:120-130 | the chosen boundary has the least cost of all and is the first to reach it, and its cost is below `FLT_MAX`; the sentinel `-1` is returned only when no cost is below `FLT_MAX` |
| Binning.SweepCounts | src/SurfaceAreaHeuristic.cpp:96-118 | the left sweep's count at a boundary is the number of triangles in bins below it, and left plus right counts is the triangle count |
| Binning.LeftRightTotal | src/SurfaceAreaHeuristic.cpp:98-117 | at every boundary the left and right sweep counts add up to the total over all 16 bins |
| BvhTree.TiledCounts | src/SurfaceAreaHeuristic.cpp:182 | a tree whose leaves are non-empty and whose children are adjacent covers a non-empty range, has at most one leaf per triangle, and has `2 * leaves - 1 <= 2n - 1` nodes, within the `2n` that `reserve` asks for |
| BvhTree.DescendantsWithin | src/SurfaceAreaHeuristic.cpp:49-55 | when boxes nest, the box of every node in a subtree lies inside the box of the subtree's root |
| Sah.TriangleBounds | src/SurfaceAreaHeuristic.cpp:49-55 | the node box holds every triangle's local min and max; it is proper for a non-empty range and the inverted start box for an empty one |
| Sah.TriangleBoundsLeast | src/SurfaceAreaHeuristic.cpp:49-55 | the node box lies inside any box that holds all the node's triangles |
| Sah.CentroidBounds | src/SurfaceAreaHeuristic.cpp:62-67 | the centroid box contains every centroid and is proper when there are triangles |
| Sah.CentroidBoundsLeast | src/SurfaceAreaHeuristic.cpp:62-67 | the centroid box lies inside any box containing all centroids |
| Sah.ChooseAxis | src/SurfaceAreaHeuristic.cpp:69-74 | the chosen axis has the largest centroid spread, and every lower-numbered axis has a strictly smaller one (x wins ties with y and z, y wins ties with z) |
| Sah.Decide | src/SurfaceAreaHeuristic.cpp:57-147 | a node is divided only below depth 32, with more than 2 triangles, and with both sides of the partition non-empty; which axis it divides along, and the flat-spread stop at line 77, are stated by `Sah.DivideAgreesWithSweep` and `Sah.FlatCentroidsStop` |
| Sah.DecideAlong | src/SurfaceAreaHeuristic.cpp:79-147 | along a fixed axis, a division records that axis and centroid range and leaves both sides non-empty |
| Sah.DivideAgreesWithSweep | src/SurfaceAreaHeuristic.cpp:62-147 | when a node is divided, its axis is the one `ChooseAxis` picks from the centroid box (widest spread, lowest axis on ties), its bin origin and extent are that box's minimum and spread on the axis, the spread is positive, the boundary is one of the 15 real ones, its cost is the sweep cost there, the least and first least, below the leaf cost, and the partition's left size equals the left sweep's count there |
| Sah.FlatCentroidsStop | src/SurfaceAreaHeuristic.cpp:57-77 | a node stays a leaf because of a flat centroid spread exactly when it passed the depth and size test and all its triangle centroids coincide |
| Sah.DivideAlongWhenCheaper | src/SurfaceAreaHeuristic.cpp:79-147 | the converse along a fixed axis: if the first cheapest boundary costs less than `FLT_MAX` and the leaf cost, and the partition leaves both sides non-empty, the node is divided at that boundary with that cost and left size |
| Sah.DecideBinsAlongAxis | src/SurfaceAreaHeuristic.cpp:57-79 | a node past the depth and size cut-offs with a non-flat centroid spread on the chosen axis is decided by binning along that axis over the centroid box |
| Sah.PlanSplit | src/SurfaceAreaHeuristic.cpp:57-147 | the index range is only permuted; the returned left size is zero exactly when the node stays a leaf, in which case the ids are untouched, and otherwise left ids satisfy the partition predicate and right ids fail it; `max_depth` is raised only for nodes past the cut-off |
| Sah.SplitAlong | src/SurfaceAreaHeuristic.cpp:79-147 | along a fixed axis the range is permuted, the left size is zero exactly when no split happens, in which case the ids are untouched, and the two sides are separated by the chosen boundary |
| Sah.AddChildren | src/SurfaceAreaHeuristic.cpp:149-165 | the parent becomes interior (`triCount = 0`, `leftFirst` = the left child's slot); the two appended children split the parent's range at the left size; other nodes are unchanged |
| Sah.SplitNode | src/SurfaceAreaHeuristic.cpp:43-169 | the subtree built under the node tiles its range with non-empty leaves; the range holds a permutation of its ids and nothing else moves; the node keeps its slot, and every slot it uses is newly appended; boxes nest and hold their triangles; the node splits exactly when `Decide` on the triangles its range held divides, the left child then getting the decision's left size; the whole subtree follows the SAH: every node records the decision `Decide` takes on the ids its range held when the builder reached it, at its own depth, and carries it out (a leaf records a stop; a divided node's children saw those ids split by the chosen boundary, `leftCount` going left and the rest right), and the final array holds each node's ids in its range; every node's stored box is exactly the bounds of the triangles it saw; depth stays within 32; `max_depth` ends as the larger of its old value and the deepest level at which a node got past the cut-off at line 57 (depth below 32, more than two triangles), counting nodes that then stay leaves; a node that stays a leaf leaves the ids untouched |
| Sah.SplitChildren | src/SurfaceAreaHeuristic.cpp:167-168 | the two children are built left first, one level deeper: each follows the SAH over the ids its half held after the partition, both stay within the parent's box, every node of either subtree stores exactly the bounds of the triangles it saw, and the right child's build does not disturb the left subtree; `max_depth` ends as the larger of its old value and the deepest level past the line-57 cut-off in either subtree |
| Sah.SplitChild | src/SurfaceAreaHeuristic.cpp:167-168 | one recursive call: the built subtree is encoded at the child's slot, follows the SAH from the child's depth over the ids its range held, every node in it stores exactly the bounds of the triangles it saw, and its box lies inside the parent's; `max_depth` grows to the deepest level past the line-57 cut-off in the subtree |
| Sah.LeafFollows | src/SurfaceAreaHeuristic.cpp:57-147 | a node that the decision stops is an SAH leaf over the ids its range held, whatever permutation the range holds afterwards |
| Sah.SahParent | src/SurfaceAreaHeuristic.cpp:136-168 | a divided node whose range was partitioned by its decision, over two children that follow the SAH one level deeper over the two halves, follows the SAH |
| Sah.FollowsChildren | src/SurfaceAreaHeuristic.cpp:167-168 | both subtrees of an SAH tree are SAH trees one level deeper |
| Sah.SplitSeparates | src/SurfaceAreaHeuristic.cpp:136-168 | in every divided node of an SAH tree, the final id array holds in the left child's range exactly `leftCount` ids that go left under the node's decision, and in the right child's range ids that do not, so the partition survives the reordering below it |
| Sah.CarriedFrame | src/SurfaceAreaHeuristic.cpp:164-168 | whether a subtree carries out its decisions depends only on the id positions of its own range, so building the sibling leaves it intact |
| Sah.BoxesExactFrame | src/SurfaceAreaHeuristic.cpp:164-168 | whether every node of a subtree stores exactly the bounds of the triangles it saw depends only on the subtree's own slots, so writing the sibling's slots leaves it so |
| Sah.BoxesExactAt | src/SurfaceAreaHeuristic.cpp:49-55 | in a tree whose boxes are exact, as `Sah.SplitNode` and `Sah.BuildBvh` ensure, any node reached from the root, at any depth, stores exactly the bounds of the triangles it saw when the builder reached it |
| Sah.FillIds | src/SurfaceAreaHeuristic.cpp:176-179 | after the resize to `n`, whatever the array held before, every position `i` holds `i` |
| Sah.BuildBvh | src/SurfaceAreaHeuristic.cpp:171-192 | an empty mesh leaves both outputs untouched; otherwise indices are a permutation of `0..n-1`, the nodes encode a tree rooted at slot 0 whose non-empty leaves tile `[0, n)`, with no unused slot and at most `2n - 1` nodes; boxes nest; the root box is the mesh box; height is at most 32 and `max_depth` below 32; the tree follows the SAH from depth 0 over the identity ids, so the root splits exactly when `Decide` on the whole mesh divides and every node records and carries out `Decide` on the ids it saw; every node's stored box is exactly the bounds of the triangles it saw; `max_depth` is the deepest level at which a node got past the line-57 cut-off (depth below 32, more than two triangles), or 0 when none did; a root that stays a leaf leaves the ids as `0..n-1` |
| SplitExample.SpreadBins | src/SurfaceAreaHeuristic.cpp:83-91 | triangles at 0, 10 and 20 fall into bins 0, 7 and 15, and every other bin stays empty |
| SplitExample.SpreadFirstCost | src/SurfaceAreaHeuristic.cpp:96-125 | for that mesh the cost at boundary 0 is `1 * 0 + 2 * 600 = 1200` |
| SplitExample.SpreadSplits | src/SurfaceAreaHeuristic.cpp:120-147 | that mesh's root is divided, along x, so the split branch is reachable |
| SplitExample.AliasedMaxDropsEarlier | src/SurfaceAreaHeuristic.cpp:88-104 | two triangles in bin 0 reaching up to 50 and then up to 2 leave a left sweep box reaching only up to 2, which does not hold the first triangle's local max |

## Left out

- `load_mesh` (src/LoadModel.cpp:98 onward) and src/main.cpp are not part of this model: they are glTF parsing through a foreign library, window and GPU set-up, the render loop and background loading.
- IEEE-754 rounding is not modelled. Positions are exact reals; the bin scale `16 / (extent + 0.1)` and the truncation are exact; surface areas and costs are exact integers. A float cost that rounds differently could pick a different boundary.
- The `1e-6f` and `1e-4f` thresholds are the reals 0.000001 and 0.0001, not their nearest floats. The centroid spread is an integer, so the `1e-4f` test means "spread is zero".
- The console output at src/LoadModel.cpp:70 and src/SurfaceAreaHeuristic.cpp:191 is left out, because it does not affect results.
- `encode_normal`, `normalize` and `quantize_position` belong to the Types module, which is not part of this model. `encode_normal ∘ normalize` is a function parameter of `LoadModel.LoadCache`. The face normal it receives is `cross(v2 - v1, v3 - v1)`, computed exactly.
- Quantization.QuantizeAxis: the body of `quantize_position` is assumed to be `floor(clamp((v - min) / extent, 0, 1) * 65535 + 0.5)` per axis. Its source is not part of this model, so its rounding mode is an assumption.
- `BvhNode`'s `pad1`/`pad2` fields (lines 46-47) are left out; they only pad the GPU layout.
- The 32-bit width of `uint` is not modelled. Node indices and counts are unbounded naturals; a mesh needs more than 2^31 triangles before the width matters.
- `reserve`, `emplace_back` reallocation and the dangling `node` reference the source warns about (line 152) are not modelled. The node arena is an immutable sequence that grows by two per split.
- Sah.SplitNode, Sah.BuildBvh: for nodes below the one called, the contract fixes the ids each node saw only up to their order within the node's side of its parent's partition. Their decisions are stated over the order they saw, but that order is pinned to the array only for the called node (`t.seen`) and its two children (`Sah.SplitChildren`), not to the order libstdc++'s partition produces deeper down. The set of ids each node saw, and so its stored box (`Sah.BoxesExact`), is pinned for every node.
- Sah.SplitNode: the SAH area monotonicity of the whole tree (every node's surface area at most its parent's) is not stated as one lemma. It follows from `BvhTree.DescendantsWithin` with `Aabb.AreaMonotone` for nodes whose boxes are proper. Every stored box is the bounds of the node's triangles (`Sah.BoxesExactAt`), and `Sah.TriangleBounds` proves such a box proper for every non-empty range.
- The `bins` array and the binning loop (lines 79-91) are the pure function `Binning.Bins` rather than an array filled in place. The sweep and search loops (lines 93-130) are modelled as written by `Binning.SplitSearch`, which is proved to return the choice `Sah.DecideAlong` takes from the pure functions `Binning.Costs` and `Binning.BestBoundary`.
