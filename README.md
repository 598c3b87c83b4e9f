# Multi-Mesh Slicer — a Dafny model of its cut-placement core

The Multi-Mesh Slicer is a Blender add-on. It cuts the selected mesh objects into slabs with axis-aligned planes. The planes are spaced evenly over the combined bounding box of the objects. Its operator `Cutter.execute` works in these steps:

1. Take the per-axis minimum and maximum of the world-space bound-box corners of the selected objects.
2. Turn each scene cut count `C` into a target `C + 1`.
3. List every integer pair `[n, m]` with `n + m` equal to the target (`find_pairs_summing_to`).
4. Turn each pair into a plane point whose coordinate along the cut axis is `(n*lo + m*hi)/(n+m)` (`find_division_point_x/y/z`).
5. Bisect every mesh by every plane, X planes first, then Y, then Z. After each plane it deletes the meshes left without vertices (`delete_empty_ob`).
6. Delete the helper bounding-box object and its slices, which are all the objects whose name contains `Block_Bound_L` (`del_bound_box`).

The model is split into these modules:

- `Geometry` (geometry.dfy): points as exact real 3-vectors, the axes, cut planes, and an `Option` for computations the source aborts with an exception.
- `Pairs` (pairs.dfy): the pair enumeration. It is an imperative method with the source's nested loops and reverse-membership test. It is proved equal to a reference list `PairsSummingTo`. The lemmas give that list's length, members, distinctness and order.
- `Division` (division.dfy): the three division-point loops, and where one weighted coordinate lies. It also holds the reference positions `EvenPositions(lo, hi, C)`, which are `lo + (hi-lo)*k/(C+1)` for `k = 1..C`. Lemmas give their count and index formula (`EvenPositionsAt`) and their members (`EvenPositionsMembers`). The central lemma is `CutCountPositions`: weighting `[lo, hi]` by the pairs for `C + 1` gives exactly the multiset of those `C` positions.
- `Bounds` (bounds.dfy): the combined bounding box as recursive per-axis `min`/`max`. It proves containment and tightness.
- `Pool` (pool.dfy): scene objects as records (type, name, vertex count). The object pool is a `Scene` class whose `objects` field the pruning and slicing loops reassign. The deletions are specified by the filter `Survivors`. The slicing loop is specified by the fold `SliceThrough`, which takes the host's bisect as an uninterpreted function parameter.
- `Slicer` (slicer.dfy): `execute` without the host plumbing. It covers the count offset, the plan of plane points, the three plane loops and the final helper-box removal.

## Behaviour of the source worth knowing

The model follows these facts about `execute`:

- The plane points do not come out in increasing order. The pairs run `[1,t-1], [t-1,1], [2,t-2], …`, so the first point lies nearest the maximum and the second nearest the minimum. Only the multiset of positions equals the evenly spaced list. `AxisPositionsExample` fixes the order for three cuts over `[0, 10]`: `[7.5, 2.5, 5.0]`.
- The box comes from the eight `bound_box` corners of each selected object.
- With nothing selected, Python's `min` raises a `ValueError` after the empty helper object has been linked into the scene. `Execute` models this: it fails and leaves `EmptyBox` appended to the pool.
- A cut count of zero or less gives no planes. The scene properties have no lower bound, so negative counts are possible.

## Model

| member | source | states |
|---|---|---|
| `Pairs.FindPairsSummingTo` | __init__.py:201-217 | The nested loops with the reverse-membership test return exactly `PairsSummingTo(target)`: for `i` ascending, `[i, t-i]` and then `[t-i, i]` while `2i < t`, and the middle pair `[t/2, t/2]` once. |
| `Pairs.ReverseCheck` | __init__.py:213-215 | At a hit `i + j == t` with `i <= j`, the reversed pair is already listed exactly when `i == j`. So a reverse is added for every unequal pair and is never duplicated. |
| `Pairs.PairsCount` | __init__.py:201-217 | The enumeration returns `t-1` pairs for `t >= 1` and none for `t <= 1`. |
| `Pairs.PairsMembers` | __init__.py:206-211 | A pair is returned exactly when `1 <= n <= t-1` and `m == t-n`, so as a set it is `{[i, t-i] : 1 <= i <= t-1}`. |
| `Pairs.PairsWellFormed` | __init__.py:206-211 | Every returned pair has `n + m == t` and both weights in `1..t-1`. |
| `Pairs.PairsDistinct` | __init__.py:206-215 | No pair is returned twice. |
| `Pairs.PairsOrder` | __init__.py:206-215 | `[i, t-i]` sits at index `2i-2` with its reverse right after it, for `i` ascending, and an even target's middle pair comes last. |
| `Division.FindDivisionPointX` | __init__.py:174-182 | The call succeeds exactly when no pair's weights sum to zero (otherwise Python raises ZeroDivisionError). Then there is one point per pair, in pair order, with x the weighted coordinate over `[x1, x2]` and y, z the inputs unchanged. |
| `Division.FindDivisionPointY` | __init__.py:183-191 | The same as the x variant, with y interpolated over `[y1, y2]` and x, z unchanged. |
| `Division.FindDivisionPointZ` | __init__.py:192-200 | The same as the x variant, with z interpolated over `[z1, z2]` and x, y unchanged. |
| `Division.WeightedIsPosition` | __init__.py:180 | `(n*lo + m*hi)/(n+m)` equals `lo + (hi-lo)*m/(n+m)`, the point `m/(n+m)` of the way from lo to hi. |
| `Division.WeightedBetween` | __init__.py:180 | With non-negative weights the weighted coordinate lies in `[lo, hi]`. With positive weights and `lo < hi` it lies strictly inside. |
| `Division.CutCountPositions` | __init__.py:93-95 | Weighting `[lo, hi]` by the pairs for `count + 1` gives the multiset of the evenly spaced positions `lo + (hi-lo)*k/(count+1)`, `k = 1..count`. No pair sums to zero. |
| `Division.AxisPositionsCount` | __init__.py:66-68 | A scene count `C` yields `max(C, 0)` plane coordinates on its axis, so counts of zero or less give no planes. |
| `Division.AxisPositionsMembers` | __init__.py:66-68 | A scene count `C` yields `max(C, 0)` plane coordinates. As a set they are exactly `lo + (hi-lo)*k/(C+1)` for `k = 1..C`. |
| `Division.AxisPositionsExample` | __init__.py:93-95 | Three cuts over `[0, 10]` give the coordinates in the order `[7.5, 2.5, 5.0]`: the pairs `[1,3], [3,1], [2,2]` weighted in turn. |
| `Division.AxisPositionsInside` | __init__.py:174-200 | Every plane coordinate lies in `[lo, hi]` when `lo <= hi`, and strictly inside when `lo < hi`. |
| `Bounds.CornersMembers` | __init__.py:77-78 | The generator over objects and their corners yields a point exactly when it is a corner of some object. |
| `Bounds.MinAlong` | __init__.py:77 | The per-axis minimum is at most every point's coordinate, and some point attains it. |
| `Bounds.MaxAlong` | __init__.py:78 | The per-axis maximum is at least every point's coordinate, and some point attains it. |
| `Bounds.CombinedBox` | __init__.py:77-78 | The box is absent exactly when there are no corners (Python's ValueError). Otherwise every corner of every object lies componentwise between `min_coord` and `max_coord`. |
| `Bounds.CombinedBoxTight` | __init__.py:77-78 | On each axis `min_coord <= max_coord`, and both values are attained by some corner. |
| `Pool.ContainsIff` | __init__.py:155 | The substring test `n_box in obj.name` holds exactly when `n_box` occurs at some position of the name. |
| `Pool.Scene.SelectWhere` | __init__.py:153-156 | After deselecting everything, the loop selects object `k` exactly when the criterion holds for it. |
| `Pool.UnselectedSurvivors` | __init__.py:157 | Deleting the selection made by a criterion leaves exactly the objects the criterion rejects. |
| `Pool.Scene.DeleteEmptyObjects` | __init__.py:159-167 | The new pool is the old pool with every vertex-less mesh removed. |
| `Pool.Scene.DeleteBoundBox` | __init__.py:152-157 | The new pool is the old pool with every object whose name contains `boxName` removed. |
| `Pool.SurvivorsMembers` | __init__.py:159-167 | An object remains exactly when it was in the pool and is not selected. So no empty mesh remains after `delete_empty_ob`, and no object named after the box remains after `del_bound_box`. |
| `Pool.SurvivorsCount` | __init__.py:152-167 | Nothing else changes: each unselected object keeps its multiplicity, and each selected one is gone. |
| `Pool.SurvivorsAppend` | __init__.py:159-167 | The original order is kept: pruning a concatenation prunes each part in place. |
| `Pool.SurvivorsUnchanged` | __init__.py:152-157 | A pool in which nothing is selected is left as it is. |
| `Pool.Scene.SliceAlong` | __init__.py:115-126 | One plane loop: for each point, bisect by the plane through it and delete the empty meshes. The result is the fold `SliceThrough` of the old pool over those planes. |
| `Pool.SliceThroughAppend` | __init__.py:115-126 | Running the X loop, then the Y loop, then the Z loop is the same as one fold over all planes in that order. |
| `Pool.SliceLeavesNoEmptyMesh` | __init__.py:115-126 | Once at least one plane has been applied, no empty mesh survives, whatever the bisect produces. |
| `Slicer.PlacePoints` | __init__.py:93-95 | One axis line of `execute`, pairs then division points, gives exactly `AxisPoints` for the count `target - 1`. |
| `Slicer.AxisPointsEvenlyPlaced` | __init__.py:93-95 | An axis with count `C` gets `max(C, 0)` points. Along the axis they form the multiset of evenly spaced interior positions of the box's extent, strictly inside when the extent is not flat. Their other two coordinates are the anchor's. |
| `Slicer.PlanCuts` | __init__.py:66-95 | The plan fails exactly when there are no corners. Otherwise it holds the combined box, and each axis's points are those of its scene count plus one. |
| `Slicer.PlanEvenlyPlaced` | __init__.py:66-95 | The planned box holds every corner, and each axis's points are evenly placed, one per requested cut. |
| `Slicer.Execute` | __init__.py:54-149 | Without corners, the pool only gains the empty helper. Otherwise the pool becomes the helper-free survivors of slicing the pool plus the filled helper box through all X, then Y, then Z planes. |
| `Slicer.ExecuteLeavesNoHelper` | __init__.py:143 | After `execute`, no object whose name contains `Block_Bound_L` remains. With at least one plane, no empty mesh remains either. |
| `Slicer.AllPlanesCount` | __init__.py:115-126 | The number of planes applied is the sum of the non-negative scene cut counts. |
| `Slicer.ZeroCutsIdentity` | __init__.py:62-143 | With zero cuts on every axis, the pool comes back unchanged, provided no object was itself named after the helper box. |

## Left out

- Selection, active-object, edit-mode, visibility and viewport-hiding state of the host scene are not modelled (`bpy.ops.*`, `bpy.context`). `Scene.objects` stands for the visible objects the operator acts on. That the add-on hides other objects, so they are neither cut nor deleted, is not captured.
- The bisect itself (`slice_mesh`, `bpy.ops.mesh.bisect`, and the duplication before it) is a foreign geometry kernel. It appears only as the uninterpreted function parameter `cut`.
- Normal preservation is not modelled: the duplicate objects, the DATA_TRANSFER modifier and its application.
- The `matrix_world @ Vector(b)` transform is not modelled. The corners are given already in world space.
- How the cube is built in the helper mesh (`bmesh.ops.create_cube`, `scale`, `translate`) is not modelled. The model records only that the helper becomes a mesh with 8 vertices.
- Coordinates are exact reals. Float rounding of `(n*x1 + m*x2)/(m+n)` is not modelled.
- The two coordinates a plane point copies from `obj.location` are taken as the parameter `anchor`. The source reads them from a leftover loop variable, and they do not affect an axis-aligned plane.
- Blender's renaming of duplicates (`.001` suffixes) and of a clashing helper name is not modelled. The model relies only on the substring test that makes the renaming harmless.
- The panel, the scene properties, `register`/`unregister` and `get_classes` are not modelled.
- Division.FindDivisionPointX: Python's exception is modelled as `None`. The same goes for the Y and Z variants, `Bounds.CombinedBox` and `Slicer.PlanCuts`.
