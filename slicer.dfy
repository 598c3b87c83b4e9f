/**
 * The arithmetic of the slicing operator (`Cutter.execute`): cut counts
 * offset by one, the combined bounding box, the pair enumeration and the
 * division points on each axis, the three plane loops over the object pool
 * and the final removal of the helper bounding-box object.
 */
module Slicer {
  import opened Geometry
  import opened Pairs
  import opened Division
  import opened Bounds
  import opened Pool

  /** The name of the helper box object; its slices inherit it as a prefix. */
  const BoundingBoxName: string := "Block_Bound_L"

  /** The helper box right after it is linked: a mesh with no vertices yet. */
  const EmptyBox: SceneObject := SceneObject(Mesh, BoundingBoxName, 0)

  /** The helper box once the cube (8 vertices) has been written into it. */
  const FilledBox: SceneObject := SceneObject(Mesh, BoundingBoxName, 8)

  /** `base` with its coordinate along `a` replaced by `v`. */
  function WithCoord(base: Vec3, a: Axis, v: real): Vec3
  {
    match a
    case X => Vec3(v, base.y, base.z)
    case Y => Vec3(base.x, v, base.z)
    case Z => Vec3(base.x, base.y, v)
  }

  /** The plane points placed along `a` for a scene cut count `count`: the
      pair-weighted coordinates over the box's extent on `a`, the other two
      coordinates taken from `anchor`. */
  function AxisPoints(a: Axis, count: int, box: Box, anchor: Vec3): seq<Vec3>
  {
    var c := AxisPositions(count, Coord(box.lo, a), Coord(box.hi, a));
    seq(|c|, k requires 0 <= k < |c| => WithCoord(anchor, a, c[k]))
  }

  /** The net effect promised for one axis: one plane per requested cut, at
      the evenly spaced interior positions of the box's extent on `a` (each
      once, in some order), strictly inside a non-flat extent, with the other
      two coordinates unchanged from `anchor`. */
  predicate EvenlyPlaced(points: seq<Vec3>, a: Axis, count: int, box: Box, anchor: Vec3)
  {
    var lo, hi := Coord(box.lo, a), Coord(box.hi, a);
    && |points| == (if count <= 0 then 0 else count)
    && multiset(Along(points, a)) == multiset(EvenPositions(lo, hi, count))
    && (forall k, b: Axis :: 0 <= k < |points| && b != a ==> Coord(points[k], b) == Coord(anchor, b))
    && (lo < hi ==> forall k :: 0 <= k < |points| ==> lo < Coord(points[k], a) < hi)
  }

  /** The points of one axis meet that promise whenever the box is a box. */
  lemma AxisPointsEvenlyPlaced(a: Axis, count: int, box: Box, anchor: Vec3)
    requires Coord(box.lo, a) <= Coord(box.hi, a)
    ensures EvenlyPlaced(AxisPoints(a, count, box, anchor), a, count, box, anchor)
  {
    var lo, hi := Coord(box.lo, a), Coord(box.hi, a);
    var c := AxisPositions(count, lo, hi);
    var points := AxisPoints(a, count, box, anchor);
    AxisPositionsCount(count, lo, hi);
    CutCountPositions(count, lo, hi);
    AxisPositionsInside(count, lo, hi);
    assert Along(points, a) == c;
  }

  /** A point list given by its coordinates along `a` and an anchor. */
  lemma PointsFromCoords(points: seq<Vec3>, a: Axis, anchor: Vec3, c: seq<real>)
    requires Along(points, a) == c
    requires forall k, b: Axis :: 0 <= k < |points| && b != a ==> Coord(points[k], b) == Coord(anchor, b)
    ensures points == seq(|c|, k requires 0 <= k < |c| => WithCoord(anchor, a, c[k]))
  {
    forall k | 0 <= k < |points| ensures points[k] == WithCoord(anchor, a, c[k]) {
      assert Coord(points[k], a) == c[k];
      var q := points[k];
      match a
      case X => assert q.y == anchor.y && q.z == anchor.z by {
        assert Coord(q, Y) == Coord(anchor, Y) && Coord(q, Z) == Coord(anchor, Z);
      }
      case Y => assert q.x == anchor.x && q.z == anchor.z by {
        assert Coord(q, X) == Coord(anchor, X) && Coord(q, Z) == Coord(anchor, Z);
      }
      case Z => assert q.x == anchor.x && q.y == anchor.y by {
        assert Coord(q, X) == Coord(anchor, X) && Coord(q, Y) == Coord(anchor, Y);
      }
    }
  }

  /** One of lines 93-95 of `execute`: enumerate the pairs summing to
      `target` and turn them into division points along `a` over the box. */
  method PlacePoints(a: Axis, target: int, box: Box, anchor: Vec3) returns (points: seq<Vec3>)
    ensures points == AxisPoints(a, target - 1, box, anchor)
  {
    var pairs := FindPairsSummingTo(target);
    var lo, hi := Coord(box.lo, a), Coord(box.hi, a);
    CutCountPositions(target - 1, lo, hi);
    var placed: Option<seq<Vec3>>;
    match a {
      case X => placed := FindDivisionPointX(lo, hi, anchor.y, anchor.z, pairs);
      case Y => placed := FindDivisionPointY(anchor.x, lo, hi, anchor.z, pairs);
      case Z => placed := FindDivisionPointZ(anchor.x, anchor.y, lo, hi, pairs);
    }
    PointsFromCoords(placed.value, a, anchor, AxisPositions(target - 1, lo, hi));
    points := placed.value;
  }

  /** The plan `execute` derives before cutting. */
  datatype CutPlan = CutPlan(box: Box, xPoints: seq<Vec3>, yPoints: seq<Vec3>, zPoints: seq<Vec3>)

  /** Lines 66-95 of `execute`: offset each scene cut count by one, take the
      combined bounding box of the corners, enumerate the pairs and place the
      division points on each axis.  `anchor` is the location the source
      passes for the two coordinates a plane point does not interpolate. */
  method PlanCuts(xCuts: int, yCuts: int, zCuts: int, corners: seq<seq<Vec3>>, anchor: Vec3)
    returns (plan: Option<CutPlan>)
    ensures plan.None? <==> Corners(corners) == []
    ensures plan.Some? ==> plan.value.box == CombinedBox(corners).value
    ensures plan.Some? ==> plan.value.xPoints == AxisPoints(X, xCuts, plan.value.box, anchor)
    ensures plan.Some? ==> plan.value.yPoints == AxisPoints(Y, yCuts, plan.value.box, anchor)
    ensures plan.Some? ==> plan.value.zPoints == AxisPoints(Z, zCuts, plan.value.box, anchor)
  {
    var xTarget, yTarget, zTarget := xCuts + 1, yCuts + 1, zCuts + 1;  // the scene counts plus one
    var bounds := CombinedBox(corners);
    if bounds.None? {
      return None;
    }
    var box := bounds.value;
    var xs := PlacePoints(X, xTarget, box, anchor);
    var ys := PlacePoints(Y, yTarget, box, anchor);
    var zs := PlacePoints(Z, zTarget, box, anchor);
    return Some(CutPlan(box, xs, ys, zs));
  }

  /** What the plan promises: the box holds every corner, and on each axis
      the planes sit at the evenly spaced interior positions of the box, one
      per requested cut. */
  lemma PlanEvenlyPlaced(xCuts: int, yCuts: int, zCuts: int, corners: seq<seq<Vec3>>, anchor: Vec3)
    requires CombinedBox(corners).Some?
    ensures forall i, k :: 0 <= i < |corners| && 0 <= k < |corners[i]| ==>
              Inside(CombinedBox(corners).value, corners[i][k])
    ensures EvenlyPlaced(AxisPoints(X, xCuts, CombinedBox(corners).value, anchor), X, xCuts, CombinedBox(corners).value, anchor)
    ensures EvenlyPlaced(AxisPoints(Y, yCuts, CombinedBox(corners).value, anchor), Y, yCuts, CombinedBox(corners).value, anchor)
    ensures EvenlyPlaced(AxisPoints(Z, zCuts, CombinedBox(corners).value, anchor), Z, zCuts, CombinedBox(corners).value, anchor)
  {
    var box := CombinedBox(corners).value;
    CombinedBoxTight(corners, X);
    CombinedBoxTight(corners, Y);
    CombinedBoxTight(corners, Z);
    AxisPointsEvenlyPlaced(X, xCuts, box, anchor);
    AxisPointsEvenlyPlaced(Y, yCuts, box, anchor);
    AxisPointsEvenlyPlaced(Z, zCuts, box, anchor);
  }

  /** All planes in the order `execute` applies them: every X plane, then
      every Y plane, then every Z plane. */
  function AllPlanes(xCuts: int, yCuts: int, zCuts: int, box: Box, anchor: Vec3): seq<CutPlane>
  {
    PlanesAlong(AxisPoints(X, xCuts, box, anchor), X) +
    PlanesAlong(AxisPoints(Y, yCuts, box, anchor), Y) +
    PlanesAlong(AxisPoints(Z, zCuts, box, anchor), Z)
  }

  /** `execute` without the host's selection, visibility and normal-transfer
      bookkeeping: link the helper box, plan the cuts (failing, with the empty
      helper left linked, when there is nothing to bound), fill the box with
      its cube, run the three plane loops and delete the helper's pieces. */
  method Execute(scene: Scene, xCuts: int, yCuts: int, zCuts: int, corners: seq<seq<Vec3>>,
                 anchor: Vec3, cut: (seq<SceneObject>, CutPlane) -> seq<SceneObject>)
    returns (finished: bool)
    modifies scene
    ensures finished <==> Corners(corners) != []
    ensures !finished ==> scene.objects == old(scene.objects) + [EmptyBox]
    ensures finished ==>
              scene.objects ==
              Survivors(SliceThrough(old(scene.objects) + [FilledBox],
                                     AllPlanes(xCuts, yCuts, zCuts, CombinedBox(corners).value, anchor), cut),
                        NameContains(BoundingBoxName))
  {
    scene.objects := scene.objects + [EmptyBox];
    var plan := PlanCuts(xCuts, yCuts, zCuts, corners, anchor);
    if plan.None? {
      return false;
    }
    scene.objects := scene.objects[..|scene.objects| - 1] + [FilledBox];
    assert scene.objects == old(scene.objects) + [FilledBox];
    ghost var start := scene.objects;
    var p := plan.value;
    var xPlanes := PlanesAlong(p.xPoints, X);
    var yPlanes := PlanesAlong(p.yPoints, Y);
    var zPlanes := PlanesAlong(p.zPoints, Z);
    scene.SliceAlong(p.xPoints, X, cut);
    scene.SliceAlong(p.yPoints, Y, cut);
    scene.SliceAlong(p.zPoints, Z, cut);
    SliceThroughAppend(start, xPlanes, yPlanes, cut);
    SliceThroughAppend(start, xPlanes + yPlanes, zPlanes, cut);
    scene.DeleteBoundBox(BoundingBoxName);
    return true;
  }

  // ---------------------------------------------------------------------
  // What `execute` leaves behind.

  /** After `execute`, no piece of the helper box is left; and once at least
      one plane was applied no empty mesh is left either. */
  lemma ExecuteLeavesNoHelper(start: seq<SceneObject>, planes: seq<CutPlane>,
                              cut: (seq<SceneObject>, CutPlane) -> seq<SceneObject>, o: SceneObject)
    requires o in Survivors(SliceThrough(start, planes, cut), NameContains(BoundingBoxName))
    ensures !Contains(o.name, BoundingBoxName)
    ensures planes != [] ==> !(o.kind == Mesh && o.vertexCount == 0)
  {
    SurvivorsMembers(SliceThrough(start, planes, cut), NameContains(BoundingBoxName), o);
    if planes != [] {
      SliceLeavesNoEmptyMesh(start, planes, cut);
    }
  }

  /** The number of planes is the sum of the non-negative scene cut counts. */
  lemma AllPlanesCount(xCuts: int, yCuts: int, zCuts: int, box: Box, anchor: Vec3)
    ensures |AllPlanes(xCuts, yCuts, zCuts, box, anchor)| ==
              (if xCuts <= 0 then 0 else xCuts) + (if yCuts <= 0 then 0 else yCuts) +
              (if zCuts <= 0 then 0 else zCuts)
  {
    var lo, hi := box.lo, box.hi;
    AxisPositionsCount(xCuts, lo.x, hi.x);
    AxisPositionsCount(yCuts, lo.y, hi.y);
    AxisPositionsCount(zCuts, lo.z, hi.z);
  }

  /** Zero cuts on every axis: the pool comes back as it was, provided no
      object of the scene was itself named after the helper box. */
  lemma ZeroCutsIdentity(objects: seq<SceneObject>, box: Box, anchor: Vec3,
                         cut: (seq<SceneObject>, CutPlane) -> seq<SceneObject>)
    requires forall k :: 0 <= k < |objects| ==> !Contains(objects[k].name, BoundingBoxName)
    ensures Survivors(SliceThrough(objects + [FilledBox], AllPlanes(0, 0, 0, box, anchor), cut),
                      NameContains(BoundingBoxName)) == objects
  {
    AllPlanesCount(0, 0, 0, box, anchor);
    assert AllPlanes(0, 0, 0, box, anchor) == [];
    SurvivorsAppend(objects, [FilledBox], NameContains(BoundingBoxName));
    SurvivorsUnchanged(objects, NameContains(BoundingBoxName));
    assert Contains(FilledBox.name, BoundingBoxName);
  }
}
