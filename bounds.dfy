/**
 * The combined axis-aligned bounding box of the selected objects
 * (`execute`, the `min_coord` / `max_coord` expressions): a per-axis minimum
 * and maximum over the world-space corners of every object's bound box.
 */
module Bounds {
  import opened Geometry

  /** An axis-aligned box given by its minimum and maximum corners. */
  datatype Box = Box(lo: Vec3, hi: Vec3)

  /** `p` lies componentwise between the corners of `b`. */
  predicate Inside(b: Box, p: Vec3)
  {
    forall a: Axis :: Coord(b.lo, a) <= Coord(p, a) <= Coord(b.hi, a)
  }

  /** The generator `for o in meshes for b in o.bound_box`: the corners of
      every object, object by object, already transformed to world space. */
  function Corners(objects: seq<seq<Vec3>>): seq<Vec3>
  {
    if objects == [] then [] else objects[0] + Corners(objects[1..])
  }

  /** A point is generated exactly when it is a corner of some object. */
  lemma {:induction false} CornersMembers(objects: seq<seq<Vec3>>, p: Vec3)
    ensures p in Corners(objects) <==> exists i :: 0 <= i < |objects| && p in objects[i]
  {
    if objects != [] {
      CornersMembers(objects[1..], p);
      if exists i :: 0 <= i < |objects| && p in objects[i] {
        var i :| 0 <= i < |objects| && p in objects[i];
        if i > 0 {
          assert p in objects[1..][i - 1];
        }
      }
      if exists i :: 0 <= i < |objects[1..]| && p in objects[1..][i] {
        var i :| 0 <= i < |objects[1..]| && p in objects[1..][i];
        assert p in objects[i + 1];
      }
    }
  }

  /** Python's `min` along one axis: a lower bound that some point attains. */
  function MinAlong(points: seq<Vec3>, a: Axis): (r: real)
    requires points != []
    ensures forall k :: 0 <= k < |points| ==> r <= Coord(points[k], a)
    ensures exists k :: 0 <= k < |points| && Coord(points[k], a) == r
  {
    if |points| == 1 then Coord(points[0], a)
    else
      var rest := MinAlong(points[1..], a);
      assert forall k :: 1 <= k < |points| ==> points[k] == points[1..][k - 1];
      if Coord(points[0], a) <= rest then Coord(points[0], a) else rest
  }

  /** Python's `max` along one axis: an upper bound that some point attains. */
  function MaxAlong(points: seq<Vec3>, a: Axis): (r: real)
    requires points != []
    ensures forall k :: 0 <= k < |points| ==> Coord(points[k], a) <= r
    ensures exists k :: 0 <= k < |points| && Coord(points[k], a) == r
  {
    if |points| == 1 then Coord(points[0], a)
    else
      var rest := MaxAlong(points[1..], a);
      assert forall k :: 1 <= k < |points| ==> points[k] == points[1..][k - 1];
      if Coord(points[0], a) >= rest then Coord(points[0], a) else rest
  }

  /** The box spanned by the per-axis minima and maxima of `points`. */
  function Hull(points: seq<Vec3>): Box
    requires points != []
  {
    Box(Vec3(MinAlong(points, X), MinAlong(points, Y), MinAlong(points, Z)),
        Vec3(MaxAlong(points, X), MaxAlong(points, Y), MaxAlong(points, Z)))
  }

  /** The hull holds every point. */
  lemma HullHolds(points: seq<Vec3>)
    requires points != []
    ensures forall k :: 0 <= k < |points| ==> Inside(Hull(points), points[k])
  {
    var h := Hull(points);
    forall k | 0 <= k < |points| ensures Inside(h, points[k]) {
      forall b: Axis ensures Coord(h.lo, b) <= Coord(points[k], b) <= Coord(h.hi, b) {
        match b
        case X =>
        case Y =>
        case Z =>
      }
    }
  }

  /** Each face of the hull touches some point. */
  lemma HullTight(points: seq<Vec3>, a: Axis)
    requires points != []
    ensures exists k :: 0 <= k < |points| && Coord(points[k], a) == Coord(Hull(points).lo, a)
    ensures exists k :: 0 <= k < |points| && Coord(points[k], a) == Coord(Hull(points).hi, a)
  {
    var h := Hull(points);
    match a
    case X => assert Coord(h.lo, a) == MinAlong(points, a) && Coord(h.hi, a) == MaxAlong(points, a);
    case Y => assert Coord(h.lo, a) == MinAlong(points, a) && Coord(h.hi, a) == MaxAlong(points, a);
    case Z => assert Coord(h.lo, a) == MinAlong(points, a) && Coord(h.hi, a) == MaxAlong(points, a);
  }

  /** Every corner of every object lies in the hull of all corners. */
  lemma HullHoldsObjects(objects: seq<seq<Vec3>>)
    requires Corners(objects) != []
    ensures forall i, k :: 0 <= i < |objects| && 0 <= k < |objects[i]| ==>
              Inside(Hull(Corners(objects)), objects[i][k])
  {
    var points := Corners(objects);
    HullHolds(points);
    forall i, k | 0 <= i < |objects| && 0 <= k < |objects[i]|
      ensures Inside(Hull(points), objects[i][k])
    {
      CornersMembers(objects, objects[i][k]);
    }
  }

  /** `min_coord` and `max_coord`; `min`/`max` of no corners raise a
      ValueError in the source, modelled as None.  Otherwise every corner of
      every object lies in the box. */
  function CombinedBox(objects: seq<seq<Vec3>>): (r: Option<Box>)
    ensures r.None? <==> Corners(objects) == []
    ensures r.Some? ==> forall i, k :: 0 <= i < |objects| && 0 <= k < |objects[i]| ==>
              Inside(r.value, objects[i][k])
  {
    var points := Corners(objects);
    if points == [] then None
    else
      HullHoldsObjects(objects);
      Some(Hull(points))
  }

  /** On every axis the box's minimum is at most its maximum, and both are
      attained by some corner: the box is the tightest one. */
  lemma CombinedBoxTight(objects: seq<seq<Vec3>>, a: Axis)
    requires CombinedBox(objects).Some?
    ensures Coord(CombinedBox(objects).value.lo, a) <= Coord(CombinedBox(objects).value.hi, a)
    ensures exists k :: 0 <= k < |Corners(objects)| &&
              Coord(Corners(objects)[k], a) == Coord(CombinedBox(objects).value.lo, a)
    ensures exists k :: 0 <= k < |Corners(objects)| &&
              Coord(Corners(objects)[k], a) == Coord(CombinedBox(objects).value.hi, a)
  {
    var points := Corners(objects);
    HullTight(points, a);
    HullHolds(points);
    var k :| 0 <= k < |points| && Coord(points[k], a) == Coord(Hull(points).lo, a);
    assert Inside(Hull(points), points[k]);
  }
}
