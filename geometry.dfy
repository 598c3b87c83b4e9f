/**
 * Values shared by the slicer's components: world-space points, the three
 * cutting axes and the planes the cutter bisects with.
 */
module Geometry {

  /** The result of a computation that the source aborts with an exception. */
  datatype Option<T> = None | Some(value: T)

  /** The axis a cut plane's normal points along: (1,0,0), (0,1,0) or (0,0,1). */
  datatype Axis = X | Y | Z

  /** A world-space point; coordinates are exact reals instead of floats. */
  datatype Vec3 = Vec3(x: real, y: real, z: real)

  /** The coordinate of `v` along axis `a`. */
  function Coord(v: Vec3, a: Axis): real
  {
    match a
    case X => v.x
    case Y => v.y
    case Z => v.z
  }

  /** A plane through `point` whose normal is the positive direction of `normal`. */
  datatype CutPlane = CutPlane(point: Vec3, normal: Axis)

  /** The coordinates along `a` of a sequence of points, in order. */
  function Along(points: seq<Vec3>, a: Axis): (r: seq<real>)
    ensures |r| == |points|
    ensures forall k :: 0 <= k < |points| ==> r[k] == Coord(points[k], a)
  {
    seq(|points|, k requires 0 <= k < |points| => Coord(points[k], a))
  }
}
