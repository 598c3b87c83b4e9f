/**
 * The object pool the cutter works on and its two pruning routines
 * (`Cutter.delete_empty_ob`, `Cutter.del_bound_box`).  Both deselect
 * everything, loop over the objects selecting those that meet a criterion,
 * and call the host's delete operator on the selection.
 */
module Pool {
  import opened Geometry

  /** `obj.type`: the routines only distinguish 'MESH' from everything else. */
  datatype ObjectType = Mesh | NonMesh

  /** An object of the scene: its type, its name and, for a mesh, the number
      of vertices of its data. */
  datatype SceneObject = SceneObject(kind: ObjectType, name: string, vertexCount: nat)

  /** What a pruning routine selects for deletion. */
  datatype Criterion =
    | EmptyMesh                  // `delete_empty_ob`: a mesh without vertices
    | NameContains(part: string) // `del_bound_box(part)`: `part in obj.name`

  /** `part` starts at position i of `s`. */
  predicate OccursAt(s: string, part: string, i: nat)
  {
    i + |part| <= |s| && s[i..i + |part|] == part
  }

  /** Python's substring test `part in s`. */
  predicate Contains(s: string, part: string)
    decreases |s|
  {
    if |part| <= |s| && s[..|part|] == part then true
    else if s == [] then false
    else Contains(s[1..], part)
  }

  /** The substring test holds exactly when `part` occurs at some position;
      in particular the empty string occurs in every name. */
  lemma {:induction false} ContainsIff(s: string, part: string)
    ensures Contains(s, part) <==> exists i: nat :: OccursAt(s, part, i)
    decreases |s|
  {
    if |part| <= |s| && s[..|part|] == part {
      assert OccursAt(s, part, 0);
    } else if s == [] {
      assert forall i: nat :: !OccursAt(s, part, i);
    } else {
      ContainsIff(s[1..], part);
      if exists i: nat :: OccursAt(s, part, i) {
        var i: nat :| OccursAt(s, part, i);
        assert i != 0;
        assert s[1..][i - 1..i - 1 + |part|] == s[i..i + |part|];
        assert OccursAt(s[1..], part, i - 1);
      }
      if exists i: nat :: OccursAt(s[1..], part, i) {
        var i: nat :| OccursAt(s[1..], part, i);
        assert s[i + 1..i + 1 + |part|] == s[1..][i..i + |part|];
        assert OccursAt(s, part, i + 1);
      }
    }
  }

  /** The test inside the selection loop of each routine. */
  predicate Selects(c: Criterion, o: SceneObject)
  {
    match c
    case EmptyMesh => o.kind == Mesh && o.vertexCount == 0
    case NameContains(part) => Contains(o.name, part)
  }

  /** The objects a routine leaves behind: those it does not select, in order. */
  function Survivors(objects: seq<SceneObject>, c: Criterion): seq<SceneObject>
  {
    if objects == [] then []
    else (if Selects(c, objects[0]) then [] else [objects[0]]) + Survivors(objects[1..], c)
  }

  /** The host's delete operator: remove the selected objects. */
  function Unselected(objects: seq<SceneObject>, marked: seq<bool>): seq<SceneObject>
    requires |marked| == |objects|
  {
    if objects == [] then []
    else (if marked[0] then [] else [objects[0]]) + Unselected(objects[1..], marked[1..])
  }

  // ---------------------------------------------------------------------
  // What pruning keeps.

  /** Deleting a selection made by a criterion leaves its survivors. */
  lemma {:induction false} UnselectedSurvivors(objects: seq<SceneObject>, marked: seq<bool>, c: Criterion)
    requires |marked| == |objects|
    requires forall k :: 0 <= k < |objects| ==> marked[k] == Selects(c, objects[k])
    ensures Unselected(objects, marked) == Survivors(objects, c)
  {
    if objects != [] {
      UnselectedSurvivors(objects[1..], marked[1..], c);
    }
  }

  /** An object survives exactly when it was in the pool and is not selected:
      afterwards nothing the criterion selects remains. */
  lemma {:induction false} SurvivorsMembers(objects: seq<SceneObject>, c: Criterion, o: SceneObject)
    ensures o in Survivors(objects, c) <==> o in objects && !Selects(c, o)
  {
    if objects != [] {
      SurvivorsMembers(objects[1..], c, o);
      assert objects == [objects[0]] + objects[1..];
    }
  }

  /** Nothing else changes: every unselected object keeps its multiplicity,
      every selected one is gone. */
  lemma {:induction false} SurvivorsCount(objects: seq<SceneObject>, c: Criterion, o: SceneObject)
    ensures multiset(Survivors(objects, c))[o] == if Selects(c, o) then 0 else multiset(objects)[o]
  {
    if objects != [] {
      SurvivorsCount(objects[1..], c, o);
      assert objects == [objects[0]] + objects[1..];
    }
  }

  /** Order is kept: pruning a concatenation prunes each part in place. */
  lemma {:induction false} SurvivorsAppend(a: seq<SceneObject>, b: seq<SceneObject>, c: Criterion)
    ensures Survivors(a + b, c) == Survivors(a, c) + Survivors(b, c)
  {
    if a != [] {
      SurvivorsAppend(a[1..], b, c);
      assert (a + b)[1..] == a[1..] + b;
    } else {
      assert a + b == b;
    }
  }

  /** A pool with nothing to select is left as it is. */
  lemma {:induction false} SurvivorsUnchanged(objects: seq<SceneObject>, c: Criterion)
    requires forall k :: 0 <= k < |objects| ==> !Selects(c, objects[k])
    ensures Survivors(objects, c) == objects
  {
    if objects != [] {
      SurvivorsUnchanged(objects[1..], c);
      assert objects == [objects[0]] + objects[1..];
    }
  }

  // ---------------------------------------------------------------------
  // Slicing the pool.

  /** The planes through `points`, all with normal along `a`. */
  function PlanesAlong(points: seq<Vec3>, a: Axis): (r: seq<CutPlane>)
    ensures |r| == |points|
    ensures forall k :: 0 <= k < |points| ==> r[k] == CutPlane(points[k], a)
  {
    seq(|points|, k requires 0 <= k < |points| => CutPlane(points[k], a))
  }

  /** The loop body "select the meshes, bisect them by the plane, delete the
      empty ones", folded over the planes.  `cut` stands for the host's
      bisect (`slice_mesh`), which is not modelled. */
  function SliceThrough(objects: seq<SceneObject>, planes: seq<CutPlane>,
                        cut: (seq<SceneObject>, CutPlane) -> seq<SceneObject>): seq<SceneObject>
    decreases |planes|
  {
    if planes == [] then objects
    else SliceThrough(Survivors(cut(objects, planes[0]), EmptyMesh), planes[1..], cut)
  }

  /** Slicing by one list of planes and then another is slicing by both. */
  lemma {:induction false} SliceThroughAppend(objects: seq<SceneObject>, p: seq<CutPlane>, q: seq<CutPlane>,
                                              cut: (seq<SceneObject>, CutPlane) -> seq<SceneObject>)
    ensures SliceThrough(objects, p + q, cut) == SliceThrough(SliceThrough(objects, p, cut), q, cut)
    decreases |p|
  {
    if p != [] {
      assert (p + q)[0] == p[0] && (p + q)[1..] == p[1..] + q;
      SliceThroughAppend(Survivors(cut(objects, p[0]), EmptyMesh), p[1..], q, cut);
    } else {
      assert p + q == q;
    }
  }

  /** After at least one plane no empty mesh survives, whatever the bisect
      produces. */
  lemma {:induction false} SliceLeavesNoEmptyMesh(objects: seq<SceneObject>, planes: seq<CutPlane>,
                                                  cut: (seq<SceneObject>, CutPlane) -> seq<SceneObject>)
    requires planes != []
    ensures forall o :: o in SliceThrough(objects, planes, cut) ==> !Selects(EmptyMesh, o)
    decreases |planes|
  {
    var next := Survivors(cut(objects, planes[0]), EmptyMesh);
    if planes[1..] == [] {
      forall o | o in next ensures !Selects(EmptyMesh, o) {
        SurvivorsMembers(cut(objects, planes[0]), EmptyMesh, o);
      }
    } else {
      SliceLeavesNoEmptyMesh(next, planes[1..], cut);
    }
  }

  /** The objects the operator acts on (`bpy.data.objects` as far as the
      visible, selectable objects go). */
  class Scene {
    var objects: seq<SceneObject>

    constructor (initial: seq<SceneObject>)
      ensures objects == initial
    {
      objects := initial;
    }

    /** Deselect everything, then select each object the criterion picks. */
    method SelectWhere(c: Criterion) returns (marked: seq<bool>)
      ensures |marked| == |objects|
      ensures forall k :: 0 <= k < |objects| ==> marked[k] == Selects(c, objects[k])
    {
      marked := [];
      var k := 0;
      while k < |objects|
        invariant 0 <= k <= |objects|
        invariant |marked| == k
        invariant forall j :: 0 <= j < k ==> marked[j] == Selects(c, objects[j])
      {
        marked := marked + [Selects(c, objects[k])];
        k := k + 1;
      }
    }

    /** `delete_empty_ob`: delete every mesh that has no vertices. */
    method DeleteEmptyObjects()
      modifies this
      ensures objects == Survivors(old(objects), EmptyMesh)
    {
      var marked := SelectWhere(EmptyMesh);
      UnselectedSurvivors(objects, marked, EmptyMesh);
      objects := Unselected(objects, marked);
    }

    /** `del_bound_box(boxName)`: delete every object whose name contains
        `boxName`. */
    method DeleteBoundBox(boxName: string)
      modifies this
      ensures objects == Survivors(old(objects), NameContains(boxName))
    {
      var marked := SelectWhere(NameContains(boxName));
      UnselectedSurvivors(objects, marked, NameContains(boxName));
      objects := Unselected(objects, marked);
    }

    /** One of the three plane loops of `execute`: for each point, select the
        meshes, bisect them by the plane through it with normal along `a`,
        and delete the empty results. */
    method SliceAlong(points: seq<Vec3>, a: Axis, cut: (seq<SceneObject>, CutPlane) -> seq<SceneObject>)
      modifies this
      ensures objects == SliceThrough(old(objects), PlanesAlong(points, a), cut)
    {
      var k := 0;
      while k < |points|
        invariant 0 <= k <= |points|
        invariant SliceThrough(old(objects), PlanesAlong(points, a), cut) ==
                  SliceThrough(objects, PlanesAlong(points, a)[k..], cut)
      {
        var planes := PlanesAlong(points, a)[k..];
        assert planes[0] == CutPlane(points[k], a) && planes[1..] == PlanesAlong(points, a)[k + 1..];
        objects := cut(objects, CutPlane(points[k], a));
        DeleteEmptyObjects();
        k := k + 1;
      }
    }
  }
}
