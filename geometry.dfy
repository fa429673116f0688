/** Faces, the cutting plane and the tolerance shared by every geometric
    test of the subdivider (ModelSubdividerPlugin.py). */
module Geometry {
  import opened Vectors

  datatype Option<T> = None | Some(value: T)

  /** The tolerance `epsilon = 1e-2` of the plugin class. */
  const Epsilon: real := 0.01

  /** A local vertex index of a triangle. */
  type Index = k: int | 0 <= k < 3

  /** The index after `i` around a triangle, as the source writes it:
      `i + 1 if i < 2 else 0`. */
  function Next(i: Index): Index {
    if i < 2 then i + 1 else 0
  }

  /** A triangle as an ordered triple of points. The cutting plane is given
      the same way: the first three vertices of the plane's mesh. */
  datatype Face = Face(v0: Vec3, v1: Vec3, v2: Vec3) {
    /** `face[k]`. */
    function V(k: Index): Vec3 {
      if k == 0 then v0 else if k == 1 then v1 else v2
    }
  }

  /** The plane's normal `n`: the cross product of two edges of the plane's
      triangle, not normalised. It is orthogonal to both edges. */
  function Normal(planeFace: Face): (n: Vec3)
    ensures Dot(n, Sub(planeFace.v1, planeFace.v0)) == 0.0
    ensures Dot(n, Sub(planeFace.v2, planeFace.v0)) == 0.0
  {
    var a, b := Sub(planeFace.v1, planeFace.v0), Sub(planeFace.v2, planeFace.v0);
    CrossOrthogonal(a, b);
    Cross(a, b)
  }

  /** The value `n . (plane_face[0] - p)` that every side and in-plane test
      compares with `Epsilon`: a signed distance from the plane, scaled by
      the length of the normal and positive on the side the normal points
      away from. */
  function SignedDistance(planeFace: Face, p: Vec3): real {
    Dot(Normal(planeFace), Sub(planeFace.v0, p))
  }

  /** `is_point_in_plane`: the point lies within `Epsilon` of the plane.
      Nothing in the plugin calls it; `PlaneSide.InPlaneTest` relates it to
      the other tests. */
  function IsPointInPlane(planeFace: Face, p: Vec3): (r: bool)
    ensures r <==> -Epsilon <= SignedDistance(planeFace, p) <= Epsilon
  {
    var d := Dot(Normal(planeFace), Sub(planeFace.v0, p));
    Abs(d) <= Epsilon
  }

  /** The three points that define the plane lie on it exactly: the normal
      is orthogonal to both edges it is built from. */
  lemma PlaneFaceOnPlane(planeFace: Face)
    ensures SignedDistance(planeFace, planeFace.v0) == 0.0
    ensures SignedDistance(planeFace, planeFace.v1) == 0.0
    ensures SignedDistance(planeFace, planeFace.v2) == 0.0
  {
    var a, b := Sub(planeFace.v1, planeFace.v0), Sub(planeFace.v2, planeFace.v0);
    assert Sub(planeFace.v0, planeFace.v1) == Vec3(-a.x, -a.y, -a.z);
    assert Sub(planeFace.v0, planeFace.v2) == Vec3(-b.x, -b.y, -b.z);
  }

  lemma CrossOrthogonal(a: Vec3, b: Vec3)
    ensures Dot(Cross(a, b), a) == 0.0
    ensures Dot(Cross(a, b), b) == 0.0
  {
  }
}
