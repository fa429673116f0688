/** The side test `check_plane_side`: which of the two output meshes a
    face goes to. */
module PlaneSide {
  import opened Vectors
  import opened Geometry
  import opened Intersection

  /** A point counts towards side 0 when its signed distance exceeds
      `Epsilon`; points on the plane or behind it do not. */
  predicate Above(planeFace: Face, p: Vec3) {
    SignedDistance(planeFace, p) > Epsilon
  }

  /** At least two of the three vertices are above the plane. */
  predicate MajorityAbove(planeFace: Face, face: Face) {
    || (Above(planeFace, face.v0) && Above(planeFace, face.v1))
    || (Above(planeFace, face.v1) && Above(planeFace, face.v2))
    || (Above(planeFace, face.v0) && Above(planeFace, face.v2))
  }

  /** The list `d` of the three signed distances, in vertex order. */
  function Distances(planeFace: Face, face: Face): (d: seq<real>)
    ensures |d| == 3
    ensures forall k: Index :: d[k] == SignedDistance(planeFace, face.V(k))
  {
    [SignedDistance(planeFace, face.v0), SignedDistance(planeFace, face.v1), SignedDistance(planeFace, face.v2)]
  }

  /** How many entries of `ds` exceed `Epsilon`. */
  function CountAbove(ds: seq<real>): (c: nat)
    ensures c <= |ds|
  {
    if |ds| == 0 then 0
    else CountAbove(ds[..|ds| - 1]) + (if ds[|ds| - 1] > Epsilon then 1 else 0)
  }

  /** The side `check_plane_side` picks: 0 for a face with a majority of
      its vertices above the plane, 1 for every other face. */
  function SideOf(planeFace: Face, face: Face): (side: int)
    ensures side == 0 || side == 1
    ensures side == 0 <==> MajorityAbove(planeFace, face)
  {
    var ds := Distances(planeFace, face);
    CountAboveThree(ds[0], ds[1], ds[2]);
    assert ds == [ds[0], ds[1], ds[2]];
    if CountAbove(ds) > 1 then 0 else 1
  }

  lemma CountAboveThree(a: real, b: real, c: real)
    ensures CountAbove([a, b, c]) == (if a > Epsilon then 1 else 0) + (if b > Epsilon then 1 else 0) + (if c > Epsilon then 1 else 0)
  {
    assert [a][..0] == [];
    assert CountAbove([a]) == (if a > Epsilon then 1 else 0);
    assert [a, b][..1] == [a];
    assert CountAbove([a, b]) == CountAbove([a]) + (if b > Epsilon then 1 else 0);
    assert [a, b, c][..2] == [a, b];
  }

  /** `check_plane_side`: counts the vertices whose signed distance exceeds
      `Epsilon` and returns 0 when more than one does, 1 otherwise. */
  method CheckPlaneSide(planeFace: Face, face: Face) returns (side: int)
    ensures side == SideOf(planeFace, face)
  {
    var n := Normal(planeFace);
    var d := [Dot(n, Sub(planeFace.v0, face.v0)), Dot(n, Sub(planeFace.v0, face.v1)), Dot(n, Sub(planeFace.v0, face.v2))];
    var numGreater := 0;
    for k := 0 to 3
      invariant numGreater == CountAbove(d[..k])
    {
      assert d[..k + 1][..k] == d[..k];
      if d[k] > Epsilon {
        numGreater := numGreater + 1;
      }
    }
    assert d[..3] == d == Distances(planeFace, face);
    if numGreater > 1 {
      side := 0;
    } else {
      side := 1;
    }
  }

  /** A face with at most one vertex more than `Epsilon` above the plane,
      in particular one with two vertices on the plane, goes to side 1. */
  lemma TwoVerticesNotAboveGoToSideOne(planeFace: Face, face: Face, j: Index, k: Index)
    requires j != k
    requires !Above(planeFace, face.V(j)) && !Above(planeFace, face.V(k))
    ensures SideOf(planeFace, face) == 1
  {
  }

  /** `is_point_in_plane` against the rest of the model: the three points
      that define the plane, every point the segment intersector reports
      and every point a Point or Segment record carries pass it, and a
      point that passes it is never counted above the plane by the side
      test. */
  lemma InPlaneTest(planeFace: Face, face: Face, p0: Vec3, p1: Vec3, p: Vec3)
    ensures IsPointInPlane(planeFace, planeFace.v0)
    ensures IsPointInPlane(planeFace, planeFace.v1)
    ensures IsPointInPlane(planeFace, planeFace.v2)
    ensures var hit := CheckIntersectionWithSegment(planeFace, p0, p1);
            hit.Some? ==> IsPointInPlane(planeFace, hit.value)
    ensures var r := TriangleIntersection(planeFace, face);
            r.PointHit? ==> IsPointInPlane(planeFace, r.point)
    ensures var r := TriangleIntersection(planeFace, face);
            r.SegmentHit? ==> IsPointInPlane(planeFace, r.first.point) && IsPointInPlane(planeFace, r.second.point)
    ensures IsPointInPlane(planeFace, p) ==> !Above(planeFace, p)
  {
    PlaneFaceOnPlane(planeFace);
    var r := TriangleIntersection(planeFace, face);
    if r.PointHit? {
      PointRecordOnPlane(planeFace, face);
    } else if r.SegmentHit? {
      SegmentRecordWellFormed(planeFace, face);
    }
  }
}
