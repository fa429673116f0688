/** The segment intersector (`check_intersection_with_segment`) and the
    triangle classifier (`check_intersection_with_triangle`). */
module Intersection {
  import opened Vectors
  import opened Geometry

  /** The index pair `[i, i2]` of the directed edge a hit came from. */
  datatype EdgePair = EdgePair(i: Index, i2: Index) {
    /** `pair[j]`. */
    function At(j: int): Index
      requires 0 <= j < 2
    {
      if j == 0 then i else i2
    }
  }

  /** The `k`-th directed edge of a triangle: `[k, k + 1 mod 3]`. */
  function EdgeOf(k: Index): EdgePair {
    EdgePair(k, Next(k))
  }

  /** One entry of `intersection_points`: `[point, [i, i2]]`. */
  datatype Hit = Hit(point: Vec3, edge: EdgePair)

  /** What `check_intersection_with_triangle` returns: `None`, or a pair
      tagged `IntersectionType.Point`, `Segment` or `Face`. */
  datatype Intersection =
    | NoIntersection
    | PointHit(point: Vec3)
    | SegmentHit(first: Hit, second: Hit)
    | FaceHit(face: Face)

  /** `check_intersection_with_segment`: where the segment from `p0` to
      `p1` meets the plane, if the segment is not (nearly) parallel to it
      and the meeting point lies within the closed segment. */
  function CheckIntersectionWithSegment(planeFace: Face, p0: Vec3, p1: Vec3): (r: Option<Vec3>)
    ensures Abs(Dot(Normal(planeFace), Sub(p1, p0))) <= Epsilon ==> r == None
    ensures r.Some? ==> SignedDistance(planeFace, r.value) == 0.0
    ensures r.Some? ==> Dot(Sub(p0, r.value), Sub(p1, r.value)) <= 0.0
  {
    var n := Normal(planeFace);
    var d := Dot(n, Sub(planeFace.v0, p0));
    var w := Sub(p1, p0);
    var e := Dot(n, w);
    if Abs(e) > Epsilon then
      var o := Add(p0, Scale(w, d / e));
      if Dot(Sub(p0, o), Sub(p1, o)) <= 0.0 then
        PointAtParameterOnPlane(planeFace, p0, p1);
        Some(o)
      else
        None
    else
      None
  }

  /** The candidate point `p0 + w * d / e` lies on the plane exactly. */
  lemma PointAtParameterOnPlane(planeFace: Face, p0: Vec3, p1: Vec3)
    requires Dot(Normal(planeFace), Sub(p1, p0)) != 0.0
    ensures var n := Normal(planeFace);
            var t := SignedDistance(planeFace, p0) / Dot(n, Sub(p1, p0));
            SignedDistance(planeFace, Add(p0, Scale(Sub(p1, p0), t))) == 0.0
  {
    var n, w := Normal(planeFace), Sub(p1, p0);
    var d, e := SignedDistance(planeFace, p0), Dot(n, w);
    var t := d / e;
    var o := Add(p0, Scale(w, t));
    assert Sub(planeFace.v0, o) == Sub(Sub(planeFace.v0, p0), Scale(w, t));
    DotLinear(n, Sub(planeFace.v0, p0), Scale(w, t), t);
    DotLinear(n, w, w, t);
    DivMul(d, e);
    MulCommutes(t, e);
  }

  /** Along an edge, `n . (p1 - p0)` is the drop in signed distance from
      `p0` to `p1`. */
  lemma EdgeDrop(planeFace: Face, p0: Vec3, p1: Vec3)
    ensures Dot(Normal(planeFace), Sub(p1, p0))
         == SignedDistance(planeFace, p0) - SignedDistance(planeFace, p1)
  {
    var n := Normal(planeFace);
    assert Sub(p1, p0) == Sub(Sub(planeFace.v0, p0), Sub(planeFace.v0, p1));
    DotLinear(n, Sub(planeFace.v0, p0), Sub(planeFace.v0, p1), 0.0);
  }

  /** The segment intersector reports a point exactly when the segment is
      not near-parallel to the plane (its end points' signed distances
      differ by more than `Epsilon`) and its end points are not strictly
      on the same side of the plane. A segment lying in the plane is
      therefore never reported. */
  lemma SegmentHitIff(planeFace: Face, p0: Vec3, p1: Vec3)
    ensures var d0, d1 := SignedDistance(planeFace, p0), SignedDistance(planeFace, p1);
            var crosses := (d0 >= 0.0 && d1 <= 0.0) || (d0 <= 0.0 && d1 >= 0.0);
            CheckIntersectionWithSegment(planeFace, p0, p1).Some? <==> Abs(d0 - d1) > Epsilon && crosses
  {
    EdgeDrop(planeFace, p0, p1);
    var n, w := Normal(planeFace), Sub(p1, p0);
    var d0, d1 := SignedDistance(planeFace, p0), SignedDistance(planeFace, p1);
    var e := Dot(n, w);
    if Abs(e) > Epsilon {
      OnSegmentTest(p0, p1, d0 / e);
      QuotientInUnitInterval(d0, e);
    }
  }

  /** The test `(p0 - o) . (p1 - o) <= 0` for the point `o` at parameter
      `t` of a proper segment holds exactly when `t` lies in the unit
      interval, that is when `o` lies on the closed segment. */
  lemma OnSegmentTest(p0: Vec3, p1: Vec3, t: real)
    requires p0 != p1
    ensures var o := Add(p0, Scale(Sub(p1, p0), t));
            Dot(Sub(p0, o), Sub(p1, o)) <= 0.0 <==> 0.0 <= t <= 1.0
  {
    var w := Sub(p1, p0);
    var o := Add(p0, Scale(w, t));
    MulNegatesRight(w.x, t);
    MulNegatesRight(w.y, t);
    MulNegatesRight(w.z, t);
    assert Sub(p0, o) == Scale(w, -t);
    MulDistributes(w.x, 1.0, t);
    MulDistributes(w.y, 1.0, t);
    MulDistributes(w.z, 1.0, t);
    MulOne(w.x);
    MulOne(w.y);
    MulOne(w.z);
    assert Sub(p1, o) == Scale(w, 1.0 - t);
    DotOfMultiples(w, -t, 1.0 - t);
    DotSelfPositive(w);
    MulPositiveFactor(Mul(-t, 1.0 - t), Dot(w, w));
    MulNegatesRight(t, 1.0 - t);
    UnitInterval(t);
  }

  /** A reported point is the point at parameter `d0 / (d0 - d1)` of the
      segment, and that parameter lies in the unit interval. */
  lemma SegmentHitOnSegment(planeFace: Face, p0: Vec3, p1: Vec3)
    requires CheckIntersectionWithSegment(planeFace, p0, p1).Some?
    ensures var d0, d1 := SignedDistance(planeFace, p0), SignedDistance(planeFace, p1);
            d0 != d1 &&
            var t := d0 / (d0 - d1);
            0.0 <= t <= 1.0 &&
            CheckIntersectionWithSegment(planeFace, p0, p1).value == Add(p0, Scale(Sub(p1, p0), t))
  {
    EdgeDrop(planeFace, p0, p1);
    SegmentHitIff(planeFace, p0, p1);
    var d0, d1 := SignedDistance(planeFace, p0), SignedDistance(planeFace, p1);
    QuotientInUnitInterval(d0, d0 - d1);
  }

  /** Extending a segment beyond its far end does not move the point where
      the plane crosses it. */
  lemma ExtendedSegmentSameHit(planeFace: Face, p0: Vec3, p1: Vec3, s: real)
    requires s >= 1.0
    requires CheckIntersectionWithSegment(planeFace, p0, p1).Some?
    ensures CheckIntersectionWithSegment(planeFace, p0, Add(p0, Scale(Sub(p1, p0), s)))
         == CheckIntersectionWithSegment(planeFace, p0, p1)
  {
    var n, w := Normal(planeFace), Sub(p1, p0);
    var q := Add(p0, Scale(w, s));
    var d := SignedDistance(planeFace, p0);
    var e := Dot(n, w);
    var w' := Sub(q, p0);
    assert w' == Scale(w, s);
    DotLinear(n, w, w, s);
    var e' := Dot(n, w');
    assert e' == Mul(s, e);
    SegmentHitIff(planeFace, p0, p1);
    EdgeDrop(planeFace, p0, p1);
    EdgeDrop(planeFace, p0, q);
    // the longer segment is no closer to parallel
    if e > 0.0 {
      MulPositiveFactor(s - 1.0, e);
    } else {
      MulPositiveFactor(s - 1.0, -e);
      MulNegatesRight(s - 1.0, e);
    }
    MulDistributes(e, s, 1.0);
    MulCommutes(e, s);
    MulCommutes(e, s - 1.0);
    MulOne(e);
    assert Abs(e') > Epsilon;
    // the same parameter scaled down by s
    var t, t' := d / e, d / e';
    assert Mul(s, t') == t by {
      DivMul(d, e');
      DivMul(d, e);
      MulAssociates(t', s, e);
      MulCommutes(t', s);
      CancelFactor(Mul(s, t'), t, e);
    }
    ScaleTwice(w, s, t');
    SegmentHitIff(planeFace, p0, q);
  }

  lemma CancelFactor(a: real, b: real, e: real)
    requires e != 0.0
    requires Mul(a, e) == Mul(b, e)
    ensures a == b
  {
    MulDistributes(e, a, b);
    MulCommutes(e, a);
    MulCommutes(e, b);
    MulCommutes(e, a - b);
    if a != b {
      if a - b > 0.0 {
        if e > 0.0 { MulPositive(a - b, e); } else { MulNegativePositive(e, a - b); }
      } else {
        if e > 0.0 { MulNegativePositive(a - b, e); } else { MulPositive(b - a, -e); MulNegNeg(b - a, -e); MulNegatesRight(a - b, e); }
      }
    }
  }

  lemma ScaleTwice(w: Vec3, s: real, t: real)
    ensures Scale(Scale(w, s), t) == Scale(w, Mul(s, t))
  {
    MulAssociates(w.x, s, t);
    MulAssociates(w.y, s, t);
    MulAssociates(w.z, s, t);
  }

  /** The hit on the `i`-th directed edge of `face`, if any. */
  function EdgeHit(planeFace: Face, face: Face, i: Index): Option<Vec3> {
    CheckIntersectionWithSegment(planeFace, face.V(i), face.V(Next(i)))
  }

  /** The entry edge `i` adds to `intersection_points`: none, or its hit
      with the edge's index pair. */
  function HitsOn(planeFace: Face, face: Face, i: Index): seq<Hit> {
    Part(EdgeHit(planeFace, face, i), i)
  }

  function Part(h: Option<Vec3>, i: Index): seq<Hit> {
    match h
    case Some(o) => [Hit(o, EdgeOf(i))]
    case None => []
  }

  /** The list `intersection_points` once the edges `0 .. k-1` have been
      tried, in edge order. */
  function EdgeHits(planeFace: Face, face: Face, k: nat): seq<Hit>
    requires k <= 3
  {
    if k == 0 then [] else EdgeHits(planeFace, face, k - 1) + HitsOn(planeFace, face, k - 1)
  }

  /** The collected hits name directed edges `[i, i + 1 mod 3]` of the
      edges tried so far, each at most once and in increasing order. */
  lemma {:induction false} EdgeHitsOrdered(planeFace: Face, face: Face, k: nat)
    requires k <= 3
    ensures var hits := EdgeHits(planeFace, face, k);
      && |hits| <= k
      && (forall m :: 0 <= m < |hits| ==> hits[m].edge == EdgeOf(hits[m].edge.i) && hits[m].edge.i < k)
      && (forall m, m' :: 0 <= m < m' < |hits| ==> hits[m].edge.i < hits[m'].edge.i)
  {
    if k > 0 {
      EdgeHitsOrdered(planeFace, face, k - 1);
    }
  }

  /** All three edges tried: the hits of edges 0, 1 and 2 in that order. */
  lemma AllEdgeHits(planeFace: Face, face: Face)
    ensures EdgeHits(planeFace, face, 3) ==
              HitsOn(planeFace, face, 0) + HitsOn(planeFace, face, 1) + HitsOn(planeFace, face, 2)
  {
    assert EdgeHits(planeFace, face, 1) == HitsOn(planeFace, face, 0);
  }

  /** How the number of hits decides the result: one hit is a Point, two
      hits are a Point when closer than `Epsilon` and a Segment otherwise,
      three hits are a Face, none is no intersection. */
  function ClassifyHits(hits: seq<Hit>, face: Face): Intersection {
    if |hits| == 1 then
      PointHit(hits[0].point)
    else if |hits| == 2 then
      if SqDist(hits[0].point, hits[1].point) < Epsilon * Epsilon then PointHit(hits[0].point)
      else SegmentHit(hits[0], hits[1])
    else if |hits| == 3 then
      FaceHit(face)
    else
      NoIntersection
  }

  /** What `check_intersection_with_triangle` returns for `face`. */
  function TriangleIntersection(planeFace: Face, face: Face): (r: Intersection)
    ensures r.SegmentHit? ==> SegmentEdges(r.first.edge, r.second.edge)
  {
    EdgeHitsOrdered(planeFace, face, 3);
    ClassifyHits(EdgeHits(planeFace, face, 3), face)
  }

  /** `check_intersection_with_triangle`: tries the three directed edges in
      order, collecting the hits, then classifies them. */
  method CheckIntersectionWithTriangle(planeFace: Face, face: Face) returns (r: Intersection)
    ensures r == TriangleIntersection(planeFace, face)
  {
    var intersectionPoints: seq<Hit> := [];
    for i := 0 to 3
      invariant intersectionPoints == EdgeHits(planeFace, face, i)
    {
      var i2: Index := if i < 2 then i + 1 else 0;
      var point := CheckIntersectionWithSegment(planeFace, face.V(i), face.V(i2));
      if point.Some? {
        intersectionPoints := intersectionPoints + [Hit(point.value, EdgePair(i, i2))];
      }
    }
    r := ClassifyHits(intersectionPoints, face);
  }

  /** Only edge `i` meets the plane. */
  predicate OnlyEdgeHit(planeFace: Face, face: Face, i: Index) {
    && EdgeHit(planeFace, face, i).Some?
    && EdgeHit(planeFace, face, Next(i)).None?
    && EdgeHit(planeFace, face, Next(Next(i))).None?
  }

  /** Exactly the edges `i < j` meet the plane. */
  predicate OnlyEdgesHit(planeFace: Face, face: Face, i: Index, j: Index) {
    && i < j
    && EdgeHit(planeFace, face, i).Some?
    && EdgeHit(planeFace, face, j).Some?
    && EdgeHit(planeFace, face, 3 - i - j).None?
  }

  /** The two edge pairs of a Segment record: distinct directed edges
      `[i, i + 1 mod 3]`, in increasing order of `i`. */
  predicate SegmentEdges(e0: EdgePair, e1: EdgePair) {
    e0 == EdgeOf(e0.i) && e1 == EdgeOf(e1.i) && e0.i < e1.i
  }

  /** The result of the triangle classifier, edge by edge: no edge hit
      gives no intersection, every edge hit gives the face itself tagged
      Face, a single hit edge gives a Point there, and two hit edges give a
      Point at the first hit when the hits are closer than `Epsilon` and a
      Segment made of both hits with their edges otherwise. */
  lemma TriangleIntersectionByEdges(planeFace: Face, face: Face)
    ensures var r := TriangleIntersection(planeFace, face);
      && (r == NoIntersection <==> forall i: Index :: EdgeHit(planeFace, face, i).None?)
      && (r.FaceHit? <==> forall i: Index :: EdgeHit(planeFace, face, i).Some?)
      && (r.FaceHit? ==> r.face == face)
      && (forall i: Index :: OnlyEdgeHit(planeFace, face, i) ==>
            r == PointHit(EdgeHit(planeFace, face, i).value))
      && (forall i: Index, j: Index :: OnlyEdgesHit(planeFace, face, i, j) ==>
            r == PairResult(EdgeHit(planeFace, face, i).value, i, EdgeHit(planeFace, face, j).value, j))
  {
    TriangleIntersectionByCount(planeFace, face);
    TriangleIntersectionSingle(planeFace, face);
    TriangleIntersectionPair(planeFace, face);
  }

  lemma TriangleIntersectionByCount(planeFace: Face, face: Face)
    ensures var r := TriangleIntersection(planeFace, face);
      && (r == NoIntersection <==> forall i: Index :: EdgeHit(planeFace, face, i).None?)
      && (r.FaceHit? <==> forall i: Index :: EdgeHit(planeFace, face, i).Some?)
      && (r.FaceHit? ==> r.face == face)
  {
    AllEdgeHits(planeFace, face);
    ClassifyParts(EdgeHit(planeFace, face, 0), EdgeHit(planeFace, face, 1), EdgeHit(planeFace, face, 2), face);
  }

  lemma TriangleIntersectionSingle(planeFace: Face, face: Face)
    ensures forall i: Index :: OnlyEdgeHit(planeFace, face, i) ==>
              TriangleIntersection(planeFace, face) == PointHit(EdgeHit(planeFace, face, i).value)
  {
    AllEdgeHits(planeFace, face);
    ClassifyParts(EdgeHit(planeFace, face, 0), EdgeHit(planeFace, face, 1), EdgeHit(planeFace, face, 2), face);
  }

  lemma TriangleIntersectionPair(planeFace: Face, face: Face)
    ensures forall i: Index, j: Index :: OnlyEdgesHit(planeFace, face, i, j) ==>
              TriangleIntersection(planeFace, face) ==
                PairResult(EdgeHit(planeFace, face, i).value, i, EdgeHit(planeFace, face, j).value, j)
  {
    AllEdgeHits(planeFace, face);
    ClassifyParts(EdgeHit(planeFace, face, 0), EdgeHit(planeFace, face, 1), EdgeHit(planeFace, face, 2), face);
  }

  /** Two hits, `p` on edge `i` before `q` on edge `j`, as the classifier
      reports them. */
  function PairResult(p: Vec3, i: Index, q: Vec3, j: Index): Intersection {
    if SqDist(p, q) < Epsilon * Epsilon then PointHit(p) else SegmentHit(Hit(p, EdgeOf(i)), Hit(q, EdgeOf(j)))
  }

  /** The classifier applied to the hits of three edges, case by case. */
  lemma ClassifyParts(h0: Option<Vec3>, h1: Option<Vec3>, h2: Option<Vec3>, face: Face)
    ensures var r := ClassifyHits(Part(h0, 0) + Part(h1, 1) + Part(h2, 2), face);
      && (r == NoIntersection <==> h0.None? && h1.None? && h2.None?)
      && (r.FaceHit? <==> h0.Some? && h1.Some? && h2.Some?)
      && (r.FaceHit? ==> r.face == face)
      && (h0.Some? && h1.None? && h2.None? ==> r == PointHit(h0.value))
      && (h0.None? && h1.Some? && h2.None? ==> r == PointHit(h1.value))
      && (h0.None? && h1.None? && h2.Some? ==> r == PointHit(h2.value))
      && (h0.Some? && h1.Some? && h2.None? ==> r == PairResult(h0.value, 0, h1.value, 1))
      && (h0.Some? && h1.None? && h2.Some? ==> r == PairResult(h0.value, 0, h2.value, 2))
      && (h0.None? && h1.Some? && h2.Some? ==> r == PairResult(h1.value, 1, h2.value, 2))
  {
  }

  /** A Segment record names two distinct edges in increasing order, both
      of which really meet the plane at the recorded points; those points
      lie on the plane and at least `Epsilon` apart. */
  lemma SegmentRecordWellFormed(planeFace: Face, face: Face)
    requires TriangleIntersection(planeFace, face).SegmentHit?
    ensures var r := TriangleIntersection(planeFace, face);
      && SegmentEdges(r.first.edge, r.second.edge)
      && EdgeHit(planeFace, face, r.first.edge.i) == Some(r.first.point)
      && EdgeHit(planeFace, face, r.second.edge.i) == Some(r.second.point)
      && SignedDistance(planeFace, r.first.point) == 0.0
      && SignedDistance(planeFace, r.second.point) == 0.0
      && SqDist(r.first.point, r.second.point) >= Epsilon * Epsilon
  {
    AllEdgeHits(planeFace, face);
  }

  /** A Point record's point lies on the plane. */
  lemma PointRecordOnPlane(planeFace: Face, face: Face)
    requires TriangleIntersection(planeFace, face).PointHit?
    ensures SignedDistance(planeFace, TriangleIntersection(planeFace, face).point) == 0.0
  {
    AllEdgeHits(planeFace, face);
  }

  /** A face lying within `Epsilon / 2` of the plane, coplanar faces
      included, meets it on no edge: every edge is near-parallel, so the
      classifier reports no intersection and never the Face tag. */
  lemma NearPlaneFaceHasNoHits(planeFace: Face, face: Face)
    requires forall k: Index :: Abs(SignedDistance(planeFace, face.V(k))) <= Epsilon / 2.0
    ensures TriangleIntersection(planeFace, face) == NoIntersection
  {
    forall i: Index
      ensures EdgeHit(planeFace, face, i).None?
    {
      SegmentHitIff(planeFace, face.V(i), face.V(Next(i)));
    }
    TriangleIntersectionByEdges(planeFace, face);
  }

  /** The Face tag does not mean coplanar: when the plane passes through
      vertex `k` and the other two vertices lie more than `Epsilon` off it
      on opposite sides, all three edges meet the plane (two of them at
      vertex `k`) and the face is tagged Face. */
  lemma VertexOnPlaneTaggedFace(planeFace: Face, face: Face, k: Index)
    requires SignedDistance(planeFace, face.V(k)) == 0.0
    requires var a, b := SignedDistance(planeFace, face.V(Next(k))), SignedDistance(planeFace, face.V(Next(Next(k))));
             (a < -Epsilon && b > Epsilon) || (a > Epsilon && b < -Epsilon)
    ensures TriangleIntersection(planeFace, face) == FaceHit(face)
  {
    var k1 := Next(k);
    var k2 := Next(k1);
    assert Next(k2) == k;
    SegmentHitIff(planeFace, face.V(k), face.V(k1));
    SegmentHitIff(planeFace, face.V(k1), face.V(k2));
    SegmentHitIff(planeFace, face.V(k2), face.V(k));
    forall i: Index
      ensures EdgeHit(planeFace, face, i).Some?
    {
      assert i == k || i == k1 || i == k2;
    }
    TriangleIntersectionByEdges(planeFace, face);
  }
}
