/** The splitter `split_triangle`: cuts a face that the plane crosses along
    a segment into three faces. */
module Resplit {
  import opened Vectors
  import opened Geometry
  import opened Intersection
  import opened PlaneSide

  /** Vertex `k` is an end of edge `e`. */
  predicate OnEdge(k: Index, e: EdgePair) {
    e.i == k || e.i2 == k
  }

  /** Edge `e` joins vertices `a` and `b`, in either direction. */
  predicate Joins(e: EdgePair, a: Index, b: Index) {
    (e.i == a && e.i2 == b) || (e.i2 == a && e.i == b)
  }

  /** Two distinct edges of a triangle share exactly one vertex. */
  lemma SharedVertexUnique(e0: EdgePair, e1: EdgePair)
    requires SegmentEdges(e0, e1)
    ensures exists c: Index :: OnEdge(c, e0) && OnEdge(c, e1)
    ensures forall c: Index, c': Index :: OnEdge(c, e0) && OnEdge(c, e1) && OnEdge(c', e0) && OnEdge(c', e1) ==> c == c'
  {
    if e0.i == 0 && e1.i == 1 {
      assert OnEdge(1, e0) && OnEdge(1, e1);
    } else if e0.i == 0 {
      assert OnEdge(0, e0) && OnEdge(0, e1);
    } else {
      assert OnEdge(2, e0) && OnEdge(2, e1);
    }
  }

  /** The vertex the two hit edges share: the one the cut separates from
      the other two. */
  ghost function SharedVertex(e0: EdgePair, e1: EdgePair): (c: Index)
    requires SegmentEdges(e0, e1)
    ensures OnEdge(c, e0) && OnEdge(c, e1)
  {
    SharedVertexUnique(e0, e1);
    var c :| OnEdge(c, e0) && OnEdge(c, e1);
    c
  }

  /** The three faces the cut produces, stated from the shared vertex `c`
      and the two vertices `o`, `t` after it: the cap `c, p0, p1`, and the
      quadrilateral `o, t, q, ...` cut into `o, p0, p1` and `o, t, q`, where
      `q` is the hit on the edge joining `c` and `t`. */
  ghost function SplitPieces(face: Face, first: Hit, second: Hit): seq<Face>
    requires SegmentEdges(first.edge, second.edge)
  {
    var c := SharedVertex(first.edge, second.edge);
    var o := Next(c);
    var t := Next(o);
    var q := if Joins(first.edge, c, t) then first.point else second.point;
    [Face(face.V(c), first.point, second.point),
     Face(face.V(o), first.point, second.point),
     Face(face.V(o), face.V(t), q)]
  }

  /** The shared vertex and the two after it are the three vertices of the
      face. Of the two hit edges, one joins the shared vertex to the vertex
      after it and the other joins it to the vertex before it; so the hit `q`
      used by the third face is the one on the edge from `c` to `t`, and
      the other hit lies on the edge from `c` to `o`. */
  lemma SplitEdgesAroundSharedVertex(first: Hit, second: Hit)
    requires SegmentEdges(first.edge, second.edge)
    ensures var c := SharedVertex(first.edge, second.edge);
            var o := Next(c);
            var t := Next(o);
            && o != c && t != c && t != o
            && {c, o, t} == {0, 1, 2}
            && (Joins(first.edge, c, t) <==> Joins(second.edge, c, o))
            && (Joins(first.edge, c, t) != Joins(second.edge, c, t))
  {
    var c := SharedVertex(first.edge, second.edge);
    SharedVertexUnique(first.edge, second.edge);
    if first.edge.i == 0 && second.edge.i == 1 {
      assert OnEdge(1, first.edge) && OnEdge(1, second.edge);
      assert c == 1;
    } else if first.edge.i == 0 {
      assert OnEdge(0, first.edge) && OnEdge(0, second.edge);
      assert c == 0;
    } else {
      assert OnEdge(2, first.edge) && OnEdge(2, second.edge);
      assert c == 2;
    }
  }

  /** `split_triangle`: finds the index the two hit edges share (the last
      match of a double loop over both pairs), then builds the cap and the
      two faces of the remaining quadrilateral; the third face's last
      vertex is the hit on the edge joining the shared vertex and the
      third vertex, found by a loop that stops at the first such edge. */
  method SplitTriangle(face: Face, first: Hit, second: Hit) returns (newFaces: seq<Face>)
    requires SegmentEdges(first.edge, second.edge)
    ensures newFaces == SplitPieces(face, first, second)
  {
    var intersectionPoints := [first.point, second.point];
    var intersectionIndices := [first.edge, second.edge];
    newFaces := [];
    ghost var c := SharedVertex(first.edge, second.edge);
    SharedVertexUnique(first.edge, second.edge);
    ghost var pos0: int := if first.edge.i == c then 0 else 1;
    ghost var pos1: int := if second.edge.i == c then 0 else 1;
    var commonIndex: Index := 0;
    for a := 0 to 2
      invariant commonIndex == 0 || commonIndex == c
      invariant a > pos0 ==> commonIndex == c
    {
      for b := 0 to 2
        invariant commonIndex == 0 || commonIndex == c
        invariant a > pos0 ==> commonIndex == c
        invariant a == pos0 && b > pos1 ==> commonIndex == c
      {
        if intersectionIndices[0].At(a) == intersectionIndices[1].At(b) {
          commonIndex := intersectionIndices[0].At(a);
        }
      }
    }
    newFaces := newFaces + [Face(face.V(commonIndex), intersectionPoints[0], intersectionPoints[1])];
    var otherIndex: Index := if commonIndex < 2 then commonIndex + 1 else 0;
    newFaces := newFaces + [Face(face.V(otherIndex), intersectionPoints[0], intersectionPoints[1])];
    var thirdIndex: Index := if otherIndex < 2 then otherIndex + 1 else 0;
    SplitEdgesAroundSharedVertex(first, second);
    var thirdPoint: Option<Vec3> := None;
    for i := 0 to 2
      invariant thirdPoint.None? ==> forall j :: 0 <= j < i ==> !Joins(intersectionIndices[j], commonIndex, thirdIndex)
      invariant thirdPoint.Some? ==> thirdPoint.value == (if Joins(first.edge, c, thirdIndex) then first.point else second.point)
    {
      if (intersectionIndices[i].i == commonIndex && intersectionIndices[i].i2 == thirdIndex)
        || (intersectionIndices[i].i2 == commonIndex && intersectionIndices[i].i == thirdIndex)
      {
        thirdPoint := Some(intersectionPoints[i]);
        break;
      }
    }
    assert Joins(intersectionIndices[0], commonIndex, thirdIndex) || Joins(intersectionIndices[1], commonIndex, thirdIndex);
    newFaces := newFaces + [Face(face.V(otherIndex), face.V(thirdIndex), thirdPoint.value)];
  }

  /** Where the pieces of a Segment split go: the cap and the first face
      of the quadrilateral each have two vertices on the plane, so both
      always go to side 1; the last face goes to side 0 exactly when both
      vertices of the face other than the shared one are above the plane.
      In particular, when the shared vertex is above the plane, every
      piece goes to side 1. */
  lemma SplitPieceSides(planeFace: Face, face: Face)
    requires TriangleIntersection(planeFace, face).SegmentHit?
    ensures var r := TriangleIntersection(planeFace, face);
            var pieces := SplitPieces(face, r.first, r.second);
            var c := SharedVertex(r.first.edge, r.second.edge);
            && SideOf(planeFace, pieces[0]) == 1
            && SideOf(planeFace, pieces[1]) == 1
            && (SideOf(planeFace, pieces[2]) == 0 <==>
                  Above(planeFace, face.V(Next(c))) && Above(planeFace, face.V(Next(Next(c)))))
            && (SignedDistance(planeFace, face.V(c)) > 0.0 ==> SideOf(planeFace, pieces[2]) == 1)
  {
    var r := TriangleIntersection(planeFace, face);
    SegmentRecordWellFormed(planeFace, face);
    var c := SharedVertex(r.first.edge, r.second.edge);
    var o := Next(c);
    var t := Next(o);
    var pieces := SplitPieces(face, r.first, r.second);
    TwoVerticesNotAboveGoToSideOne(planeFace, pieces[0], 1, 2);
    TwoVerticesNotAboveGoToSideOne(planeFace, pieces[1], 1, 2);
    SplitEdgesAroundSharedVertex(r.first, r.second);
    var q := pieces[2].v2;
    assert SignedDistance(planeFace, q) == 0.0;
    if SignedDistance(planeFace, face.V(c)) > 0.0 {
      // The edge from c to o crosses the plane, so o is not above it.
      var h := if Joins(r.first.edge, c, o) then r.first else r.second;
      assert Joins(h.edge, c, o);
      SegmentHitIff(planeFace, face.V(h.edge.i), face.V(h.edge.i2));
      assert !Above(planeFace, face.V(o));
    }
  }
}
