# Plane-versus-mesh subdivider, modelled in Dafny

This project models the geometric core of the Cura `ModelSubdividerPlugin`
(`plugins/ModelSubdividerPlugin/ModelSubdividerPlugin.py`). The plugin cuts
a triangle mesh (a "face soup") by a plane given as three points, and
returns two meshes, one for each side of the plane. The model covers:

- the segment intersector `check_intersection_with_segment`;
- the triangle classifier `check_intersection_with_triangle`, whose result
  is no intersection, a Point, a Segment (two hits with their edge pairs)
  or a Face;
- the majority-vote side test `check_plane_side`, and `is_point_in_plane`;
- `distance_between_points`, in squared form;
- the re-splitter `split_triangle`;
- the body of `_subdivide`: reading the faces from a vertex buffer (with or
  without an index buffer) and routing every face, whole or split, into
  two builders.

Points are triples of exact reals and the tolerance `Epsilon` is `0.01`.
The plane's normal is `cross(p1 - p0, p2 - p0)` and is not normalised.
The tests compare with `Epsilon` as follows:

- The side test and the in-plane test compare the signed distance
  `n . (plane_face[0] - p)` (`SignedDistance`).
- The near-parallel test of the segment intersector compares
  `n . (p1 - p0)`, the difference of the two end points' signed
  distances (`EdgeDrop`).
- The test that collapses two hits into one Point compares the Euclidean
  distance between them, squared here (`SqDist < Epsilon * Epsilon`).

Each builder is a sequence of faces, and adding a face appends
it.

The modules follow the structure of the file:

- `Vectors`: vector arithmetic.
- `Geometry`: faces, the plane and the in-plane test.
- `Intersection`: the segment intersector and the triangle classifier.
- `PlaneSide`: the side test.
- `Resplit`: `split_triangle`.
- `Subdivider`: `_subdivide`.

Loops are `method`s proved against specification functions:

- `CheckIntersectionWithTriangle` against `TriangleIntersection`;
- `CheckPlaneSide` against `SideOf`;
- `SplitTriangle` against `SplitPieces`;
- `Route` against `Routed`;
- `ExtractFaces` against `FacesOf`.

The properties are lemmas about those functions. The two loops of
`_subdivide` that fill the builders are `RouteFaces` (lines 84-94) and
`RouteIntersected` (lines 95-102). `RouteIntersected` hands each entry to
`RouteEntry`, which uses `AddPieces` for the loop over the new faces.
`Route` runs both in order.

Three consequences of the code are worth knowing; the model states them
as the code has them:

- **A split face's pieces do not land one on each side.** One would
  expect the cut to send the corner it isolates to one side and the
  remaining quadrilateral to the other. The first two faces
  `split_triangle` builds (`[face[c], p0, p1]` and `[face[o], p0, p1]`)
  each have two vertices exactly on the plane. So at most one of their
  vertices exceeds `Epsilon`, and the majority vote always sends them to
  side 1 (`SplitPieceSides`). When the isolated corner lies above the
  plane, all three pieces go to side 1.
  - Example: the plane z = 0 given as (0,0,0), (1,0,0), (0,1,0), and the
    triangle (-1,-1,1), (1,-1,1), (0,1,-1). The corner (0,1,-1) is cut
    off, and all three pieces, the corner's included, go to side 1.
- **The Face tag does not mean coplanar.** A face lying within
  `Epsilon / 2` of the plane has only near-parallel edges, so it gets no
  hit at all. It is routed whole to side 1, not duplicated
  (`NearPlaneFaceHasNoHits`, `NearPlaneFaceGoesToSideOne`). Three hits
  happen instead when the plane passes through one vertex and crosses the
  opposite edge (`VertexOnPlaneTaggedFace`). Such a face is then copied
  into both meshes (`FaceTaggedInBoth`).
- **A degenerate plane is not rejected.** Nothing checks that the plane's
  three points are non-collinear. With a zero normal, every edge is
  near-parallel and every face goes whole to side 1.

## Model

| member | source | states |
|---|---|---|
| Vectors.SqDistIsDistance | plugins/ModelSubdividerPlugin/ModelSubdividerPlugin.py:151-152 | the squared distance standing in for `distance_between_points` is never negative, is symmetric, and is zero exactly between equal points |
| Geometry.Normal | plugins/ModelSubdividerPlugin/ModelSubdividerPlugin.py:139 | the plane's normal `n = cross(plane_face[1] - plane_face[0], plane_face[2] - plane_face[0])` is orthogonal to both edges of the plane's triangle |
| Geometry.SignedDistance | plugins/ModelSubdividerPlugin/ModelSubdividerPlugin.py:140-141 | defines `d = n . (plane_face[0] - p)`, the value the side and in-plane tests compare with `Epsilon` (the same value lines 156-157 and 182-183 compute); `PlaneFaceOnPlane` and `EdgeDrop` state its properties |
| PlaneSide.InPlaneTest | plugins/ModelSubdividerPlugin/ModelSubdividerPlugin.py:154-160 | `is_point_in_plane` accepts the three points defining the plane, every point the segment intersector reports and every point a Point or Segment record carries; a point it accepts is never counted above the plane by `check_plane_side` |
| Geometry.PlaneFaceOnPlane | plugins/ModelSubdividerPlugin/ModelSubdividerPlugin.py:181-183 | the three points defining the plane have signed distance exactly 0 (the cross-product normal is orthogonal to both edges) |
| Intersection.CheckIntersectionWithSegment | plugins/ModelSubdividerPlugin/ModelSubdividerPlugin.py:180-190 | no point for a near-parallel edge (`abs(n . (p1 - p0)) <= Epsilon`), even one lying in the plane; a reported point lies exactly on the plane and passes `(p0 - o) . (p1 - o) <= 0` |
| Intersection.PointAtParameterOnPlane | plugins/ModelSubdividerPlugin/ModelSubdividerPlugin.py:182-187 | the candidate `o = p0 + w * d / e` lies exactly on the plane |
| Intersection.EdgeDrop | plugins/ModelSubdividerPlugin/ModelSubdividerPlugin.py:182-185 | `e = n . (p1 - p0)` equals the drop in signed distance from `p0` to `p1` |
| Intersection.SegmentHitIff | plugins/ModelSubdividerPlugin/ModelSubdividerPlugin.py:180-190 | a point is reported iff the end points' signed distances differ by more than `Epsilon` and are not strictly on the same side of the plane (both directions) |
| Intersection.OnSegmentTest | plugins/ModelSubdividerPlugin/ModelSubdividerPlugin.py:187-188 | for a proper segment, the dot-product test accepts the point at parameter `t` iff `0 <= t <= 1` |
| Intersection.SegmentHitOnSegment | plugins/ModelSubdividerPlugin/ModelSubdividerPlugin.py:186-189 | a reported point is `p0 + t (p1 - p0)` with `t = d0 / (d0 - d1)` in the unit interval, i.e. inside the closed segment |
| Intersection.ExtendedSegmentSameHit | plugins/ModelSubdividerPlugin/ModelSubdividerPlugin.py:180-190 | extending a segment that the plane crosses beyond its far end yields the same intersection point |
| Intersection.EdgeHitsOrdered | plugins/ModelSubdividerPlugin/ModelSubdividerPlugin.py:164-169 | the collected hits name directed edges `[i, i+1 mod 3]` of the edges tried so far, at most one per edge, in increasing order of `i` |
| Intersection.AllEdgeHits | plugins/ModelSubdividerPlugin/ModelSubdividerPlugin.py:163-169 | after the loop, `intersection_points` holds the hits of edges 0, 1 and 2 in that order |
| Intersection.ClassifyHits | plugins/ModelSubdividerPlugin/ModelSubdividerPlugin.py:170-178 | defines the count dispatch: one hit a Point, two hits a Point when closer than `Epsilon` else a Segment, three hits a Face, otherwise none; `TriangleIntersectionByEdges` states it edge by edge |
| Intersection.TriangleIntersection | plugins/ModelSubdividerPlugin/ModelSubdividerPlugin.py:162-178 | a Segment result always names two distinct directed edges in increasing order |
| Intersection.CheckIntersectionWithTriangle | plugins/ModelSubdividerPlugin/ModelSubdividerPlugin.py:162-178 | the hit-collecting loop and the count dispatch compute `TriangleIntersection` |
| Intersection.TriangleIntersectionByEdges | plugins/ModelSubdividerPlugin/ModelSubdividerPlugin.py:170-178 | no hit iff no intersection; Face iff all three edges hit, with the face returned unchanged; one hit gives a Point there; two hits give a Point at the first when closer than `Epsilon`, else a Segment of both hits with their edges |
| Intersection.TriangleIntersectionByCount | plugins/ModelSubdividerPlugin/ModelSubdividerPlugin.py:176-178 | no intersection iff no edge hit; Face iff every edge hit, carrying the face itself |
| Intersection.TriangleIntersectionSingle | plugins/ModelSubdividerPlugin/ModelSubdividerPlugin.py:170-171 | exactly one hit edge gives a Point at its hit |
| Intersection.TriangleIntersectionPair | plugins/ModelSubdividerPlugin/ModelSubdividerPlugin.py:172-175 | exactly two hit edges give a Point at the first hit when the hits are closer than `Epsilon`, a Segment of both hits otherwise |
| Intersection.ClassifyParts | plugins/ModelSubdividerPlugin/ModelSubdividerPlugin.py:170-178 | the count dispatch applied to the hits of the three edges, case by case over which edges hit |
| Intersection.SegmentRecordWellFormed | plugins/ModelSubdividerPlugin/ModelSubdividerPlugin.py:164-175 | a Segment record names two distinct edges `[i, i+1 mod 3]` in increasing order, both really hit at the recorded points, which lie on the plane at least `Epsilon` apart |
| Intersection.PointRecordOnPlane | plugins/ModelSubdividerPlugin/ModelSubdividerPlugin.py:170-174 | a Point record's point lies on the plane |
| Intersection.NearPlaneFaceHasNoHits | plugins/ModelSubdividerPlugin/ModelSubdividerPlugin.py:164-169 | a face within `Epsilon / 2` of the plane, coplanar faces included, meets it on no edge, so it is never tagged Face |
| Intersection.VertexOnPlaneTaggedFace | plugins/ModelSubdividerPlugin/ModelSubdividerPlugin.py:164-177 | a plane through one vertex, with the other two more than `Epsilon` off it on opposite sides, gets all three edges hit and the Face tag |
| PlaneSide.CountAbove | plugins/ModelSubdividerPlugin/ModelSubdividerPlugin.py:142-145 | the count of values above `Epsilon` never exceeds the list length |
| PlaneSide.CountAboveThree | plugins/ModelSubdividerPlugin/ModelSubdividerPlugin.py:142-145 | for three values the count is the number of them exceeding `Epsilon` |
| PlaneSide.SideOf | plugins/ModelSubdividerPlugin/ModelSubdividerPlugin.py:138-149 | the side is 0 or 1, and 0 exactly when at least two vertices lie more than `Epsilon` above the plane |
| PlaneSide.CheckPlaneSide | plugins/ModelSubdividerPlugin/ModelSubdividerPlugin.py:138-149 | the counting loop computes `SideOf` |
| PlaneSide.TwoVerticesNotAboveGoToSideOne | plugins/ModelSubdividerPlugin/ModelSubdividerPlugin.py:143-149 | a face with two vertices not above `Epsilon` goes to side 1 (ties go to side 1) |
| Resplit.SharedVertexUnique | plugins/ModelSubdividerPlugin/ModelSubdividerPlugin.py:115-119 | two distinct edges `[i, i+1 mod 3]` share exactly one vertex |
| Resplit.SharedVertex | plugins/ModelSubdividerPlugin/ModelSubdividerPlugin.py:115-119 | `common_index` is an end of both hit edges |
| Resplit.SplitPieces | plugins/ModelSubdividerPlugin/ModelSubdividerPlugin.py:120-130 | defines the three new faces from the shared vertex `c`: the cap `[face[c], p0, p1]`, `[face[c+1], p0, p1]` and `[face[c+1], face[c+2], q]` with `q` the hit on the edge joining `c` and `c+2`; `SplitTriangle` is proved to build exactly these |
| Resplit.SplitEdgesAroundSharedVertex | plugins/ModelSubdividerPlugin/ModelSubdividerPlugin.py:121-129 | `{common_index, other_index, third_index} = {0, 1, 2}`; exactly one hit edge joins the common and third indices, and the other joins the common and other indices |
| Resplit.SplitTriangle | plugins/ModelSubdividerPlugin/ModelSubdividerPlugin.py:111-131 | the double loop finds the shared vertex and the `break` loop always finds a third point (never None), so the three faces are the cap at the shared vertex and the two faces of the remaining quadrilateral, the last ending at the hit on the edge to the third vertex |
| Resplit.SplitPieceSides | plugins/ModelSubdividerPlugin/ModelSubdividerPlugin.py:99-102 | the first two pieces of a split always go to side 1; the third goes to side 0 iff both vertices other than the shared one are above the plane; all go to side 1 when the shared vertex is above the plane |
| Subdivider.PendingOf | plugins/ModelSubdividerPlugin/ModelSubdividerPlugin.py:84-94 | `intersected_faces` holds only Segment or Face entries, Segment ones naming two distinct edges |
| Subdivider.FirstLoopStep | plugins/ModelSubdividerPlugin/ModelSubdividerPlugin.py:85-94 | one more face either goes to the builder of its side (no intersection or Point) or is set aside with its classification |
| Subdivider.SecondLoopStep | plugins/ModelSubdividerPlugin/ModelSubdividerPlugin.py:95-102 | one more set-aside entry adds its contribution to a builder |
| Subdivider.PieceLoopStep | plugins/ModelSubdividerPlugin/ModelSubdividerPlugin.py:101-102 | one more new face goes to the builder of its side |
| Subdivider.RouteFaces | plugins/ModelSubdividerPlugin/ModelSubdividerPlugin.py:84-94 | the first loop computes the kept faces of each side and `intersected_faces` |
| Subdivider.RouteIntersected | plugins/ModelSubdividerPlugin/ModelSubdividerPlugin.py:95-102 | the second loop appends, in order, the contribution of each set-aside entry to each builder |
| Subdivider.RouteEntry | plugins/ModelSubdividerPlugin/ModelSubdividerPlugin.py:96-102 | a Face entry goes to both builders; a Segment entry is split and its pieces go to their sides |
| Subdivider.AddPieces | plugins/ModelSubdividerPlugin/ModelSubdividerPlugin.py:101-102 | each new face is appended, in order, to the builder `check_plane_side` picks |
| Subdivider.Route | plugins/ModelSubdividerPlugin/ModelSubdividerPlugin.py:84-102 | each builder ends up with the kept faces of its side followed by what the second loop adds (`Routed`) |
| Subdivider.OnSideCount | plugins/ModelSubdividerPlugin/ModelSubdividerPlugin.py:101-102 | the side test sends every new face to exactly one builder |
| Subdivider.KeptCount | plugins/ModelSubdividerPlugin/ModelSubdividerPlugin.py:85-94 | the first loop keeps one face per face not set aside, and sets the rest aside |
| Subdivider.SplitToCount | plugins/ModelSubdividerPlugin/ModelSubdividerPlugin.py:95-102 | the second loop adds two faces per Face entry and three per Segment entry |
| Subdivider.RoutedCount | plugins/ModelSubdividerPlugin/ModelSubdividerPlugin.py:84-102 | the two builders together hold one face per whole face, two per Face-tagged face and three per split face |
| Subdivider.KeptInOrder | plugins/ModelSubdividerPlugin/ModelSubdividerPlugin.py:85-94 | whole faces are appended in input order, ahead of everything the second loop adds |
| Subdivider.KeptMembers | plugins/ModelSubdividerPlugin/ModelSubdividerPlugin.py:85-92 | the first loop gives builder `s` exactly the input faces with no intersection or a Point whose side is `s` |
| Subdivider.PendingMembers | plugins/ModelSubdividerPlugin/ModelSubdividerPlugin.py:93-94 | a face is set aside, with its own classification, exactly when it is tagged Segment or Face |
| Subdivider.OnSideMembers | plugins/ModelSubdividerPlugin/ModelSubdividerPlugin.py:101-102 | the pieces a builder receives are exactly the pieces whose side is that builder's |
| Subdivider.SplitToMembers | plugins/ModelSubdividerPlugin/ModelSubdividerPlugin.py:95-102 | whatever an entry contributes to a builder ends up in it |
| Subdivider.WholeFaceRouted | plugins/ModelSubdividerPlugin/ModelSubdividerPlugin.py:86-92 | a face with no intersection or a Point ends up unchanged in the mesh of its side |
| Subdivider.FaceTaggedInBoth | plugins/ModelSubdividerPlugin/ModelSubdividerPlugin.py:96-98 | a Face-tagged face ends up unchanged in both meshes |
| Subdivider.SplitPiecesRouted | plugins/ModelSubdividerPlugin/ModelSubdividerPlugin.py:99-102 | each of the three pieces of a split face ends up in the mesh of its own side |
| Subdivider.NearPlaneFaceGoesToSideOne | plugins/ModelSubdividerPlugin/ModelSubdividerPlugin.py:86-89 | a face within `Epsilon / 2` of the plane is not cut and goes whole to side 1 |
| Subdivider.Lookup | plugins/ModelSubdividerPlugin/ModelSubdividerPlugin.py:80 | `vertices[k]` exists iff `-len <= k < len`, and is then the vertex at `k`, or at `len + k` for a negative `k`, counting from the end |
| Subdivider.Flatten | plugins/ModelSubdividerPlugin/ModelSubdividerPlugin.py:82-83 | writing faces out takes three vertices per face |
| Subdivider.TrianglesRoundTrip | plugins/ModelSubdividerPlugin/ModelSubdividerPlugin.py:81-83 | without indices, reading succeeds iff the vertex count is a multiple of 3, gives `len / 3` faces, and writing them back out gives the vertex buffer again |
| Subdivider.FlattenRoundTrip | plugins/ModelSubdividerPlugin/ModelSubdividerPlugin.py:81-83 | reading back a written-out face list gives the same faces |
| Subdivider.FlattenTriangles | plugins/ModelSubdividerPlugin/ModelSubdividerPlugin.py:82-83 | the first `n` faces read cover exactly the first `3n` vertices |
| Subdivider.IndexedFacesOk | plugins/ModelSubdividerPlugin/ModelSubdividerPlugin.py:78-80 | with indices, reading succeeds iff every index is in range; then there is one face per index row, face `m` being the vertices its row names, a negative index counting from the end |
| Subdivider.ExtractFaces | plugins/ModelSubdividerPlugin/ModelSubdividerPlugin.py:77-83 | the face-reading loops compute `FacesOf`, raising `IndexError` where Python does |
| Subdivider.Subdivide | plugins/ModelSubdividerPlugin/ModelSubdividerPlugin.py:69-109 | the result is the two routed face lists, or `IndexError` exactly when the plane has fewer than three vertices or the faces cannot be read |

## Left out

- The menu items, `createPlane` and the selection and type dispatch in
  `subdivide` (lines 30-67). This is host user-interface and undo-stack
  code.
- `getMeshData`, `getVertices` and `getIndices` (lines 70-76) are calls
  into the host's scene classes. The plane's vertices, the mesh's
  vertices and its optional index rows are parameters. A node without
  mesh data (an `AttributeError` on `None`) is not modelled.
- `MeshBuilder.calculateNormals` and `build`, the `SceneNode` creation,
  `setSelectable` and `setScale` (lines 103-109). These are calls into
  the host library. The result is the two face lists the builders
  received.
- `add_face_to_builder` (lines 133-136) is modelled as appending the face
  to the builder's face list. `addFaceByPoints` is a host-library call.
- Floating point is left out; arithmetic is over exact reals.
  - `w * d / e` is computed as `w * (d / e)`, which is equal over the
    reals.
  - `math.sqrt` is not modelled. `distance_between_points(p, q) < epsilon`
    is compared as `SqDist(p, q) < Epsilon * Epsilon`, which is equivalent
    because a distance is never negative.
- `if indices:` is modelled as the truth value of a Python list: indices
  present and non-empty.
  - A numpy index array of more than one element raises `ValueError`
    when tested for truth. The model does not capture that.
  - Index values are unbounded integers; numpy integer widths are not
    modelled.
- `is_point_in_plane` is modelled, but nothing in the file calls it.
- Subdivider.Route: the two loops of `_subdivide` and the body of the
  second loop are separate methods (`RouteFaces`, `RouteIntersected`,
  `RouteEntry`, `AddPieces`). The builders are passed between them as a
  value rather than shared in place.
