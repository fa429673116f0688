/** The driver `_subdivide`: reads the plane's triangle and the mesh's
    faces, keeps the faces the plane does not cut, splits the ones it cuts
    along a segment, and routes every resulting face to one of two output
    meshes. */
module Subdivider {
  import opened Vectors
  import opened Geometry
  import opened Intersection
  import opened PlaneSide
  import opened Resplit

  // ---------------------------------------------------------------------
  // Routing faces to the two builders (ModelSubdividerPlugin.py:84-102)
  // ---------------------------------------------------------------------

  /** Kinds the first loop hands straight to a builder: no intersection,
      or a Point. */
  predicate RoutedWhole(r: Intersection) {
    r.NoIntersection? || r.PointHit?
  }

  /** An entry `[f, intersection_type]` of `intersected_faces`. */
  datatype Pending = Pending(face: Face, kind: Intersection)

  /** A pending entry is tagged Segment or Face, and a Segment names two
      distinct edges of the face, as the splitter needs. */
  predicate Splittable(p: Pending) {
    && (p.kind.SegmentHit? || p.kind.FaceHit?)
    && (p.kind.SegmentHit? ==> SegmentEdges(p.kind.first.edge, p.kind.second.edge))
  }

  /** The faces the first loop adds to builder `s`, in order. */
  function Kept(planeFace: Face, faces: seq<Face>, s: int): seq<Face> {
    if |faces| == 0 then []
    else
      var f := faces[|faces| - 1];
      Kept(planeFace, faces[..|faces| - 1], s) +
        (if RoutedWhole(TriangleIntersection(planeFace, f)) && SideOf(planeFace, f) == s then [f] else [])
  }

  /** `intersected_faces` once the first loop is over. */
  function PendingOf(planeFace: Face, faces: seq<Face>): (pending: seq<Pending>)
    ensures |pending| <= |faces|
    ensures forall p | p in pending :: Splittable(p)
  {
    if |faces| == 0 then []
    else
      var f := faces[|faces| - 1];
      var r := TriangleIntersection(planeFace, f);
      PendingOf(planeFace, faces[..|faces| - 1]) + (if RoutedWhole(r) then [] else [Pending(f, r)])
  }

  /** The faces of `fs` that the side test sends to side `s`, in order. */
  function OnSide(planeFace: Face, fs: seq<Face>, s: int): seq<Face> {
    if |fs| == 0 then []
    else
      var f := fs[|fs| - 1];
      OnSide(planeFace, fs[..|fs| - 1], s) + (if SideOf(planeFace, f) == s then [f] else [])
  }

  /** What the second loop adds to builder `s` for one pending entry: a
      Face-tagged face goes to both builders, a Segment-tagged one is split
      and each piece goes to its own side. (Entries of other kinds, and
      Segment records whose edges the splitter cannot use, never occur:
      see `Splittable`.) */
  ghost function Contribution(planeFace: Face, p: Pending, s: int): seq<Face> {
    match p.kind
    case FaceHit(_) => [p.face]
    case SegmentHit(first, second) =>
      if SegmentEdges(first.edge, second.edge) then OnSide(planeFace, SplitPieces(p.face, first, second), s) else []
    case _ => []
  }

  /** What the second loop adds to builder `s` for a list of pending
      entries, in order. */
  ghost function SplitTo(planeFace: Face, pending: seq<Pending>, s: int): seq<Face> {
    if |pending| == 0 then []
    else SplitTo(planeFace, pending[..|pending| - 1], s) + Contribution(planeFace, pending[|pending| - 1], s)
  }

  /** The faces of output mesh `s`: those the first loop keeps, followed by
      those the second loop adds. */
  ghost function Routed(planeFace: Face, faces: seq<Face>, s: int): seq<Face> {
    Kept(planeFace, faces, s) + SplitTo(planeFace, PendingOf(planeFace, faces), s)
  }

  /** One more face for the first loop. */
  lemma FirstLoopStep(planeFace: Face, faces: seq<Face>, n: nat)
    requires n < |faces|
    ensures var f, r := faces[n], TriangleIntersection(planeFace, faces[n]);
      && PendingOf(planeFace, faces[..n + 1]) ==
           PendingOf(planeFace, faces[..n]) + (if RoutedWhole(r) then [] else [Pending(f, r)])
      && Kept(planeFace, faces[..n + 1], 0) ==
           Kept(planeFace, faces[..n], 0) + (if RoutedWhole(r) && SideOf(planeFace, f) == 0 then [f] else [])
      && Kept(planeFace, faces[..n + 1], 1) ==
           Kept(planeFace, faces[..n], 1) + (if RoutedWhole(r) && SideOf(planeFace, f) == 1 then [f] else [])
  {
    assert faces[..n + 1][..n] == faces[..n];
  }

  /** One more pending entry for the second loop. */
  lemma SecondLoopStep(planeFace: Face, pending: seq<Pending>, n: nat, s: int)
    requires n < |pending|
    ensures SplitTo(planeFace, pending[..n + 1], s) == SplitTo(planeFace, pending[..n], s) + Contribution(planeFace, pending[n], s)
  {
    assert pending[..n + 1][..n] == pending[..n];
  }

  /** One more piece for the innermost loop. */
  lemma PieceLoopStep(planeFace: Face, fs: seq<Face>, m: nat, s: int)
    requires m < |fs|
    ensures OnSide(planeFace, fs[..m + 1], s) ==
              OnSide(planeFace, fs[..m], s) + (if SideOf(planeFace, fs[m]) == s then [fs[m]] else [])
  {
    assert fs[..m + 1][..m] == fs[..m];
  }

  /** The first loop of `_subdivide`: a face the plane misses or touches
      at a point goes to its side at once; a face cut along a segment or
      tagged Face is set aside in `intersected_faces` with its
      classification. */
  method RouteFaces(planeFace: Face, faces: seq<Face>) returns (builders: seq<seq<Face>>, intersectedFaces: seq<Pending>)
    ensures |builders| == 2
    ensures builders[0] == Kept(planeFace, faces, 0)
    ensures builders[1] == Kept(planeFace, faces, 1)
    ensures intersectedFaces == PendingOf(planeFace, faces)
  {
    builders := [[], []];
    intersectedFaces := [];
    for n := 0 to |faces|
      invariant |builders| == 2
      invariant builders[0] == Kept(planeFace, faces[..n], 0)
      invariant builders[1] == Kept(planeFace, faces[..n], 1)
      invariant intersectedFaces == PendingOf(planeFace, faces[..n])
    {
      var f := faces[n];
      FirstLoopStep(planeFace, faces, n);
      var intersectionType := CheckIntersectionWithTriangle(planeFace, f);
      if intersectionType.NoIntersection? {
        var side := CheckPlaneSide(planeFace, f);
        builders := builders[side := builders[side] + [f]];
      } else if intersectionType.PointHit? {
        var side := CheckPlaneSide(planeFace, f);
        builders := builders[side := builders[side] + [f]];
      } else {
        intersectedFaces := intersectedFaces + [Pending(f, intersectionType)];
      }
    }
    assert faces[..|faces|] == faces;
  }

  /** The second loop of `_subdivide`: handles the set-aside faces in
      order. */
  method RouteIntersected(planeFace: Face, kept: seq<seq<Face>>, intersectedFaces: seq<Pending>) returns (builders: seq<seq<Face>>)
    requires |kept| == 2
    requires forall p | p in intersectedFaces :: Splittable(p)
    ensures |builders| == 2
    ensures builders[0] == kept[0] + SplitTo(planeFace, intersectedFaces, 0)
    ensures builders[1] == kept[1] + SplitTo(planeFace, intersectedFaces, 1)
  {
    builders := kept;
    for n := 0 to |intersectedFaces|
      invariant |builders| == 2
      invariant builders[0] == kept[0] + SplitTo(planeFace, intersectedFaces[..n], 0)
      invariant builders[1] == kept[1] + SplitTo(planeFace, intersectedFaces[..n], 1)
    {
      SecondLoopStep(planeFace, intersectedFaces, n, 0);
      SecondLoopStep(planeFace, intersectedFaces, n, 1);
      assert intersectedFaces[n] in intersectedFaces;
      ghost var before := builders;
      builders := RouteEntry(planeFace, builders, intersectedFaces[n]);
      AppendStep(before[0], kept[0], SplitTo(planeFace, intersectedFaces[..n], 0),
                 Contribution(planeFace, intersectedFaces[n], 0), SplitTo(planeFace, intersectedFaces[..n + 1], 0));
      AppendStep(before[1], kept[1], SplitTo(planeFace, intersectedFaces[..n], 1),
                 Contribution(planeFace, intersectedFaces[n], 1), SplitTo(planeFace, intersectedFaces[..n + 1], 1));
    }
    assert intersectedFaces[..|intersectedFaces|] == intersectedFaces;
  }

  lemma AppendStep(builder: seq<Face>, kept: seq<Face>, done: seq<Face>, more: seq<Face>, all: seq<Face>)
    requires builder == kept + done && all == done + more
    ensures builder + more == kept + all
  {
  }

  /** One pass of the second loop: a Face-tagged face goes to both
      builders; a Segment-tagged face is split and each piece goes to the
      side `check_plane_side` picks for it. */
  method RouteEntry(planeFace: Face, before: seq<seq<Face>>, p: Pending) returns (builders: seq<seq<Face>>)
    requires |before| == 2 && Splittable(p)
    ensures |builders| == 2
    ensures builders[0] == before[0] + Contribution(planeFace, p, 0)
    ensures builders[1] == before[1] + Contribution(planeFace, p, 1)
  {
    builders := before;
    if p.kind.FaceHit? {
      builders := builders[0 := builders[0] + [p.face]];
      builders := builders[1 := builders[1] + [p.face]];
    } else if p.kind.SegmentHit? {
      var newFaces := SplitTriangle(p.face, p.kind.first, p.kind.second);
      builders := AddPieces(planeFace, builders, newFaces);
    }
  }

  /** The innermost loop of `_subdivide`: each new face goes to the
      builder of its own side, in order. */
  method AddPieces(planeFace: Face, before: seq<seq<Face>>, newFaces: seq<Face>) returns (builders: seq<seq<Face>>)
    requires |before| == 2
    ensures |builders| == 2
    ensures builders[0] == before[0] + OnSide(planeFace, newFaces, 0)
    ensures builders[1] == before[1] + OnSide(planeFace, newFaces, 1)
  {
    builders := before;
    for m := 0 to |newFaces|
      invariant |builders| == 2
      invariant builders[0] == before[0] + OnSide(planeFace, newFaces[..m], 0)
      invariant builders[1] == before[1] + OnSide(planeFace, newFaces[..m], 1)
    {
      PieceLoopStep(planeFace, newFaces, m, 0);
      PieceLoopStep(planeFace, newFaces, m, 1);
      var side := CheckPlaneSide(planeFace, newFaces[m]);
      builders := builders[side := builders[side] + [newFaces[m]]];
    }
    assert newFaces[..|newFaces|] == newFaces;
  }

  /** Lines 84-102 of `_subdivide` together: the faces each builder ends
      up with. */
  method Route(planeFace: Face, faces: seq<Face>) returns (builders: seq<seq<Face>>)
    ensures |builders| == 2
    ensures builders[0] == Routed(planeFace, faces, 0)
    ensures builders[1] == Routed(planeFace, faces, 1)
  {
    var kept, intersectedFaces := RouteFaces(planeFace, faces);
    builders := RouteIntersected(planeFace, kept, intersectedFaces);
  }

  // ---------------------------------------------------------------------
  // What the routing keeps, loses and duplicates
  // ---------------------------------------------------------------------

  /** How many output faces one input face of kind `r` becomes. */
  function Weight(r: Intersection): nat {
    match r
    case NoIntersection => 1
    case PointHit(_) => 1
    case FaceHit(_) => 2
    case SegmentHit(_, _) => 3
  }

  /** The number of faces the two meshes hold between them if nothing is
      lost: one per face kept whole, two per Face-tagged face and three
      per split face. */
  function ExpectedFaceCount(planeFace: Face, faces: seq<Face>): nat {
    if |faces| == 0 then 0
    else ExpectedFaceCount(planeFace, faces[..|faces| - 1]) + Weight(TriangleIntersection(planeFace, faces[|faces| - 1]))
  }

  function PendingWeight(pending: seq<Pending>): nat {
    if |pending| == 0 then 0
    else PendingWeight(pending[..|pending| - 1]) + Weight(pending[|pending| - 1].kind)
  }

  /** The side test splits any list in two. */
  lemma {:induction false} OnSideCount(planeFace: Face, fs: seq<Face>)
    ensures |OnSide(planeFace, fs, 0)| + |OnSide(planeFace, fs, 1)| == |fs|
  {
    if |fs| > 0 {
      OnSideCount(planeFace, fs[..|fs| - 1]);
    }
  }

  lemma {:induction false} KeptCount(planeFace: Face, faces: seq<Face>)
    ensures |Kept(planeFace, faces, 0)| + |Kept(planeFace, faces, 1)| + PendingWeight(PendingOf(planeFace, faces))
            == ExpectedFaceCount(planeFace, faces)
  {
    if |faces| > 0 {
      var prefix, f := faces[..|faces| - 1], faces[|faces| - 1];
      KeptCount(planeFace, prefix);
      var r := TriangleIntersection(planeFace, f);
      var pending := PendingOf(planeFace, faces);
      if RoutedWhole(r) {
        assert pending == PendingOf(planeFace, prefix);
        assert |Kept(planeFace, faces, 0)| + |Kept(planeFace, faces, 1)|
               == |Kept(planeFace, prefix, 0)| + |Kept(planeFace, prefix, 1)| + 1;
      } else {
        assert pending == PendingOf(planeFace, prefix) + [Pending(f, r)];
        assert pending[..|pending| - 1] == PendingOf(planeFace, prefix);
        assert Kept(planeFace, faces, 0) == Kept(planeFace, prefix, 0);
        assert Kept(planeFace, faces, 1) == Kept(planeFace, prefix, 1);
      }
    }
  }

  lemma {:induction false} SplitToCount(planeFace: Face, pending: seq<Pending>)
    requires forall p | p in pending :: Splittable(p)
    ensures |SplitTo(planeFace, pending, 0)| + |SplitTo(planeFace, pending, 1)| == PendingWeight(pending)
  {
    if |pending| > 0 {
      var p := pending[|pending| - 1];
      assert p in pending;
      SplitToCount(planeFace, pending[..|pending| - 1]);
      if p.kind.SegmentHit? {
        OnSideCount(planeFace, SplitPieces(p.face, p.kind.first, p.kind.second));
      }
    }
  }

  /** No face is lost and none is made up: the two meshes together hold
      one face per face kept whole, two per Face-tagged face and three per
      split face. */
  lemma RoutedCount(planeFace: Face, faces: seq<Face>)
    ensures |Routed(planeFace, faces, 0)| + |Routed(planeFace, faces, 1)| == ExpectedFaceCount(planeFace, faces)
  {
    KeptCount(planeFace, faces);
    SplitToCount(planeFace, PendingOf(planeFace, faces));
  }

  /** The first loop keeps exactly the faces of `faces` that the plane
      misses or touches at a point, each on its own side. */
  lemma {:induction false} KeptMembers(planeFace: Face, faces: seq<Face>, s: int, g: Face)
    ensures g in Kept(planeFace, faces, s) <==>
              g in faces && RoutedWhole(TriangleIntersection(planeFace, g)) && SideOf(planeFace, g) == s
  {
    if |faces| > 0 {
      KeptMembers(planeFace, faces[..|faces| - 1], s, g);
      assert faces == faces[..|faces| - 1] + [faces[|faces| - 1]];
    }
  }

  /** The first loop only ever appends: what it has given builder `s`
      after a prefix of the faces stays at the front of that builder, so
      kept faces appear in input order, ahead of everything the second
      loop adds. */
  lemma {:induction false} KeptInOrder(planeFace: Face, faces: seq<Face>, n: nat, s: int)
    requires n <= |faces|
    ensures Kept(planeFace, faces[..n], s) <= Kept(planeFace, faces, s)
    ensures Kept(planeFace, faces, s) <= Routed(planeFace, faces, s)
  {
    if n < |faces| {
      var prefix := faces[..|faces| - 1];
      assert prefix[..n] == faces[..n];
      KeptInOrder(planeFace, prefix, n, s);
    } else {
      assert faces[..n] == faces;
    }
  }

  /** A face is set aside for the second loop, with its own
      classification, exactly when the plane cuts it along a segment or
      tags it Face. */
  lemma {:induction false} PendingMembers(planeFace: Face, faces: seq<Face>, f: Face)
    ensures Pending(f, TriangleIntersection(planeFace, f)) in PendingOf(planeFace, faces) <==>
              f in faces && !RoutedWhole(TriangleIntersection(planeFace, f))
  {
    if |faces| > 0 {
      PendingMembers(planeFace, faces[..|faces| - 1], f);
      assert faces == faces[..|faces| - 1] + [faces[|faces| - 1]];
    }
  }

  /** The side test keeps exactly the faces of its side. */
  lemma {:induction false} OnSideMembers(planeFace: Face, fs: seq<Face>, s: int, g: Face)
    ensures g in OnSide(planeFace, fs, s) <==> g in fs && SideOf(planeFace, g) == s
  {
    if |fs| > 0 {
      OnSideMembers(planeFace, fs[..|fs| - 1], s, g);
      assert fs == fs[..|fs| - 1] + [fs[|fs| - 1]];
    }
  }

  lemma {:induction false} SplitToMembers(planeFace: Face, pending: seq<Pending>, p: Pending, s: int, g: Face)
    requires p in pending && g in Contribution(planeFace, p, s)
    ensures g in SplitTo(planeFace, pending, s)
  {
    var prefix, last := pending[..|pending| - 1], pending[|pending| - 1];
    assert pending == prefix + [last];
    if p != last {
      SplitToMembers(planeFace, prefix, p, s, g);
    }
  }

  /** A face the plane misses or touches at a point ends up, unchanged, in
      the mesh of its side. */
  lemma WholeFaceRouted(planeFace: Face, faces: seq<Face>, f: Face)
    requires f in faces && RoutedWhole(TriangleIntersection(planeFace, f))
    ensures f in Routed(planeFace, faces, SideOf(planeFace, f))
  {
    KeptMembers(planeFace, faces, SideOf(planeFace, f), f);
  }

  /** A Face-tagged face ends up, unchanged, in both meshes. */
  lemma FaceTaggedInBoth(planeFace: Face, faces: seq<Face>, f: Face)
    requires f in faces && TriangleIntersection(planeFace, f).FaceHit?
    ensures f in Routed(planeFace, faces, 0) && f in Routed(planeFace, faces, 1)
  {
    var p := Pending(f, TriangleIntersection(planeFace, f));
    PendingMembers(planeFace, faces, f);
    SplitToMembers(planeFace, PendingOf(planeFace, faces), p, 0, f);
    SplitToMembers(planeFace, PendingOf(planeFace, faces), p, 1, f);
  }

  /** Each of the three pieces of a face cut along a segment ends up in
      the mesh of the piece's own side. */
  lemma SplitPiecesRouted(planeFace: Face, faces: seq<Face>, f: Face, k: nat)
    requires f in faces && TriangleIntersection(planeFace, f).SegmentHit? && k < 3
    ensures var r := TriangleIntersection(planeFace, f);
            var piece := SplitPieces(f, r.first, r.second)[k];
            piece in Routed(planeFace, faces, SideOf(planeFace, piece))
  {
    var r := TriangleIntersection(planeFace, f);
    var pieces := SplitPieces(f, r.first, r.second);
    var s := SideOf(planeFace, pieces[k]);
    var p := Pending(f, r);
    PendingMembers(planeFace, faces, f);
    OnSideMembers(planeFace, pieces, s, pieces[k]);
    SplitToMembers(planeFace, PendingOf(planeFace, faces), p, s, pieces[k]);
  }

  /** A face lying within `Epsilon / 2` of the plane, a coplanar face in
      particular, is not cut, not tagged Face and not duplicated: it goes
      whole to side 1 only. */
  lemma NearPlaneFaceGoesToSideOne(planeFace: Face, faces: seq<Face>, f: Face)
    requires f in faces
    requires forall k: Index :: Abs(SignedDistance(planeFace, f.V(k))) <= Epsilon / 2.0
    ensures TriangleIntersection(planeFace, f) == NoIntersection
    ensures SideOf(planeFace, f) == 1
    ensures f in Routed(planeFace, faces, 1)
  {
    NearPlaneFaceHasNoHits(planeFace, f);
    TwoVerticesNotAboveGoToSideOne(planeFace, f, 0, 1);
    WholeFaceRouted(planeFace, faces, f);
  }

  // ---------------------------------------------------------------------
  // Reading the faces of the mesh (ModelSubdividerPlugin.py:70-83)
  // ---------------------------------------------------------------------

  /** One row `index_array` of the mesh's index array. */
  datatype IndexTriple = IndexTriple(a: int, b: int, c: int)

  /** A result, or the `IndexError` Python raises on an index out of
      range. */
  datatype Outcome<T> = Ok(value: T) | IndexError

  /** The position Python's `list[k]` reads in a list of length `len`: a
      negative index counts from the end. */
  function PyIndex(len: int, k: int): int {
    if k < 0 then len + k else k
  }

  /** Python's `vertices[k]`: a negative index counts from the end, and an
      index outside `-len .. len-1` is an error. */
  function Lookup(vertices: seq<Vec3>, k: int): (r: Option<Vec3>)
    ensures r.Some? <==> -|vertices| <= k < |vertices|
    ensures r.Some? ==> 0 <= PyIndex(|vertices|, k) < |vertices| && r.value == vertices[PyIndex(|vertices|, k)]
    ensures r.Some? ==> r.value in vertices
  {
    if 0 <= k < |vertices| then Some(vertices[k])
    else if -|vertices| <= k < 0 then Some(vertices[|vertices| + k])
    else None
  }

  /** The face of one index row, if all three indices are in range. */
  function TripleFace(vertices: seq<Vec3>, t: IndexTriple): Option<Face> {
    match (Lookup(vertices, t.a), Lookup(vertices, t.b), Lookup(vertices, t.c))
    case (Some(p), Some(q), Some(r)) => Some(Face(p, q, r))
    case _ => None
  }

  /** The faces of an indexed mesh, one per index row. */
  function IndexedFaces(vertices: seq<Vec3>, triples: seq<IndexTriple>): Outcome<seq<Face>> {
    if forall m | 0 <= m < |triples| :: TripleFace(vertices, triples[m]).Some? then
      Ok(seq(|triples|, m requires 0 <= m < |triples| && TripleFace(vertices, triples[m]).Some? =>
               TripleFace(vertices, triples[m]).value))
    else
      IndexError
  }

  /** The faces of a mesh without indices: each run of three consecutive
      vertices is a face, and a count that is not a multiple of three ends
      in an error. */
  function Triangles(vertices: seq<Vec3>): Outcome<seq<Face>> {
    if |vertices| % 3 == 0 then
      Ok(seq(|vertices| / 3, m requires 0 <= m < |vertices| / 3 =>
               Face(vertices[3 * m], vertices[3 * m + 1], vertices[3 * m + 2])))
    else
      IndexError
  }

  /** The face list `_subdivide` builds: from the index rows when there
      are any, from consecutive vertex triples otherwise. */
  function FacesOf(vertices: seq<Vec3>, indices: Option<seq<IndexTriple>>): Outcome<seq<Face>> {
    if indices.Some? && |indices.value| > 0 then IndexedFaces(vertices, indices.value)
    else Triangles(vertices)
  }

  /** The vertices of a face list, three per face, in order. */
  function Flatten(fs: seq<Face>): (vs: seq<Vec3>)
    ensures |vs| == 3 * |fs|
  {
    if |fs| == 0 then []
    else
      var f := fs[|fs| - 1];
      Flatten(fs[..|fs| - 1]) + [f.v0, f.v1, f.v2]
  }

  lemma {:induction false} FlattenPrefix(fs: seq<Face>, n: nat)
    requires n <= |fs|
    ensures Flatten(fs[..n]) == Flatten(fs)[..3 * n]
  {
    if n < |fs| {
      var last := fs[..|fs| - 1];
      assert last[..n] == fs[..n];
      FlattenPrefix(last, n);
    } else {
      assert fs[..n] == fs;
    }
  }

  /** A mesh without indices reads without error exactly when its vertex
      count is a multiple of three, and its faces, written back out three
      vertices each, give the vertex list again. */
  lemma TrianglesRoundTrip(vertices: seq<Vec3>)
    ensures Triangles(vertices).Ok? <==> |vertices| % 3 == 0
    ensures Triangles(vertices).Ok? ==> |Triangles(vertices).value| == |vertices| / 3
    ensures Triangles(vertices).Ok? ==> Flatten(Triangles(vertices).value) == vertices
  {
    if |vertices| % 3 == 0 {
      var n := |vertices| / 3;
      assert 3 * n == |vertices|;
      FlattenTriangles(vertices, n);
      assert Triangles(vertices).value[..n] == Triangles(vertices).value;
      assert vertices[..3 * n] == vertices;
    }
  }

  /** Writing faces out three vertices each and reading them back gives
      the same faces. */
  lemma FlattenRoundTrip(fs: seq<Face>)
    ensures Triangles(Flatten(fs)) == Ok(fs)
  {
    var flat := Flatten(fs);
    assert |flat| % 3 == 0 && |flat| / 3 == |fs|;
    forall m | 0 <= m < |fs|
      ensures Triangles(flat).value[m] == fs[m]
    {
      FlattenAt(fs, m);
    }
    assert Triangles(flat).Ok? && |Triangles(flat).value| == |fs|;
    assert Triangles(flat).value == fs;
  }

  lemma FlattenAt(fs: seq<Face>, m: nat)
    requires m < |fs|
    ensures var flat := Flatten(fs);
            flat[3 * m] == fs[m].v0 && flat[3 * m + 1] == fs[m].v1 && flat[3 * m + 2] == fs[m].v2
  {
    var flat := Flatten(fs);
    FlattenPrefix(fs, m + 1);
    assert fs[..m + 1] == fs[..m] + [fs[m]];
    assert fs[..m + 1][..m] == fs[..m];
    assert flat[..3 * m + 3] == Flatten(fs[..m]) + [fs[m].v0, fs[m].v1, fs[m].v2];
    assert flat[3 * m] == flat[..3 * m + 3][3 * m];
    assert flat[3 * m + 1] == flat[..3 * m + 3][3 * m + 1];
    assert flat[3 * m + 2] == flat[..3 * m + 3][3 * m + 2];
  }

  lemma {:induction false} FlattenTriangles(vertices: seq<Vec3>, n: nat)
    requires |vertices| % 3 == 0 && n <= |vertices| / 3
    ensures Flatten(Triangles(vertices).value[..n]) == vertices[..3 * n]
  {
    if n > 0 {
      var fs := Triangles(vertices).value;
      FlattenTriangles(vertices, n - 1);
      assert fs[..n][..n - 1] == fs[..n - 1];
      assert vertices[..3 * n] == vertices[..3 * (n - 1)] + [vertices[3 * n - 3], vertices[3 * n - 2], vertices[3 * n - 1]];
    }
  }

  /** An indexed mesh reads without error exactly when every index is in
      range, and then face `m` is made of the vertices its index row names,
      negative indices counting from the end. */
  lemma IndexedFacesOk(vertices: seq<Vec3>, triples: seq<IndexTriple>)
    ensures IndexedFaces(vertices, triples).Ok? <==>
              forall m | 0 <= m < |triples| ::
                && -|vertices| <= triples[m].a < |vertices|
                && -|vertices| <= triples[m].b < |vertices|
                && -|vertices| <= triples[m].c < |vertices|
    ensures IndexedFaces(vertices, triples).Ok? ==>
              var fs := IndexedFaces(vertices, triples).value;
              && |fs| == |triples|
              && (forall m, k: Index | 0 <= m < |fs| :: fs[m].V(k) in vertices)
              && (forall m | 0 <= m < |fs| ::
                    fs[m] == Face(vertices[PyIndex(|vertices|, triples[m].a)],
                                  vertices[PyIndex(|vertices|, triples[m].b)],
                                  vertices[PyIndex(|vertices|, triples[m].c)]))
  {
  }

  /** The face-reading loops of `_subdivide`. */
  method ExtractFaces(vertices: seq<Vec3>, indices: Option<seq<IndexTriple>>) returns (r: Outcome<seq<Face>>)
    ensures r == FacesOf(vertices, indices)
  {
    var faces: seq<Face> := [];
    if indices.Some? && |indices.value| > 0 {
      var triples := indices.value;
      for m := 0 to |triples|
        invariant forall j | 0 <= j < m :: TripleFace(vertices, triples[j]).Some?
        invariant |faces| == m && forall j | 0 <= j < m :: faces[j] == TripleFace(vertices, triples[j]).value
      {
        var t := triples[m];
        var p := Lookup(vertices, t.a);
        var q := Lookup(vertices, t.b);
        var o := Lookup(vertices, t.c);
        if p.None? || q.None? || o.None? {
          return IndexError;
        }
        faces := faces + [Face(p.value, q.value, o.value)];
      }
      assert faces == IndexedFaces(vertices, triples).value;
    } else {
      var i := 0;
      while i < |vertices|
        invariant i == 3 * |faces| && i <= |vertices|
        invariant forall j | 0 <= j < |faces| :: faces[j] == Face(vertices[3 * j], vertices[3 * j + 1], vertices[3 * j + 2])
      {
        if i + 2 >= |vertices| {
          assert |vertices| == 3 * |faces| + (|vertices| - i);
          return IndexError;
        }
        faces := faces + [Face(vertices[i], vertices[i + 1], vertices[i + 2])];
        i := i + 3;
      }
      assert |vertices| == 3 * |faces|;
      assert faces == Triangles(vertices).value;
    }
    r := Ok(faces);
  }

  // ---------------------------------------------------------------------
  // The whole operation (ModelSubdividerPlugin.py:69-109)
  // ---------------------------------------------------------------------

  /** What `_subdivide` yields: the faces of the two new meshes, side 0
      first, or the `IndexError` raised on a plane with fewer than three
      vertices or on a bad face list. */
  ghost function SubdivideResult(planeVertices: seq<Vec3>, vertices: seq<Vec3>, indices: Option<seq<IndexTriple>>)
    : Outcome<(seq<Face>, seq<Face>)>
  {
    if |planeVertices| < 3 then IndexError
    else
      var planeFace := Face(planeVertices[0], planeVertices[1], planeVertices[2]);
      match FacesOf(vertices, indices)
      case IndexError => IndexError
      case Ok(faces) => Ok((Routed(planeFace, faces, 0), Routed(planeFace, faces, 1)))
  }

  /** `_subdivide`: the plane's triangle is its first three vertices; the
      mesh's faces are read and routed into two builders. */
  method Subdivide(planeVertices: seq<Vec3>, vertices: seq<Vec3>, indices: Option<seq<IndexTriple>>)
    returns (r: Outcome<(seq<Face>, seq<Face>)>)
    ensures r == SubdivideResult(planeVertices, vertices, indices)
    ensures r.IndexError? <==> |planeVertices| < 3 || FacesOf(vertices, indices).IndexError?
  {
    if |planeVertices| < 3 {
      return IndexError;
    }
    var planeFace := Face(planeVertices[0], planeVertices[1], planeVertices[2]);
    var faces := ExtractFaces(vertices, indices);
    if faces.IndexError? {
      return IndexError;
    }
    var builders := Route(planeFace, faces.value);
    r := Ok((builders[0], builders[1]));
  }
}
