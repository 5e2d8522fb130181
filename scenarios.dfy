/** Small meshes worked through the whole analysis: a quadrilateral split
    along a diagonal (the unit square and a dart are instances), and the same
    triangle listed twice. Vertex indices are kept symbolic and ordered. */
module Scenarios {
  import opened Options
  import opened Geometry
  import opened EdgeAdjacency
  import opened QuadExtraction
  import opened MeshAnalysis

  // ---------------------------------------------------------------------
  // Unfolding helpers

  lemma AddEdgesThree(t: EdgeTable, ks: seq<Edge>, f: int)
    requires |ks| == 3
    ensures AddEdges(t, ks, f) == AddEdge(AddEdge(AddEdge(t, ks[0], f), ks[1], f), ks[2], f)
  {
    var k2, k1 := ks[..2], ks[..2][..1];
    assert k1[..0] == [];
    assert AddEdges(t, k1, f) == AddEdge(t, ks[0], f);
    assert AddEdges(t, k2, f) == AddEdge(AddEdges(t, k1, f), ks[1], f);
  }

  /** The table of a mesh of two faces: the keys of the first face, then
      those of the second. */
  lemma TableOfPair(f0: Face, f1: Face)
    ensures TableOf([f0, f1]) == AddEdges(AddEdges(Empty, FaceKeys(f0), 0), FaceKeys(f1), 1)
  {
    assert [f0, f1][..1] == [f0];
    assert [f0][..0] == [];
    assert TableOf([f0]) == AddEdges(Empty, FaceKeys(f0), 0);
  }

  lemma InternalEdgesAppend(order: seq<Edge>, m: map<Edge, seq<int>>, e: Edge)
    ensures InternalEdges(order + [e], m) ==
              InternalEdges(order, m) + if e in m && |m[e]| == 2 then [e] else []
  {
    assert (order + [e])[..|order|] == order;
  }

  /** The turns and the signed sum of a quadrilateral, written out. */
  lemma QuadTerms(q: seq<Point>)
    requires |q| == 4
    ensures Turn(q, 0) == Cross(q[0], q[1], q[2]) && Turn(q, 1) == Cross(q[1], q[2], q[3])
    ensures Turn(q, 2) == Cross(q[2], q[3], q[0]) && Turn(q, 3) == Cross(q[3], q[0], q[1])
    ensures SignedSum(q) == (q[0].x * q[1].y - q[1].x * q[0].y) + (q[1].x * q[2].y - q[2].x * q[1].y)
                          + (q[2].x * q[3].y - q[3].x * q[2].y) + (q[3].x * q[0].y - q[0].x * q[3].y)
  {
  }

  // ---------------------------------------------------------------------
  // A quadrilateral a, b, c, d split along its diagonal (a, c)

  function SplitFaces(a: int, b: int, c: int, d: int): seq<Face>
  {
    [Face(a, b, c), Face(a, c, d)]
  }

  /** After the first triangle every one of its three keys lists face 0. */
  lemma FirstTriangleTable(a: int, b: int, c: int)
    requires a < b < c
    ensures AddEdges(Empty, FaceKeys(Face(a, b, c)), 0) ==
              EdgeTable([(a, b), (b, c), (a, c)], map[(a, b) := [0], (b, c) := [0], (a, c) := [0]])
  {
    AddEdgesThree(Empty, FaceKeys(Face(a, b, c)), 0);
  }

  /** The second triangle appends face 1 under the shared key (a, c) and
      creates the keys (c, d) and (a, d) at the end of the order. */
  lemma SecondTriangleTable(a: int, b: int, c: int, d: int)
    requires a < b < c < d
    ensures AddEdges(EdgeTable([(a, b), (b, c), (a, c)], map[(a, b) := [0], (b, c) := [0], (a, c) := [0]]),
                     FaceKeys(Face(a, c, d)), 1) ==
              EdgeTable([(a, b), (b, c), (a, c), (c, d), (a, d)],
                        map[(a, b) := [0], (b, c) := [0], (a, c) := [0, 1], (c, d) := [1], (a, d) := [1]])
  {
    var t := EdgeTable([(a, b), (b, c), (a, c)], map[(a, b) := [0], (b, c) := [0], (a, c) := [0]]);
    AddEdgesThree(t, FaceKeys(Face(a, c, d)), 1);
    assert [0] + [1] == [0, 1];
    var t1 := AddEdge(t, (a, c), 1);
    assert t1 == EdgeTable([(a, b), (b, c), (a, c)], map[(a, b) := [0], (b, c) := [0], (a, c) := [0, 1]]);
  }

  /** The edge map of the split quadrilateral: five keys in insertion order,
      the diagonal listing both faces and every outer edge one. */
  lemma SplitTable(a: int, b: int, c: int, d: int)
    requires a < b < c < d
    ensures TableOf(SplitFaces(a, b, c, d)) ==
              EdgeTable([(a, b), (b, c), (a, c), (c, d), (a, d)],
                        map[(a, b) := [0], (b, c) := [0], (a, c) := [0, 1], (c, d) := [1], (a, d) := [1]])
  {
    TableOfPair(Face(a, b, c), Face(a, c, d));
    FirstTriangleTable(a, b, c);
    SecondTriangleTable(a, b, c, d);
  }

  /** The diagonal is the only key listing two faces. */
  lemma SplitSelection(a: int, b: int, c: int, d: int, m: map<Edge, seq<int>>)
    requires a < b < c < d
    requires m == map[(a, b) := [0], (b, c) := [0], (a, c) := [0, 1], (c, d) := [1], (a, d) := [1]]
    ensures InternalEdges([(a, b), (b, c), (a, c), (c, d), (a, d)], m) == [(a, c)]
  {
    assert |m[(a, b)]| == 1 && |m[(b, c)]| == 1 && |m[(a, c)]| == 2 && |m[(c, d)]| == 1 && |m[(a, d)]| == 1;
    var p1 := [(a, b)];
    var p2 := p1 + [(b, c)];
    var p3 := p2 + [(a, c)];
    var p4 := p3 + [(c, d)];
    var p5 := p4 + [(a, d)];
    InternalEdgesAppend([], m, (a, b));
    assert [] + [(a, b)] == p1;
    assert InternalEdges(p1, m) == [];
    InternalEdgesAppend(p1, m, (b, c));
    assert InternalEdges(p2, m) == [];
    InternalEdgesAppend(p2, m, (a, c));
    assert InternalEdges(p3, m) == [(a, c)];
    InternalEdgesAppend(p3, m, (c, d));
    assert InternalEdges(p4, m) == [(a, c)];
    InternalEdgesAppend(p4, m, (a, d));
    assert p5 == [(a, b), (b, c), (a, c), (c, d), (a, d)];
  }

  /** The diagonal is the only internal edge. */
  lemma SplitInternalEdges(a: int, b: int, c: int, d: int)
    requires a < b < c < d
    ensures var t := TableOf(SplitFaces(a, b, c, d));
            InternalEdges(t.order, t.faces) == [(a, c)]
  {
    SplitTable(a, b, c, d);
    SplitSelection(a, b, c, d, TableOf(SplitFaces(a, b, c, d)).faces);
  }

  /** Two faces whose vertices are exactly the four values of an increasing
      sequence merge into the points at those indices. */
  lemma CandidateFromUnion(vertices: seq<Point>, f0: Face, f1: Face, s: seq<int>)
    requires InRange(f0, |vertices|) && InRange(f1, |vertices|)
    requires |s| == 4 && Increasing(s)
    requires forall v :: v in s <==> v in VertexSet(f0) + VertexSet(f1)
    ensures forall i :: 0 <= i < |s| ==> 0 <= s[i] < |vertices|
    ensures Candidate(vertices, f0, f1) == Some([vertices[s[0]], vertices[s[1]], vertices[s[2]], vertices[s[3]]])
  {
    var u := SortedUnion(f0, f1);
    IncreasingUnique(u, s);
    assert |VertexSet(f0) + VertexSet(f1)| == 4;
    var r := Candidate(vertices, f0, f1);
    assert r.Some? && r.value == Lookup(vertices, s);
    var q := Lookup(vertices, s);
    FourPoints(q);
  }

  /** The candidates of a single edge whose faces merge into q. */
  lemma SingleCandidate(vertices: seq<Point>, faces: seq<Face>, t: EdgeTable, e: Edge, q: seq<Point>)
    requires FacesInRange(faces, |vertices|) && Selectable(faces, t, e)
    requires CandidateOf(vertices, faces, t, e) == Some(q)
    ensures Candidates(vertices, faces, t, [e]) == [q]
  {
    assert [e][..0] == [];
  }

  /** Merging the two triangles gives the one candidate a, b, c, d. */
  lemma SplitCandidates(vertices: seq<Point>, a: int, b: int, c: int, d: int)
    requires 0 <= a < b < c < d < |vertices|
    ensures FacesInRange(SplitFaces(a, b, c, d), |vertices|)
    ensures MeshCandidates(vertices, SplitFaces(a, b, c, d)) ==
              [[vertices[a], vertices[b], vertices[c], vertices[d]]]
  {
    var faces := SplitFaces(a, b, c, d);
    assert InRange(faces[0], |vertices|) && InRange(faces[1], |vertices|);
    assert FacesInRange(faces, |vertices|);
    SplitTable(a, b, c, d);
    SplitInternalEdges(a, b, c, d);
    var t := TableOf(faces);
    assert t.faces[(a, c)] == [0, 1];
    assert Selectable(faces, t, (a, c));
    var s := [a, b, c, d];
    assert VertexSet(faces[0]) + VertexSet(faces[1]) == {a, b, c, d};
    CandidateFromUnion(vertices, faces[0], faces[1], s);
    var q := [vertices[a], vertices[b], vertices[c], vertices[d]];
    SingleCandidate(vertices, faces, t, (a, c), q);
  }

  /** Folding a single candidate. */
  lemma FoldSingle(q: seq<Point>)
    requires |q| == 4
    ensures Quads([q]) && Fold([q]) == Step(Initial, q)
  {
    assert [q][..0] == [];
  }

  /** From the initial extrema, a convex candidate sets the maximum to its
      area and a non-convex one sets the minimum to its area. */
  lemma StepFromInitial(q: seq<Point>)
    requires |q| == 4
    ensures Convex(q) ==> Step(Initial, q) == Extrema(Area(q), None)
    ensures !Convex(q) ==> Step(Initial, q) == Extrema(0.0, Some(Area(q)))
  {
    AreaPositive(q);
  }

  /** The analysis of the split quadrilateral is one step of the fold. */
  lemma SplitAnalysis(vertices: seq<Point>, a: int, b: int, c: int, d: int)
    requires 0 <= a < b < c < d < |vertices|
    ensures FacesInRange(SplitFaces(a, b, c, d), |vertices|)
    ensures Analysis(vertices, SplitFaces(a, b, c, d)) ==
              Step(Initial, [vertices[a], vertices[b], vertices[c], vertices[d]])
  {
    SplitCandidates(vertices, a, b, c, d);
    FoldSingle([vertices[a], vertices[b], vertices[c], vertices[d]]);
  }

  lemma FourPoints(q: seq<Point>)
    requires |q| == 4
    ensures [q[0], q[1], q[2], q[3]] == q
  {
  }

  /** The unit square, counter-clockwise: every turn is to the left and
      the enclosed area is 1. */
  lemma UnitSquare(q: seq<Point>)
    requires |q| == 4
    requires q[0] == Point(0.0, 0.0) && q[1] == Point(1.0, 0.0)
    requires q[2] == Point(1.0, 1.0) && q[3] == Point(0.0, 1.0)
    ensures Convex(q) && Area(q) == 1.0
  {
    QuadTerms(q);
  }

  /** A dart: the vertex (0.25, 0.25) lies inside the triangle of the other
      three, so the quadrilateral turns both ways; it encloses 0.25. */
  lemma Dart(q: seq<Point>)
    requires |q| == 4
    requires q[0] == Point(0.0, 0.0) && q[1] == Point(1.0, 0.0)
    requires q[2] == Point(0.25, 0.25) && q[3] == Point(0.0, 1.0)
    ensures !Convex(q) && Area(q) == 0.25
  {
    QuadTerms(q);
    assert Turn(q, 0) > 0.0 && Turn(q, 1) < 0.0;
  }

  /** The unit square split along its diagonal: the convex quadrilateral of
      area 1 is the largest convex one, and no non-convex one is found. */
  lemma UnitSquareScenario(vertices: seq<Point>)
    requires |vertices| == 4
    requires vertices[0] == Point(0.0, 0.0) && vertices[1] == Point(1.0, 0.0)
    requires vertices[2] == Point(1.0, 1.0) && vertices[3] == Point(0.0, 1.0)
    ensures FacesInRange(SplitFaces(0, 1, 2, 3), |vertices|)
    ensures Analysis(vertices, SplitFaces(0, 1, 2, 3)) == Extrema(1.0, None)
  {
    FourPoints(vertices);
    SplitAnalysis(vertices, 0, 1, 2, 3);
    UnitSquare(vertices);
    StepFromInitial(vertices);
  }

  /** The dart split along its diagonal: the largest convex area stays 0 and
      the dart's area 0.25 becomes the smallest non-convex area. */
  lemma DartScenario(vertices: seq<Point>)
    requires |vertices| == 4
    requires vertices[0] == Point(0.0, 0.0) && vertices[1] == Point(1.0, 0.0)
    requires vertices[2] == Point(0.25, 0.25) && vertices[3] == Point(0.0, 1.0)
    ensures FacesInRange(SplitFaces(0, 1, 2, 3), |vertices|)
    ensures Analysis(vertices, SplitFaces(0, 1, 2, 3)) == Extrema(0.0, Some(0.25))
  {
    FourPoints(vertices);
    SplitAnalysis(vertices, 0, 1, 2, 3);
    Dart(vertices);
    StepFromInitial(vertices);
  }

  // ---------------------------------------------------------------------
  // The same triangle listed twice

  /** Listing the triangle a second time appends face 1 under each of its
      keys and creates no new key. */
  lemma RepeatedTriangleSecond(a: int, b: int, c: int)
    requires a < b < c
    ensures AddEdges(EdgeTable([(a, b), (b, c), (a, c)], map[(a, b) := [0], (b, c) := [0], (a, c) := [0]]),
                     FaceKeys(Face(a, b, c)), 1) ==
              EdgeTable([(a, b), (b, c), (a, c)], map[(a, b) := [0, 1], (b, c) := [0, 1], (a, c) := [0, 1]])
  {
    var t := EdgeTable([(a, b), (b, c), (a, c)], map[(a, b) := [0], (b, c) := [0], (a, c) := [0]]);
    AddEdgesThree(t, FaceKeys(Face(a, b, c)), 1);
    assert [0] + [1] == [0, 1];
    var t1 := AddEdge(t, (a, b), 1);
    assert t1 == EdgeTable([(a, b), (b, c), (a, c)], map[(a, b) := [0, 1], (b, c) := [0], (a, c) := [0]]);
    var t2 := AddEdge(t1, (b, c), 1);
    assert t2 == EdgeTable([(a, b), (b, c), (a, c)], map[(a, b) := [0, 1], (b, c) := [0, 1], (a, c) := [0]]);
  }

  /** Every key of the repeated triangle lists both faces. */
  lemma RepeatedTriangleTable(a: int, b: int, c: int)
    requires a < b < c
    ensures TableOf([Face(a, b, c), Face(a, b, c)]) ==
              EdgeTable([(a, b), (b, c), (a, c)], map[(a, b) := [0, 1], (b, c) := [0, 1], (a, c) := [0, 1]])
  {
    TableOfPair(Face(a, b, c), Face(a, b, c));
    FirstTriangleTable(a, b, c);
    RepeatedTriangleSecond(a, b, c);
  }

  lemma RepeatedSelection(a: int, b: int, c: int, m: map<Edge, seq<int>>)
    requires a < b < c
    requires m == map[(a, b) := [0, 1], (b, c) := [0, 1], (a, c) := [0, 1]]
    ensures InternalEdges([(a, b), (b, c), (a, c)], m) == [(a, b), (b, c), (a, c)]
  {
    assert |m[(a, b)]| == 2 && |m[(b, c)]| == 2 && |m[(a, c)]| == 2;
    var p1 := [(a, b)];
    var p2 := p1 + [(b, c)];
    var p3 := p2 + [(a, c)];
    InternalEdgesAppend([], m, (a, b));
    assert [] + [(a, b)] == p1;
    assert InternalEdges(p1, m) == p1;
    InternalEdgesAppend(p1, m, (b, c));
    assert InternalEdges(p2, m) == p2;
    InternalEdgesAppend(p2, m, (a, c));
    assert p3 == [(a, b), (b, c), (a, c)];
  }

  /** All three keys of the repeated triangle are internal edges. */
  lemma RepeatedTriangleInternalEdges(a: int, b: int, c: int)
    requires a < b < c
    ensures var t := TableOf([Face(a, b, c), Face(a, b, c)]);
            InternalEdges(t.order, t.faces) == t.order
  {
    RepeatedTriangleTable(a, b, c);
    RepeatedSelection(a, b, c, TableOf([Face(a, b, c), Face(a, b, c)]).faces);
  }

  /** A face merged with itself has at most three vertices, so it never
      gives a candidate. */
  lemma SelfMergeSkipped(vertices: seq<Point>, f: Face)
    requires InRange(f, |vertices|)
    ensures Candidate(vertices, f, f).None?
  {
    var u := VertexSet(f) + VertexSet(f);
    assert u == {f.v1} + {f.v2} + {f.v3};
    assert |u| <= 3;
  }

  /** Edges none of whose face pairs merge into four vertices contribute
      no candidate. */
  lemma {:induction false} NoCandidates(vertices: seq<Point>, faces: seq<Face>, t: EdgeTable, es: seq<Edge>)
    requires FacesInRange(faces, |vertices|)
    requires forall i :: 0 <= i < |es| ==> Selectable(faces, t, es[i])
    requires forall i :: 0 <= i < |es| ==> CandidateOf(vertices, faces, t, es[i]).None?
    ensures Candidates(vertices, faces, t, es) == []
    decreases |es|
  {
    if es != [] {
      var n := |es| - 1;
      var front := es[..n];
      assert forall i :: 0 <= i < |front| ==> front[i] == es[i];
      NoCandidates(vertices, faces, t, front);
    }
  }

  /** Edges that all list faces 0 and 1 of a mesh whose two faces are the
      same triangle: every one is selectable and none gives a candidate. */
  lemma SamePairSkipped(vertices: seq<Point>, f: Face, t: EdgeTable, es: seq<Edge>)
    requires InRange(f, |vertices|)
    requires forall e :: e in t.faces ==> t.faces[e] == [0, 1]
    requires forall i :: 0 <= i < |es| ==> es[i] in t.faces
    ensures FacesInRange([f, f], |vertices|)
    ensures forall i :: 0 <= i < |es| ==>
              Selectable([f, f], t, es[i]) && CandidateOf(vertices, [f, f], t, es[i]).None?
  {
    var faces := [f, f];
    assert FacesInRange(faces, |vertices|);
    SelfMergeSkipped(vertices, f);
    forall i | 0 <= i < |es|
      ensures Selectable(faces, t, es[i]) && CandidateOf(vertices, faces, t, es[i]).None?
    {
      var l := t.faces[es[i]];
      assert l == [0, 1];
      assert faces[l[0]] == f && faces[l[1]] == f;
    }
  }

  /** None of the three shared edges of the repeated triangle gives a
      candidate. */
  lemma RepeatedTriangleSkipped(vertices: seq<Point>, f: Face, t: EdgeTable)
    requires 0 <= f.v1 < f.v2 < f.v3 < |vertices|
    requires t == EdgeTable([(f.v1, f.v2), (f.v2, f.v3), (f.v1, f.v3)],
                            map[(f.v1, f.v2) := [0, 1], (f.v2, f.v3) := [0, 1], (f.v1, f.v3) := [0, 1]])
    ensures FacesInRange([f, f], |vertices|)
    ensures forall i :: 0 <= i < |t.order| ==> Selectable([f, f], t, t.order[i])
    ensures Candidates(vertices, [f, f], t, t.order) == []
  {
    assert InRange(f, |vertices|);
    assert forall e :: e in t.faces ==> t.faces[e] == [0, 1];
    assert forall i :: 0 <= i < |t.order| ==> t.order[i] in t.faces;
    SamePairSkipped(vertices, f, t, t.order);
    NoCandidates(vertices, [f, f], t, t.order);
  }

  /** All three edges are internal, but each merge has only three distinct
      vertices, so every candidate is skipped. */
  lemma RepeatedTriangleCandidates(vertices: seq<Point>, a: int, b: int, c: int)
    requires 0 <= a < b < c < |vertices|
    ensures FacesInRange([Face(a, b, c), Face(a, b, c)], |vertices|)
    ensures MeshCandidates(vertices, [Face(a, b, c), Face(a, b, c)]) == []
  {
    RepeatedTriangleTable(a, b, c);
    RepeatedTriangleInternalEdges(a, b, c);
    RepeatedTriangleSkipped(vertices, Face(a, b, c), TableOf([Face(a, b, c), Face(a, b, c)]));
  }

  /** The same triangle listed twice: both extrema keep their initial
      values. */
  lemma RepeatedTriangleScenario(vertices: seq<Point>, a: int, b: int, c: int)
    requires 0 <= a < b < c < |vertices|
    ensures FacesInRange([Face(a, b, c), Face(a, b, c)], |vertices|)
    ensures Analysis(vertices, [Face(a, b, c), Face(a, b, c)]) == Initial
  {
    RepeatedTriangleCandidates(vertices, a, b, c);
  }

  // ---------------------------------------------------------------------
  // Three triangles on one edge

  /** A triangle a, b, x with a < b and x different from both has the edge
      (a, b) exactly once. */
  lemma EdgeOnce(a: int, b: int, x: int)
    requires a < b && x != a && x != b
    ensures Occurrences(Face(a, b, x), (a, b)) == 1
  {
    var ks := FaceKeys(Face(a, b, x));
    var k1 := ks[..2][..1];
    assert ks[0] == (a, b) && ks[1] != (a, b) && ks[2] != (a, b);
    assert k1 == [ks[0]] && k1[..0] == [];
    assert Count(k1, (a, b)) == 1;
    assert Count(ks[..2], (a, b)) == 1;
  }

  /** A non-manifold fan of three triangles on the edge (a, b): that edge
      is never selected, whatever the other edges are. */
  lemma FanEdgeNotInternal(a: int, b: int, c: int, d: int, e: int)
    requires a < b && c != a && c != b && d != a && d != b && e != a && e != b
    ensures var t := TableOf([Face(a, b, c), Face(a, b, d), Face(a, b, e)]);
            (a, b) in t.faces && |t.faces[(a, b)]| == 3
            && (a, b) !in InternalEdges(t.order, t.faces)
  {
    var faces := [Face(a, b, c), Face(a, b, d), Face(a, b, e)];
    EdgeOnce(a, b, c);
    EdgeOnce(a, b, d);
    EdgeOnce(a, b, e);
    var f2, f1 := faces[..2], faces[..2][..1];
    assert f2 == [Face(a, b, c), Face(a, b, d)];
    assert f1 == [Face(a, b, c)] && f1[..0] == [];
    assert IncidenceCount(f1, (a, b)) == 1;
    assert IncidenceCount(f2, (a, b)) == 2;
    assert IncidenceCount(faces, (a, b)) == 3;
    FaceListedUnderItsEdges(faces, 0, 0);
    ListsInFaceOrder(faces, (a, b));
    InternalExactlyWhenSharedByTwo(faces, (a, b));
  }
}
