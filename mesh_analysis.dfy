/** The analysis pass (main.py:52-92): build the edge dictionary, select the
    internal edges, and fold every valid candidate quadrilateral into the
    largest convex area and the smallest non-convex area. */
module MeshAnalysis {
  import opened Options
  import opened Geometry
  import opened EdgeAdjacency
  import opened QuadExtraction

  /** The two running extrema.  `minNonConvexArea == None` stands for the
      initial infinity. */
  datatype Extrema = Extrema(maxConvexArea: real, minNonConvexArea: Option<real>)

  const Initial := Extrema(0.0, None)

  /** One candidate folded in: a convex one may raise the maximum, a
      non-convex one may lower the minimum. */
  function Step(acc: Extrema, q: seq<Point>): (r: Extrema)
    requires |q| == 4
    ensures Convex(q) ==> r.minNonConvexArea == acc.minNonConvexArea
    ensures Convex(q) ==> r.maxConvexArea >= acc.maxConvexArea && r.maxConvexArea >= Area(q)
    ensures Convex(q) ==> r.maxConvexArea == acc.maxConvexArea || r.maxConvexArea == Area(q)
    ensures !Convex(q) ==> r.maxConvexArea == acc.maxConvexArea
    ensures !Convex(q) ==> r.minNonConvexArea.Some? && r.minNonConvexArea.value <= Area(q)
    ensures !Convex(q) ==> NoLarger(r.minNonConvexArea, acc.minNonConvexArea)
    ensures !Convex(q) ==> r.minNonConvexArea == acc.minNonConvexArea || r.minNonConvexArea == Some(Area(q))
  {
    var convex := Convex(q);
    var area := Area(q);
    Extrema(
      if convex && area > acc.maxConvexArea then area else acc.maxConvexArea,
      if !convex && (acc.minNonConvexArea.None? || area < acc.minNonConvexArea.value)
      then Some(area) else acc.minNonConvexArea)
  }

  predicate Quads(qs: seq<seq<Point>>)
  {
    forall i :: 0 <= i < |qs| ==> |qs[i]| == 4
  }

  /** The extrema after folding the candidates in order. */
  function Fold(qs: seq<seq<Point>>): Extrema
    requires Quads(qs)
    decreases |qs|
  {
    if qs == [] then Initial else Step(Fold(qs[..|qs| - 1]), qs[|qs| - 1])
  }

  /** `b` is no larger than `a`, reading `None` as infinity. */
  predicate NoLarger(b: Option<real>, a: Option<real>)
  {
    a.None? || (b.Some? && b.value <= a.value)
  }

  // ---------------------------------------------------------------------
  // The candidate stream

  /** An edge whose face list has two entries, both indexing a face. */
  predicate Selectable(faces: seq<Face>, t: EdgeTable, e: Edge)
  {
    e in t.faces && |t.faces[e]| == 2 &&
    0 <= t.faces[e][0] < |faces| && 0 <= t.faces[e][1] < |faces|
  }

  /** The candidate of one selected edge, from the two faces listed for it. */
  function CandidateOf(vertices: seq<Point>, faces: seq<Face>, t: EdgeTable, e: Edge): Option<seq<Point>>
    requires FacesInRange(faces, |vertices|) && Selectable(faces, t, e)
  {
    Candidate(vertices, faces[t.faces[e][0]], faces[t.faces[e][1]])
  }

  /** The valid candidates of the given edges, in edge order; an edge whose
      faces do not merge into four vertices contributes nothing. */
  function Candidates(vertices: seq<Point>, faces: seq<Face>, t: EdgeTable, es: seq<Edge>): (qs: seq<seq<Point>>)
    requires FacesInRange(faces, |vertices|)
    requires forall i :: 0 <= i < |es| ==> Selectable(faces, t, es[i])
    ensures Quads(qs) && |qs| <= |es|
    decreases |es|
  {
    if es == [] then []
    else
      var front := es[..|es| - 1];
      PrefixSelectable(faces, t, es, |es| - 1);
      var rest := Candidates(vertices, faces, t, front);
      var e := es[|es| - 1];
      var a, b := faces[t.faces[e][0]], faces[t.faces[e][1]];
      match Candidate(vertices, a, b)
      case Some(q) => QuadsAppend(rest, q); rest + [q]
      case None => rest
  }

  lemma PrefixSelectable(faces: seq<Face>, t: EdgeTable, es: seq<Edge>, n: int)
    requires forall i :: 0 <= i < |es| ==> Selectable(faces, t, es[i])
    requires 0 <= n <= |es|
    ensures forall i :: 0 <= i < |es[..n]| ==> Selectable(faces, t, es[..n][i])
  {
    assert forall i :: 0 <= i < n ==> es[..n][i] == es[i];
  }

  lemma QuadsAppend(qs: seq<seq<Point>>, q: seq<Point>)
    requires Quads(qs) && |q| == 4
    ensures Quads(qs + [q])
  {
    assert forall i :: 0 <= i < |qs| ==> (qs + [q])[i] == qs[i];
  }

  /** Every internal edge of the scanned mesh lists two faces of the mesh. */
  lemma InternalEdgesSelectable(faces: seq<Face>, t: EdgeTable, es: seq<Edge>)
    requires t == TableOf(faces) && es == InternalEdges(t.order, t.faces)
    ensures forall i :: 0 <= i < |es| ==> Selectable(faces, t, es[i])
  {
    forall i | 0 <= i < |es| ensures Selectable(faces, t, es[i]) {
      var e := es[i];
      assert e in es;
      ListedFacesUseTheEdge(faces, e, t.faces[e][0]);
      ListedFacesUseTheEdge(faces, e, t.faces[e][1]);
    }
  }

  /** All valid candidates of the mesh, in the order the internal edges were
      first met. */
  function MeshCandidates(vertices: seq<Point>, faces: seq<Face>): (qs: seq<seq<Point>>)
    requires FacesInRange(faces, |vertices|)
    ensures Quads(qs)
  {
    var t := TableOf(faces);
    var es := InternalEdges(t.order, t.faces);
    InternalEdgesSelectable(faces, t, es);
    Candidates(vertices, faces, t, es)
  }

  /** The result of the analysis as a function of the mesh. */
  function Analysis(vertices: seq<Point>, faces: seq<Face>): Extrema
    requires FacesInRange(faces, |vertices|)
  {
    Fold(MeshCandidates(vertices, faces))
  }

  // ---------------------------------------------------------------------
  // The analysis loop

  method Analyze(vertices: seq<Point>, faces: seq<Face>) returns (maxConvexArea: real, minNonConvexArea: Option<real>)
    requires FacesInRange(faces, |vertices|)
    ensures Extrema(maxConvexArea, minNonConvexArea) == Analysis(vertices, faces)
    ensures var qs := MeshCandidates(vertices, faces);
            && (forall k :: 0 <= k < |qs| && Convex(qs[k]) ==> Area(qs[k]) <= maxConvexArea)
            && (maxConvexArea == 0.0 <==> forall k :: 0 <= k < |qs| ==> !Convex(qs[k]))
            && (forall k :: 0 <= k < |qs| && !Convex(qs[k]) ==>
                  minNonConvexArea.Some? && minNonConvexArea.value <= Area(qs[k]))
            && (minNonConvexArea.None? <==> forall k :: 0 <= k < |qs| ==> Convex(qs[k]))
  {
    var order, edgeToFaces := BuildEdgeMap(faces);
    ghost var t := EdgeTable(order, edgeToFaces);
    var internalEdges := InternalEdges(order, edgeToFaces);
    InternalEdgesSelectable(faces, t, internalEdges);

    maxConvexArea, minNonConvexArea := 0.0, None;
    for k := 0 to |internalEdges|
      invariant Extrema(maxConvexArea, minNonConvexArea) ==
                Fold(Candidates(vertices, faces, t, internalEdges[..k]))
    {
      CandidatesStep(vertices, faces, t, internalEdges, k);
      var edge := internalEdges[k];
      var face1Idx, face2Idx := edgeToFaces[edge][0], edgeToFaces[edge][1];
      var face1, face2 := faces[face1Idx], faces[face2Idx];
      var verticesIndices := SortedUnion(face1, face2);
      UnionInRange(face1, face2, |vertices|);
      var quadrilateral := Lookup(vertices, verticesIndices);
      if |quadrilateral| != 4 {
        continue;
      }
      var convex := IsConvex(quadrilateral);
      var area := ShoelaceArea(quadrilateral);
      if convex && area > maxConvexArea {
        maxConvexArea := area;
      }
      if !convex && (minNonConvexArea.None? || area < minNonConvexArea.value) {
        minNonConvexArea := Some(area);
      }
    }
    assert internalEdges[..|internalEdges|] == internalEdges;
    AnalysisExtrema(vertices, faces);
  }

  /** What the two results mean for the mesh's candidates. */
  lemma AnalysisExtrema(vertices: seq<Point>, faces: seq<Face>)
    requires FacesInRange(faces, |vertices|)
    ensures var qs, r := MeshCandidates(vertices, faces), Analysis(vertices, faces);
            && (forall k :: 0 <= k < |qs| && Convex(qs[k]) ==> Area(qs[k]) <= r.maxConvexArea)
            && (r.maxConvexArea == 0.0 <==> forall k :: 0 <= k < |qs| ==> !Convex(qs[k]))
            && (forall k :: 0 <= k < |qs| && !Convex(qs[k]) ==>
                  r.minNonConvexArea.Some? && r.minNonConvexArea.value <= Area(qs[k]))
            && (r.minNonConvexArea.None? <==> forall k :: 0 <= k < |qs| ==> Convex(qs[k]))
  {
    FoldMaximum(MeshCandidates(vertices, faces));
    FoldMinimum(MeshCandidates(vertices, faces));
  }

  // ---------------------------------------------------------------------
  // Properties of the fold

  /** Per candidate: the maximum never decreases, the minimum never
      increases, and only the extremum of the candidate's own kind moves. */
  lemma StepMonotone(acc: Extrema, q: seq<Point>)
    requires |q| == 4
    ensures Step(acc, q).maxConvexArea >= acc.maxConvexArea
    ensures NoLarger(Step(acc, q).minNonConvexArea, acc.minNonConvexArea)
    ensures Convex(q) ==> Step(acc, q).minNonConvexArea == acc.minNonConvexArea
    ensures !Convex(q) ==> Step(acc, q).maxConvexArea == acc.maxConvexArea
  {
  }

  /** Across iterations: a later state's maximum is at least and its minimum
      at most that of an earlier state. */
  lemma {:induction false} FoldPrefixMonotone(qs: seq<seq<Point>>, i: int, j: int)
    requires Quads(qs) && 0 <= i <= j <= |qs|
    ensures Fold(qs[..i]).maxConvexArea <= Fold(qs[..j]).maxConvexArea
    ensures NoLarger(Fold(qs[..j]).minNonConvexArea, Fold(qs[..i]).minNonConvexArea)
    decreases j - i
  {
    if i < j {
      FoldPrefixMonotone(qs, i, j - 1);
      assert qs[..j][..j - 1] == qs[..j - 1];
      StepMonotone(Fold(qs[..j - 1]), qs[j - 1]);
    }
  }

  /** At the end the maximum bounds the area of every convex candidate, is
      attained by one of them, and is 0 exactly when there is none. */
  lemma {:induction false} FoldMaximum(qs: seq<seq<Point>>)
    requires Quads(qs)
    ensures forall k :: 0 <= k < |qs| && Convex(qs[k]) ==> Area(qs[k]) <= Fold(qs).maxConvexArea
    ensures Fold(qs).maxConvexArea == 0.0 <==> forall k :: 0 <= k < |qs| ==> !Convex(qs[k])
    ensures Fold(qs).maxConvexArea != 0.0 ==>
              exists k :: 0 <= k < |qs| && Convex(qs[k]) && Area(qs[k]) == Fold(qs).maxConvexArea
    decreases |qs|
  {
    if qs != [] {
      var n := |qs| - 1;
      var pre := qs[..n];
      FoldMaximum(pre);
      AreaPositive(qs[n]);
      assert forall k :: 0 <= k < n ==> pre[k] == qs[k];
      if Fold(qs).maxConvexArea != 0.0 && Fold(qs).maxConvexArea == Fold(pre).maxConvexArea {
        var k :| 0 <= k < n && Convex(pre[k]) && Area(pre[k]) == Fold(pre).maxConvexArea;
        assert qs[k] == pre[k];
      }
      forall k | 0 <= k < |qs| && Convex(qs[k]) ensures Area(qs[k]) > 0.0 {
        AreaPositive(qs[k]);
      }
    }
  }

  /** At the end the minimum is at most the area of every non-convex
      candidate, is attained by one of them, and is still infinity exactly
      when there is none. */
  lemma {:induction false} FoldMinimum(qs: seq<seq<Point>>)
    requires Quads(qs)
    ensures forall k :: 0 <= k < |qs| && !Convex(qs[k]) ==>
              Fold(qs).minNonConvexArea.Some? && Fold(qs).minNonConvexArea.value <= Area(qs[k])
    ensures Fold(qs).minNonConvexArea.None? <==> forall k :: 0 <= k < |qs| ==> Convex(qs[k])
    ensures Fold(qs).minNonConvexArea.Some? ==>
              exists k :: 0 <= k < |qs| && !Convex(qs[k]) && Area(qs[k]) == Fold(qs).minNonConvexArea.value
    decreases |qs|
  {
    if qs != [] {
      var n := |qs| - 1;
      var pre := qs[..n];
      FoldMinimum(pre);
      assert forall k :: 0 <= k < n ==> pre[k] == qs[k];
      if Fold(qs).minNonConvexArea.Some? && Fold(qs).minNonConvexArea == Fold(pre).minNonConvexArea {
        var k :| 0 <= k < n && !Convex(pre[k]) && Area(pre[k]) == Fold(pre).minNonConvexArea.value;
        assert qs[k] == pre[k];
      }
    }
  }

  /** Across iterations of the analysis loop: the k-th edge never lowers the
      maximum, never raises the minimum, and changes at most one of them. */
  lemma IterationMonotone(vertices: seq<Point>, faces: seq<Face>, t: EdgeTable, es: seq<Edge>, k: int)
    requires FacesInRange(faces, |vertices|)
    requires forall i :: 0 <= i < |es| ==> Selectable(faces, t, es[i])
    requires 0 <= k < |es|
    ensures var before := Fold(Candidates(vertices, faces, t, es[..k]));
            var after := Fold(Candidates(vertices, faces, t, es[..k + 1]));
            && before.maxConvexArea <= after.maxConvexArea
            && NoLarger(after.minNonConvexArea, before.minNonConvexArea)
            && (after.maxConvexArea == before.maxConvexArea || after.minNonConvexArea == before.minNonConvexArea)
  {
    var pre := es[..k];
    PrefixSelectable(faces, t, es, k);
    assert es[..k + 1] == pre + [es[k]];
    CandidatesAppend(vertices, faces, t, pre, es[k]);
    var rest := Candidates(vertices, faces, t, pre);
    match CandidateOf(vertices, faces, t, es[k])
    case Some(q) =>
      assert (rest + [q])[..|rest|] == rest;
      StepMonotone(Fold(rest), q);
    case None =>
  }


  /** One iteration of the analysis loop: the candidate of the k-th edge is
      the lookup of its faces' sorted merged vertices, kept when it has four
      points. */
  lemma CandidatesStep(vertices: seq<Point>, faces: seq<Face>, t: EdgeTable, es: seq<Edge>, k: int)
    requires FacesInRange(faces, |vertices|)
    requires forall i :: 0 <= i < |es| ==> Selectable(faces, t, es[i])
    requires 0 <= k < |es|
    ensures Selectable(faces, t, es[k]) &&
            var a, b := faces[t.faces[es[k]][0]], faces[t.faces[es[k]][1]];
            && UnionIndicesInRange(vertices, a, b)
            && var q := Lookup(vertices, SortedUnion(a, b));
               Candidates(vertices, faces, t, es[..k + 1]) ==
                 if |q| == 4 then Candidates(vertices, faces, t, es[..k]) + [q]
                 else Candidates(vertices, faces, t, es[..k])
  {
    var a, b := faces[t.faces[es[k]][0]], faces[t.faces[es[k]][1]];
    UnionInRange(a, b, |vertices|);
    var pre := es[..k];
    PrefixExtend(es, k);
    assert forall i :: 0 <= i < |pre| ==> pre[i] == es[i];
    CandidatesAppend(vertices, faces, t, pre, es[k]);
  }

  lemma PrefixExtend<T>(s: seq<T>, k: int)
    requires 0 <= k < |s|
    ensures s[..k] + [s[k]] == s[..k + 1]
  {
  }

  /** Extending the edge list by one edge appends that edge's candidate, or
      nothing when its two faces do not merge into four vertices. */
  lemma CandidatesAppend(vertices: seq<Point>, faces: seq<Face>, t: EdgeTable, es: seq<Edge>, e: Edge)
    requires FacesInRange(faces, |vertices|)
    requires forall i :: 0 <= i < |es| ==> Selectable(faces, t, es[i])
    requires Selectable(faces, t, e)
    ensures forall i :: 0 <= i < |es + [e]| ==> Selectable(faces, t, (es + [e])[i])
    ensures Candidates(vertices, faces, t, es + [e]) ==
              match CandidateOf(vertices, faces, t, e)
              case Some(q) => Candidates(vertices, faces, t, es) + [q]
              case None => Candidates(vertices, faces, t, es)
  {
    var es' := es + [e];
    assert forall i :: 0 <= i < |es'| ==> Selectable(faces, t, es'[i]) by {
      forall i | 0 <= i < |es'| ensures Selectable(faces, t, es'[i]) {
        if i < |es| {
          assert es'[i] == es[i];
        }
      }
    }
    assert es'[..|es|] == es;
  }

  // ---------------------------------------------------------------------
  // Which quadrilaterals the stream holds

  /** The result of merging the two faces of each edge, in edge order,
      the merges that do not give four vertices included. */
  ghost function Merges(vertices: seq<Point>, faces: seq<Face>, t: EdgeTable, es: seq<Edge>): (cs: seq<Option<seq<Point>>>)
    requires FacesInRange(faces, |vertices|)
    requires forall i :: 0 <= i < |es| ==> Selectable(faces, t, es[i])
    ensures |cs| == |es|
    decreases |es|
  {
    if es == [] then []
    else
      PrefixSelectable(faces, t, es, |es| - 1);
      Merges(vertices, faces, t, es[..|es| - 1]) + [CandidateOf(vertices, faces, t, es[|es| - 1])]
  }

  /** The k-th merge is that of the k-th edge. */
  lemma {:induction false} MergesAt(vertices: seq<Point>, faces: seq<Face>, t: EdgeTable, es: seq<Edge>, k: int)
    requires FacesInRange(faces, |vertices|)
    requires forall i :: 0 <= i < |es| ==> Selectable(faces, t, es[i])
    requires 0 <= k < |es|
    ensures Merges(vertices, faces, t, es)[k] == CandidateOf(vertices, faces, t, es[k])
    decreases |es|
  {
    var n := |es| - 1;
    if k < n {
      PrefixSelectable(faces, t, es, n);
      MergesAt(vertices, faces, t, es[..n], k);
    }
  }

  /** The stream holds exactly the quadrilaterals that some merge gives. */
  lemma {:induction false} CandidatesMembers(vertices: seq<Point>, faces: seq<Face>, t: EdgeTable, es: seq<Edge>)
    requires FacesInRange(faces, |vertices|)
    requires forall i :: 0 <= i < |es| ==> Selectable(faces, t, es[i])
    ensures forall q :: q in Candidates(vertices, faces, t, es) <==> Some(q) in Merges(vertices, faces, t, es)
    decreases |es|
  {
    if es != [] {
      var n := |es| - 1;
      PrefixSelectable(faces, t, es, n);
      CandidatesMembers(vertices, faces, t, es[..n]);
    }
  }

  /** `q` is what merging the two faces of an internal edge of the mesh
      gives: an edge whose list in the scanned dictionary has two faces. */
  ghost predicate FromInternalEdge(vertices: seq<Point>, faces: seq<Face>, q: seq<Point>)
    requires FacesInRange(faces, |vertices|)
  {
    var t := TableOf(faces);
    exists e :: Selectable(faces, t, e) && CandidateOf(vertices, faces, t, e) == Some(q)
  }

  /** Every candidate of the mesh comes from one of its internal edges. */
  lemma MeshCandidateFromInternalEdge(vertices: seq<Point>, faces: seq<Face>, q: seq<Point>)
    requires FacesInRange(faces, |vertices|)
    requires q in MeshCandidates(vertices, faces)
    ensures FromInternalEdge(vertices, faces, q)
  {
    var t := TableOf(faces);
    var es := InternalEdges(t.order, t.faces);
    InternalEdgesSelectable(faces, t, es);
    CandidatesMembers(vertices, faces, t, es);
    var cs := Merges(vertices, faces, t, es);
    var k :| 0 <= k < |cs| && cs[k] == Some(q);
    MergesAt(vertices, faces, t, es, k);
    assert Selectable(faces, t, es[k]);
  }

  /** A merge of four vertices puts its quadrilateral into the stream. */
  lemma MergeInStream(vertices: seq<Point>, faces: seq<Face>, t: EdgeTable, es: seq<Edge>, k: int, q: seq<Point>)
    requires FacesInRange(faces, |vertices|)
    requires forall i :: 0 <= i < |es| ==> Selectable(faces, t, es[i])
    requires 0 <= k < |es| && CandidateOf(vertices, faces, t, es[k]) == Some(q)
    ensures q in Candidates(vertices, faces, t, es)
  {
    MergesAt(vertices, faces, t, es, k);
    CandidatesMembers(vertices, faces, t, es);
  }

  /** Every key of the scanned dictionary with two faces is selected. */
  lemma KeyWithTwoFacesSelected(faces: seq<Face>, e: Edge)
    requires e in TableOf(faces).faces && |TableOf(faces).faces[e]| == 2
    ensures e in InternalEdges(TableOf(faces).order, TableOf(faces).faces)
  {
    TableValid(faces);
  }

  /** What merging the faces of any internal edge of the mesh gives is among
      its candidates when it has four points. */
  lemma InternalEdgeInMeshCandidates(vertices: seq<Point>, faces: seq<Face>, q: seq<Point>)
    requires FacesInRange(faces, |vertices|)
    requires FromInternalEdge(vertices, faces, q)
    ensures q in MeshCandidates(vertices, faces)
  {
    var t := TableOf(faces);
    var es := InternalEdges(t.order, t.faces);
    InternalEdgesSelectable(faces, t, es);
    var e :| Selectable(faces, t, e) && CandidateOf(vertices, faces, t, e) == Some(q);
    KeyWithTwoFacesSelected(faces, e);
    var k :| 0 <= k < |es| && es[k] == e;
    MergeInStream(vertices, faces, t, es, k, q);
  }

  /** The mesh's candidates are exactly what merging the faces of its
      internal edges gives, where that has four points. */
  lemma MeshCandidatesMembers(vertices: seq<Point>, faces: seq<Face>)
    requires FacesInRange(faces, |vertices|)
    ensures forall q :: q in MeshCandidates(vertices, faces) <==> FromInternalEdge(vertices, faces, q)
  {
    forall q ensures q in MeshCandidates(vertices, faces) <==> FromInternalEdge(vertices, faces, q) {
      if q in MeshCandidates(vertices, faces) {
        MeshCandidateFromInternalEdge(vertices, faces, q);
      }
      if FromInternalEdge(vertices, faces, q) {
        InternalEdgeInMeshCandidates(vertices, faces, q);
      }
    }
  }
}
