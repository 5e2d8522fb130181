/** The quadrilateral extractor (main.py:64, 71-81): the edges used by
    exactly two faces are selected, and each yields the points of the two
    faces' merged vertex set in ascending index order, kept only when that
    set has exactly four vertices. */
module QuadExtraction {
  import opened Options
  import opened Geometry
  import opened EdgeAdjacency

  /** The keys, in dictionary order, whose face list has exactly two
      entries: a key is kept exactly when its list has length two. */
  function InternalEdges(order: seq<Edge>, edgeToFaces: map<Edge, seq<int>>): (r: seq<Edge>)
    ensures forall e :: e in r <==> e in order && e in edgeToFaces && |edgeToFaces[e]| == 2
    ensures |r| <= |order|
    decreases |order|
  {
    if order == [] then []
    else
      var e := order[|order| - 1];
      var rest := InternalEdges(order[..|order| - 1], edgeToFaces);
      assert order == order[..|order| - 1] + [e];
      if e in edgeToFaces && |edgeToFaces[e]| == 2 then rest + [e] else rest
  }

  /** The kept keys stay in dictionary order, and none is kept twice when
      the dictionary lists each key once. */
  lemma {:induction false} InternalEdgesInOrder(order: seq<Edge>, edgeToFaces: map<Edge, seq<int>>)
    ensures Subsequence(InternalEdges(order, edgeToFaces), order)
    ensures NoDuplicates(order) ==> NoDuplicates(InternalEdges(order, edgeToFaces))
    decreases |order|
  {
    if order != [] {
      var front := order[..|order| - 1];
      var e := order[|order| - 1];
      var rest := InternalEdges(front, edgeToFaces);
      InternalEdgesInOrder(front, edgeToFaces);
      assert order == front + [e];
      if e in edgeToFaces && |edgeToFaces[e]| == 2 {
        assert (rest + [e])[..|rest|] == rest;
        assert NoDuplicates(order) ==> e !in front;
      } else {
        SubsequenceExtend(rest, front, e);
      }
    }
  }

  /** `r` is `s` with some of its elements left out and the others kept in
      their order. */
  ghost predicate Subsequence<T>(r: seq<T>, s: seq<T>)
    decreases |s|
  {
    if r == [] then true
    else if s == [] then false
    else if r[|r| - 1] == s[|s| - 1] then Subsequence(r[..|r| - 1], s[..|s| - 1])
    else Subsequence(r, s[..|s| - 1])
  }

  lemma {:induction false} SubsequenceExtend<T>(r: seq<T>, s: seq<T>, x: T)
    requires Subsequence(r, s)
    ensures Subsequence(r, s + [x])
    decreases |s|, 1
  {
    assert (s + [x])[..|s|] == s;
    if r != [] && r[|r| - 1] == x {
      SubsequenceDropLast(r, s);
    }
  }

  lemma {:induction false} SubsequenceDropLast<T>(r: seq<T>, s: seq<T>)
    requires Subsequence(r, s) && r != []
    ensures Subsequence(r[..|r| - 1], s)
    decreases |s|, 0
  {
    var r', s' := r[..|r| - 1], s[..|s| - 1];
    assert s == s' + [s[|s| - 1]];
    if r[|r| - 1] == s[|s| - 1] {
      SubsequenceExtend(r', s', s[|s| - 1]);
    } else {
      SubsequenceDropLast(r, s');
      SubsequenceExtend(r', s', s[|s| - 1]);
    }
  }

  /** Selection on the scanned mesh: an edge is internal exactly when two
      edges of the triangles (in a well-formed mesh, two triangles) have it;
      edges used once, or three or more times, are never selected. */
  lemma InternalExactlyWhenSharedByTwo(faces: seq<Face>, e: Edge)
    ensures var t := TableOf(faces);
            e in InternalEdges(t.order, t.faces) <==> IncidenceCount(faces, e) == 2
  {
    var t := TableOf(faces);
    TableMatchesIncident(faces);
    IncidentLength(faces, e);
    assert Entry(t, e) == Incident(faces, e);
  }

  lemma {:induction false} AllPairsSelected(order: seq<Edge>, m: map<Edge, seq<int>>)
    requires forall i :: 0 <= i < |order| ==> order[i] in m && |m[order[i]]| == 2
    ensures InternalEdges(order, m) == order
    ensures TotalEntries(order, m) == 2 * |order|
    decreases |order|
  {
    if order != [] {
      var front := order[..|order| - 1];
      assert forall i :: 0 <= i < |front| ==> front[i] == order[i];
      AllPairsSelected(front, m);
      assert front + [order[|order| - 1]] == order;
    }
  }

  /** A closed mesh, where every edge in use is shared by exactly two
      triangle edges: every key is internal, in dictionary order, and there
      are three internal edges for every two triangles. */
  lemma ClosedMeshInternalEdges(faces: seq<Face>)
    requires forall e :: IncidenceCount(faces, e) == 0 || IncidenceCount(faces, e) == 2
    ensures var t := TableOf(faces);
            && InternalEdges(t.order, t.faces) == t.order
            && 2 * |InternalEdges(t.order, t.faces)| == 3 * |faces|
  {
    var t := TableOf(faces);
    TableMatchesIncident(faces);
    forall i | 0 <= i < |t.order| ensures t.order[i] in t.faces && |t.faces[t.order[i]]| == 2 {
      var e := t.order[i];
      assert e in t.order;
      IncidentLength(faces, e);
      assert Entry(t, e) == Incident(faces, e);
    }
    AllPairsSelected(t.order, t.faces);
    TableTotal(faces);
  }

  // ---------------------------------------------------------------------
  // sorted(set(face1).union(set(face2)))

  predicate Increasing(s: seq<int>)
  {
    forall i, j :: 0 <= i < j < |s| ==> s[i] < s[j]
  }

  function VertexSet(f: Face): set<int>
  {
    {f.v1, f.v2, f.v3}
  }

  /** Inserting x into an increasing sequence, unless it is already there. */
  function Insert(x: int, s: seq<int>): (r: seq<int>)
    requires Increasing(s)
    ensures Increasing(r)
    ensures forall v :: v in r <==> v == x || v in s
    decreases |s|
  {
    if s == [] then [x]
    else if x < s[0] then
      assert forall i :: 0 <= i < |s| ==> x < s[i];
      [x] + s
    else if x == s[0] then s
    else
      var rest := Insert(x, s[1..]);
      assert forall v :: v in s[1..] ==> s[0] < v;
      assert forall i :: 0 <= i < |rest| ==> s[0] < rest[i] by {
        forall i | 0 <= i < |rest| ensures s[0] < rest[i] {
          assert rest[i] in rest;
        }
      }
      [s[0]] + rest
  }

  /** The union of the two faces' vertex sets, ascending, without repeats. */
  function SortedUnion(a: Face, b: Face): (r: seq<int>)
    ensures Increasing(r)
    ensures forall v :: v in r <==> v in VertexSet(a) + VertexSet(b)
    ensures forall i :: 0 <= i < |r| ==> r[i] in VertexSet(a) + VertexSet(b)
    ensures |r| == |VertexSet(a) + VertexSet(b)|
  {
    var s2 := Insert(a.v2, [a.v1]);
    var s3 := Insert(a.v3, s2);
    var s4 := Insert(b.v1, s3);
    var s5 := Insert(b.v2, s4);
    var r := Insert(b.v3, s5);
    SetOfValues(r, VertexSet(a) + VertexSet(b));
    IncreasingCardinality(r);
    r
  }

  /** The set of values of a sequence, given its members. */
  lemma SetOfValues(s: seq<int>, values: set<int>)
    requires forall v :: v in s <==> v in values
    ensures (set v | v in s) == values
  {
    assert forall v :: v in (set v | v in s) <==> v in values;
  }

  /** An increasing sequence has as many elements as its set of values. */
  lemma {:induction false} IncreasingCardinality(s: seq<int>)
    requires Increasing(s)
    ensures |set v | v in s| == |s|
    decreases |s|
  {
    if s != [] {
      var rest := s[1..];
      IncreasingCardinality(rest);
      assert (set v | v in s) == {s[0]} + (set v | v in rest);
      assert s[0] !in (set v | v in rest);
    }
  }

  /** Sorting a set is deterministic: two increasing sequences with the
      same values are the same sequence. */
  lemma {:induction false} IncreasingUnique(s: seq<int>, r: seq<int>)
    requires Increasing(s) && Increasing(r)
    requires forall v :: v in s <==> v in r
    ensures s == r
    decreases |s|
  {
    if s == [] {
      SetOfValues(r, {});
      IncreasingCardinality(r);
    } else {
      assert s[0] in s;
      assert s[0] in r;
      IncreasingHead(s);
      IncreasingHead(r);
      assert s[0] in r && r[0] in s;
      assert s[0] == r[0];
      assert forall v :: v in s[1..] <==> v in r[1..];
      IncreasingUnique(s[1..], r[1..]);
      assert s == [s[0]] + s[1..] && r == [r[0]] + r[1..];
    }
  }

  /** The first element of a non-empty increasing sequence is its least,
      and the rest are the other values. */
  lemma IncreasingHead(s: seq<int>)
    requires Increasing(s) && s != []
    ensures Increasing(s[1..])
    ensures forall v :: v in s ==> s[0] <= v
    ensures forall v :: v in s[1..] <==> v in s && v != s[0]
  {
    forall v | v in s ensures s[0] <= v {
      var k :| 0 <= k < |s| && s[k] == v;
    }
    forall v ensures v in s[1..] <==> v in s && v != s[0] {
      if v in s[1..] {
        var k :| 0 <= k < |s| - 1 && s[1..][k] == v;
        assert s[k + 1] == v;
      }
      if v in s && v != s[0] {
        var k :| 0 <= k < |s| && s[k] == v;
        assert s[1..][k - 1] == v;
      }
    }
  }

  /** Every vertex index of every face indexes into the vertex table. */
  predicate FacesInRange(faces: seq<Face>, vertexCount: int)
  {
    forall i :: 0 <= i < |faces| ==> InRange(faces[i], vertexCount)
  }

  predicate InRange(f: Face, vertexCount: int)
  {
    0 <= f.v1 < vertexCount && 0 <= f.v2 < vertexCount && 0 <= f.v3 < vertexCount
  }

  lemma UnionInRange(a: Face, b: Face, vertexCount: int)
    requires InRange(a, vertexCount) && InRange(b, vertexCount)
    ensures forall v :: v in VertexSet(a) + VertexSet(b) ==> 0 <= v < vertexCount
  {
  }

  /** The points stored at the given vertex indices, in the same order. */
  function Lookup(vertices: seq<Point>, indices: seq<int>): (ps: seq<Point>)
    requires forall i :: 0 <= i < |indices| ==> 0 <= indices[i] < |vertices|
    ensures |ps| == |indices|
    ensures forall i :: 0 <= i < |indices| ==> ps[i] == vertices[indices[i]]
  {
    seq(|indices|, i requires 0 <= i < |indices| => vertices[indices[i]])
  }

  /** The candidate of two adjacent faces: the points of their merged
      vertices in ascending index order, or nothing when the two faces have
      other than exactly four distinct vertices. */
  function Candidate(vertices: seq<Point>, a: Face, b: Face): (r: Option<seq<Point>>)
    requires InRange(a, |vertices|) && InRange(b, |vertices|)
    ensures r.Some? <==> |VertexSet(a) + VertexSet(b)| == 4
    ensures r.Some? ==> |r.value| == 4
    ensures r.Some? ==> UnionIndicesInRange(vertices, a, b) && r.value == Lookup(vertices, SortedUnion(a, b))
  {
    UnionInRange(a, b, |vertices|);
    var quadrilateral := Lookup(vertices, SortedUnion(a, b));
    if |quadrilateral| != 4 then None else Some(quadrilateral)
  }

  predicate UnionIndicesInRange(vertices: seq<Point>, a: Face, b: Face)
  {
    var indices := SortedUnion(a, b);
    forall i :: 0 <= i < |indices| ==> 0 <= indices[i] < |vertices|
  }
}
