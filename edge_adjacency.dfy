/** The edge-adjacency builder (main.py:52-61): for every triangle, in order,
    its three edges are put in canonical form and the triangle's index is
    appended to the list kept for that edge. */
module EdgeAdjacency {

  /** A triangle: three vertex indices, 0-based. */
  datatype Face = Face(v1: int, v2: int, v3: int)

  /** An undirected edge in canonical form: the smaller index first. */
  type Edge = (int, int)

  /** The edge as `tuple(sorted(edge))` gives it. */
  function Canon(a: int, b: int): (e: Edge)
    ensures e.0 <= e.1
    ensures (e.0 == a && e.1 == b) || (e.0 == b && e.1 == a)
  {
    if a <= b then (a, b) else (b, a)
  }

  /** The two directions of an edge share one key. */
  lemma CanonSymmetric(a: int, b: int)
    ensures Canon(a, b) == Canon(b, a)
  {
  }

  /** The three edges of a triangle in the order they are scanned:
      (v1, v2), (v2, v3), (v3, v1). */
  function FaceEdges(f: Face): seq<(int, int)>
  {
    [(f.v1, f.v2), (f.v2, f.v3), (f.v3, f.v1)]
  }

  /** The canonical keys of a triangle's three edges, in scanning order. */
  function FaceKeys(f: Face): (ks: seq<Edge>)
    ensures |ks| == 3
  {
    [Canon(f.v1, f.v2), Canon(f.v2, f.v3), Canon(f.v3, f.v1)]
  }

  /** The insertion-ordered dictionary from edge to face indices: `order`
      lists the keys in the order they were first inserted (the order in
      which the dictionary's items are later visited). */
  datatype EdgeTable = EdgeTable(order: seq<Edge>, faces: map<Edge, seq<int>>)

  const Empty := EdgeTable([], map[])

  /** The face list stored for an edge, empty for an edge not in the table. */
  function Entry(t: EdgeTable, e: Edge): seq<int>
  {
    if e in t.faces then t.faces[e] else []
  }

  /** Appending face f under key e, creating the entry when it is absent. */
  function AddEdge(t: EdgeTable, e: Edge, f: int): EdgeTable
  {
    if e in t.faces then EdgeTable(t.order, t.faces[e := t.faces[e] + [f]])
    else EdgeTable(t.order + [e], t.faces[e := [f]])
  }

  /** Appending face f under each key of ks, in order. */
  function AddEdges(t: EdgeTable, ks: seq<Edge>, f: int): EdgeTable
    decreases |ks|
  {
    if ks == [] then t else AddEdge(AddEdges(t, ks[..|ks| - 1], f), ks[|ks| - 1], f)
  }

  /** The table after scanning the given triangles. */
  function TableOf(faces: seq<Face>): EdgeTable
    decreases |faces|
  {
    if faces == [] then Empty
    else
      var n := |faces| - 1;
      AddEdges(TableOf(faces[..n]), FaceKeys(faces[n]), n)
  }

  /** The scan itself: one pass over the triangles, three edges each, the
      dictionary growing in place. */
  method BuildEdgeMap(faces: seq<Face>) returns (order: seq<Edge>, edgeToFaces: map<Edge, seq<int>>)
    ensures EdgeTable(order, edgeToFaces) == TableOf(faces)
  {
    order, edgeToFaces := [], map[];
    for faceIdx := 0 to |faces|
      invariant EdgeTable(order, edgeToFaces) == TableOf(faces[..faceIdx])
    {
      var face := faces[faceIdx];
      var edges := FaceEdges(face);
      ghost var before := EdgeTable(order, edgeToFaces);
      for j := 0 to 3
        invariant EdgeTable(order, edgeToFaces) == AddEdges(before, FaceKeys(face)[..j], faceIdx)
      {
        var edgeSorted := Canon(edges[j].0, edges[j].1);
        assert edgeSorted == FaceKeys(face)[j];
        ghost var t0 := EdgeTable(order, edgeToFaces);
        if edgeSorted !in edgeToFaces {
          order := order + [edgeSorted];
          edgeToFaces := edgeToFaces[edgeSorted := []];
        }
        edgeToFaces := edgeToFaces[edgeSorted := edgeToFaces[edgeSorted] + [faceIdx]];
        assert [] + [faceIdx] == [faceIdx];
        assert EdgeTable(order, edgeToFaces) == AddEdge(t0, edgeSorted, faceIdx);
        assert FaceKeys(face)[..j + 1][..j] == FaceKeys(face)[..j];
      }
      assert FaceKeys(face)[..3] == FaceKeys(face);
      assert faces[..faceIdx + 1][..faceIdx] == faces[..faceIdx];
    }
    assert faces[..|faces|] == faces;
  }

  // ---------------------------------------------------------------------
  // Reference definition of an entry: which faces use an edge, how often

  /** How many of the three edges of f have key e (more than one only for a
      triangle that repeats a vertex). */
  function Occurrences(f: Face, e: Edge): nat
  {
    Count(FaceKeys(f), e)
  }

  function Count(ks: seq<Edge>, e: Edge): nat
    decreases |ks|
  {
    if ks == [] then 0 else Count(ks[..|ks| - 1], e) + (if ks[|ks| - 1] == e then 1 else 0)
  }

  function Repeat(x: int, k: nat): (r: seq<int>)
    ensures |r| == k && forall i :: 0 <= i < k ==> r[i] == x
  {
    seq(k, _ => x)
  }

  /** The reference list for edge e: every face index once per edge of that
      face with key e, ascending. */
  function Incident(faces: seq<Face>, e: Edge): seq<int>
    decreases |faces|
  {
    if faces == [] then []
    else
      var n := |faces| - 1;
      Incident(faces[..n], e) + Repeat(n, Occurrences(faces[n], e))
  }

  /** How many of the edges of all triangles have key e. */
  function IncidenceCount(faces: seq<Face>, e: Edge): nat
    decreases |faces|
  {
    if faces == [] then 0
    else IncidenceCount(faces[..|faces| - 1], e) + Occurrences(faces[|faces| - 1], e)
  }

  // ---------------------------------------------------------------------
  // The table is well formed

  ghost predicate NoDuplicates<T>(s: seq<T>)
  {
    forall i, j :: 0 <= i < j < |s| ==> s[i] != s[j]
  }

  /** The order lists each key exactly once, every key is canonical and no
      stored list is empty. */
  ghost predicate Valid(t: EdgeTable)
  {
    && NoDuplicates(t.order)
    && (forall e :: e in t.order <==> e in t.faces)
    && (forall e :: e in t.faces ==> e.0 <= e.1 && t.faces[e] != [])
  }

  lemma AddEdgeValid(t: EdgeTable, e: Edge, f: int)
    requires Valid(t) && e.0 <= e.1
    ensures Valid(AddEdge(t, e, f))
    ensures forall k :: Entry(AddEdge(t, e, f), k) == Entry(t, k) + (if k == e then [f] else [])
  {
    if e !in t.faces {
      var order := t.order + [e];
      assert e !in t.order;
      forall i, j | 0 <= i < j < |order| ensures order[i] != order[j] {
        if j < |t.order| {
          assert order[i] == t.order[i] && order[j] == t.order[j];
        } else {
          assert order[i] == t.order[i] && order[j] == e;
        }
      }
      assert forall k :: k in order <==> k in t.order || k == e;
    }
  }

  lemma {:induction false} AddEdgesValid(t: EdgeTable, ks: seq<Edge>, f: int)
    requires Valid(t) && forall i :: 0 <= i < |ks| ==> ks[i].0 <= ks[i].1
    ensures Valid(AddEdges(t, ks, f))
    ensures forall k :: Entry(AddEdges(t, ks, f), k) == Entry(t, k) + Repeat(f, Count(ks, k))
    decreases |ks|
  {
    if ks != [] {
      var init := ks[..|ks| - 1];
      AddEdgesValid(t, init, f);
      AddEdgeValid(AddEdges(t, init, f), ks[|ks| - 1], f);
      forall k ensures Entry(AddEdges(t, ks, f), k) == Entry(t, k) + Repeat(f, Count(ks, k)) {
        var c := Count(init, k);
        if ks[|ks| - 1] == k {
          assert Repeat(f, c) + [f] == Repeat(f, c + 1);
        }
      }
    }
  }

  /** The scan yields a well-formed table whose entry for every edge is the
      reference list, and whose keys are exactly the edges some face uses. */
  lemma {:induction false} TableMatchesIncident(faces: seq<Face>)
    ensures Valid(TableOf(faces))
    ensures forall e :: Entry(TableOf(faces), e) == Incident(faces, e)
    ensures forall e :: e in TableOf(faces).faces <==> Incident(faces, e) != []
    decreases |faces|
  {
    if faces != [] {
      var n := |faces| - 1;
      TableMatchesIncident(faces[..n]);
      AddEdgesValid(TableOf(faces[..n]), FaceKeys(faces[n]), n);
    }
  }

  // ---------------------------------------------------------------------
  // Properties of the reference list

  lemma RepeatMultiset(x: int, k: nat, y: int)
    ensures multiset(Repeat(x, k))[y] == if y == x then k else 0
    decreases k
  {
    if k > 0 {
      assert Repeat(x, k) == Repeat(x, k - 1) + [x];
      RepeatMultiset(x, k - 1, y);
    }
  }

  /** Every face index in the list is a face that uses the edge, and it
      appears once per edge of that face with this key. */
  lemma {:induction false} IncidentMultiset(faces: seq<Face>, e: Edge)
    ensures forall x :: multiset(Incident(faces, e))[x] ==
              if 0 <= x < |faces| then Occurrences(faces[x], e) else 0
    decreases |faces|
  {
    if faces != [] {
      var n := |faces| - 1;
      var pre := Incident(faces[..n], e);
      var tail := Repeat(n, Occurrences(faces[n], e));
      IncidentMultiset(faces[..n], e);
      forall x ensures multiset(Incident(faces, e))[x] ==
                              if 0 <= x < |faces| then Occurrences(faces[x], e) else 0 {
        RepeatMultiset(n, Occurrences(faces[n], e), x);
        assert multiset(pre + tail)[x] == multiset(pre)[x] + multiset(tail)[x];
        if 0 <= x < n {
          assert faces[..n][x] == faces[x];
        }
      }
    }
  }

  /** Every listed index is the index of a face. */
  lemma {:induction false} IncidentBounds(faces: seq<Face>, e: Edge)
    ensures forall i :: 0 <= i < |Incident(faces, e)| ==> 0 <= Incident(faces, e)[i] < |faces|
    decreases |faces|
  {
    if faces != [] {
      var n := |faces| - 1;
      var pre := Incident(faces[..n], e);
      var tail := Repeat(n, Occurrences(faces[n], e));
      IncidentBounds(faces[..n], e);
      assert Incident(faces, e) == pre + tail;
      forall i | 0 <= i < |pre + tail| ensures 0 <= (pre + tail)[i] < |faces| {
        if i < |pre| {
          assert (pre + tail)[i] == pre[i];
        } else {
          assert (pre + tail)[i] == tail[i - |pre|];
        }
      }
    }
  }

  /** The list ascends: faces are listed in the order they were scanned. */
  lemma {:induction false} IncidentAscending(faces: seq<Face>, e: Edge)
    ensures forall i, j :: 0 <= i <= j < |Incident(faces, e)| ==>
              Incident(faces, e)[i] <= Incident(faces, e)[j]
    decreases |faces|
  {
    if faces != [] {
      var n := |faces| - 1;
      var pre := Incident(faces[..n], e);
      var tail := Repeat(n, Occurrences(faces[n], e));
      IncidentAscending(faces[..n], e);
      IncidentBounds(faces[..n], e);
      assert Incident(faces, e) == pre + tail;
      forall i, j | 0 <= i <= j < |pre + tail| ensures (pre + tail)[i] <= (pre + tail)[j] {
        if j < |pre| {
          assert (pre + tail)[i] == pre[i] && (pre + tail)[j] == pre[j];
        } else if i < |pre| {
          assert (pre + tail)[i] == pre[i] && (pre + tail)[j] == tail[j - |pre|];
        } else {
          assert (pre + tail)[i] == tail[i - |pre|] && (pre + tail)[j] == tail[j - |pre|];
        }
      }
    }
  }

  /** The three facts about the reference list together. */
  lemma IncidentShape(faces: seq<Face>, e: Edge)
    ensures forall x :: multiset(Incident(faces, e))[x] ==
              if 0 <= x < |faces| then Occurrences(faces[x], e) else 0
    ensures forall i, j :: 0 <= i <= j < |Incident(faces, e)| ==>
              Incident(faces, e)[i] <= Incident(faces, e)[j]
    ensures forall i :: 0 <= i < |Incident(faces, e)| ==> 0 <= Incident(faces, e)[i] < |faces|
  {
    IncidentMultiset(faces, e);
    IncidentBounds(faces, e);
    IncidentAscending(faces, e);
  }

  /** Membership in the reference list: a face is listed under e exactly when
      one of its edges has key e. */
  lemma IncidentMembership(faces: seq<Face>, e: Edge, x: int)
    ensures x in Incident(faces, e) <==> 0 <= x < |faces| && Occurrences(faces[x], e) > 0
  {
    IncidentShape(faces, e);
    assert x in Incident(faces, e) <==> multiset(Incident(faces, e))[x] > 0;
  }

  /** The length of the reference list counts the edges with key e. */
  lemma {:induction false} IncidentLength(faces: seq<Face>, e: Edge)
    ensures |Incident(faces, e)| == IncidenceCount(faces, e)
    decreases |faces|
  {
    if faces != [] {
      IncidentLength(faces[..|faces| - 1], e);
    }
  }

  /** Every key of the dictionary is canonical: smaller index first. */
  lemma KeysCanonical(faces: seq<Face>)
    ensures forall e :: e in TableOf(faces).faces ==> e.0 <= e.1
  {
    TableMatchesIncident(faces);
  }

  /** Each face index is listed under the keys of all three of its edges. */
  lemma FaceListedUnderItsEdges(faces: seq<Face>, f: int, j: int)
    requires 0 <= f < |faces| && 0 <= j < 3
    ensures var e := FaceKeys(faces[f])[j];
            e in TableOf(faces).faces && f in TableOf(faces).faces[e]
  {
    var e := FaceKeys(faces[f])[j];
    TableMatchesIncident(faces);
    CountPositive(FaceKeys(faces[f]), j);
    IncidentMembership(faces, e, f);
    assert Entry(TableOf(faces), e) == Incident(faces, e);
  }

  /** A face listed under an edge is a face that has that edge. */
  lemma ListedFacesUseTheEdge(faces: seq<Face>, e: Edge, f: int)
    requires e in TableOf(faces).faces && f in TableOf(faces).faces[e]
    ensures 0 <= f < |faces| && Occurrences(faces[f], e) > 0
  {
    TableMatchesIncident(faces);
    assert Entry(TableOf(faces), e) == TableOf(faces).faces[e];
    IncidentMembership(faces, e, f);
  }

  /** Each face list is in ascending face order (the order of insertion),
      and lists each face once per edge it has with that key. */
  lemma ListsInFaceOrder(faces: seq<Face>, e: Edge)
    requires e in TableOf(faces).faces
    ensures var l := TableOf(faces).faces[e];
            && (forall i, j :: 0 <= i <= j < |l| ==> l[i] <= l[j])
            && (forall x :: multiset(l)[x] == if 0 <= x < |faces| then Occurrences(faces[x], e) else 0)
            && |l| == IncidenceCount(faces, e)
  {
    TableMatchesIncident(faces);
    assert Entry(TableOf(faces), e) == TableOf(faces).faces[e];
    IncidentShape(faces, e);
    IncidentLength(faces, e);
  }

  lemma {:induction false} CountPositive(ks: seq<Edge>, j: int)
    requires 0 <= j < |ks|
    ensures Count(ks, ks[j]) > 0
    decreases |ks|
  {
    if j < |ks| - 1 {
      CountPositive(ks[..|ks| - 1], j);
    }
  }

  // ---------------------------------------------------------------------
  // Every triangle contributes exactly three entries

  /** The total length of the face lists of the given keys. */
  function TotalEntries(order: seq<Edge>, m: map<Edge, seq<int>>): nat
    decreases |order|
  {
    if order == [] then 0
    else
      var e := order[|order| - 1];
      TotalEntries(order[..|order| - 1], m) + (if e in m then |m[e]| else 0)
  }

  lemma {:induction false} TotalIgnoresOtherKeys(order: seq<Edge>, m: map<Edge, seq<int>>, e: Edge, v: seq<int>)
    requires e !in order
    ensures TotalEntries(order, m[e := v]) == TotalEntries(order, m)
    decreases |order|
  {
    if order != [] {
      var front := order[..|order| - 1];
      assert forall k :: k in front ==> k in order;
      TotalIgnoresOtherKeys(front, m, e, v);
    }
  }

  lemma {:induction false} TotalGrowsByOne(order: seq<Edge>, m: map<Edge, seq<int>>, e: Edge, f: int)
    requires NoDuplicates(order) && e in order && e in m
    ensures TotalEntries(order, m[e := m[e] + [f]]) == TotalEntries(order, m) + 1
    decreases |order|
  {
    var n := |order| - 1;
    var front := order[..n];
    assert forall i :: 0 <= i < |front| ==> front[i] == order[i];
    assert NoDuplicates(front);
    if order[n] == e {
      assert e !in front;
      TotalIgnoresOtherKeys(front, m, e, m[e] + [f]);
    } else {
      assert e in front;
      TotalGrowsByOne(front, m, e, f);
    }
  }

  lemma AddEdgeTotal(t: EdgeTable, e: Edge, f: int)
    requires Valid(t) && e.0 <= e.1
    ensures TotalEntries(AddEdge(t, e, f).order, AddEdge(t, e, f).faces) == TotalEntries(t.order, t.faces) + 1
  {
    if e in t.faces {
      TotalGrowsByOne(t.order, t.faces, e, f);
    } else {
      var order := t.order + [e];
      assert order[..|order| - 1] == t.order;
      TotalIgnoresOtherKeys(t.order, t.faces, e, [f]);
    }
  }

  lemma {:induction false} AddEdgesTotal(t: EdgeTable, ks: seq<Edge>, f: int)
    requires Valid(t) && forall i :: 0 <= i < |ks| ==> ks[i].0 <= ks[i].1
    ensures TotalEntries(AddEdges(t, ks, f).order, AddEdges(t, ks, f).faces) == TotalEntries(t.order, t.faces) + |ks|
    decreases |ks|
  {
    if ks != [] {
      var init := ks[..|ks| - 1];
      AddEdgesTotal(t, init, f);
      AddEdgesValid(t, init, f);
      AddEdgeTotal(AddEdges(t, init, f), ks[|ks| - 1], f);
    }
  }

  lemma TableValid(faces: seq<Face>)
    ensures Valid(TableOf(faces))
  {
    TableMatchesIncident(faces);
  }

  /** The face lists of the scanned mesh hold three entries per triangle. */
  lemma {:induction false} TableTotal(faces: seq<Face>)
    ensures TotalEntries(TableOf(faces).order, TableOf(faces).faces) == 3 * |faces|
    decreases |faces|
  {
    if faces != [] {
      var n := |faces| - 1;
      TableTotal(faces[..n]);
      TableValid(faces[..n]);
      AddEdgesTotal(TableOf(faces[..n]), FaceKeys(faces[n]), n);
    }
  }
}
