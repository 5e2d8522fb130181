# Quadrilaterals of a triangle mesh

A model of the mesh analysis in `main.py`. It takes a vertex table of 2D points and a
list of triangles given as vertex-index triples. From these it does four things:

1. It builds the dictionary from each canonical edge `(min, max)` to the indices of the
   faces that use it. Faces are visited in order, and the dictionary keeps insertion order.
2. It selects the *internal* edges, meaning the keys whose face list has exactly two entries.
3. For each internal edge, it merges the vertex sets of the two faces into a sorted,
   duplicate-free index list. It keeps the resulting candidate quadrilateral only when
   that list has exactly four vertices.
4. It classifies each candidate with the convexity test and the shoelace area. It folds
   the result into two running values: the largest convex area and the smallest
   non-convex area.

The modules follow the three stages of the analysis:

- `Geometry` holds `is_convex` and `shoelace_area`. Each one is a loop method
  (`IsConvex`, `ShoelaceArea`), and each is proved equal to a specification
  (`Convex` and `Area`).
- `EdgeAdjacency` holds the dictionary build. `BuildEdgeMap` grows the dictionary in place
  inside a nested loop. The method is proved equal to `TableOf`, and `TableOf` is then
  related to an independent reference list, `Incident`.
- `QuadExtraction` holds internal-edge selection and candidate construction.
- `MeshAnalysis` holds the main loop. `Analyze` is proved equal to the fold `Fold` over
  the candidate stream. The properties of the fold are proved as lemmas.
- `Scenarios` works small meshes through the whole analysis: the unit square, a dart,
  and the same triangle listed twice. A fan of three triangles on one edge is taken
  through the dictionary build and edge selection only.

Coordinates are exact reals, so every cross product and shoelace sum is exact. The
comparison of the sum with zero is therefore an exact test. `float('inf')`, the initial
minimum, is modelled as `None`. The dictionary is an `EdgeTable`. It pairs the map with
the sequence of its keys in insertion order, which is the order `items()` visits them.

The 999 sentinel is reproduced as written, and so is the index-sorted point order. As
`SentinelIsAlsoARealArea` shows, a result of 999 does not mean the signed sum was zero.
A 999-by-1 rectangle also has area 999.

## Model

| member | source | states |
|---|---|---|
| `EdgeAdjacency.Canon` | main.py:58 | the key is ordered (first ≤ second) and holds the edge's two indices |
| `EdgeAdjacency.CanonSymmetric` | main.py:55-58 | `(a, b)` and `(b, a)` give the same key |
| `EdgeAdjacency.FaceKeys` | main.py:54-58 | every triangle contributes exactly three keys |
| `EdgeAdjacency.BuildEdgeMap` | main.py:52-61 | the nested loop that creates and appends entries in place yields exactly the table of `TableOf(faces)`, key order included |
| `EdgeAdjacency.TableMatchesIncident` | main.py:52-61 | the table is well formed (each key listed once in the order, every key canonical, no empty list); each key's list is the reference list `Incident`; the keys are exactly the edges some face uses |
| `EdgeAdjacency.KeysCanonical` | main.py:58-60 | every key of the built dictionary has its smaller index first |
| `EdgeAdjacency.FaceListedUnderItsEdges` | main.py:53-61 | each face index appears in the lists of all three of its edge keys |
| `EdgeAdjacency.ListedFacesUseTheEdge` | main.py:53-61 | a face index in an edge's list is a valid face that has that edge |
| `EdgeAdjacency.ListsInFaceOrder` | main.py:59-61 | each list is in ascending (insertion) face order; it holds each face once per edge of that face with this key; its length is the number of such edges |
| `EdgeAdjacency.IncidentShape` | main.py:59-61 | the reference list is ascending, its entries are face indices, and it counts each face's occurrences of the edge |
| `EdgeAdjacency.IncidentMembership` | main.py:59-61 | a face is in the reference list of `e` exactly when one of its edges has key `e` |
| `EdgeAdjacency.TableTotal` | main.py:53-61 | the lists together hold three entries per triangle |
| `QuadExtraction.InternalEdges` | main.py:64 | an edge is selected if and only if it is a key whose face list has length exactly 2; the selection is no longer than the key order |
| `QuadExtraction.InternalEdgesInOrder` | main.py:64 | the selected keys are the key order with the other keys left out, so they keep dictionary order; no key is selected twice when the order lists each key once |
| `QuadExtraction.InternalExactlyWhenSharedByTwo` | main.py:52-64 | on a built table, an edge is internal if and only if exactly two triangle edges use it, so edges used once or three or more times are never selected |
| `QuadExtraction.ClosedMeshInternalEdges` | main.py:52-64 | when every used edge is shared by exactly two triangle edges, every key is internal and twice the internal-edge count is three times the triangle count |
| `QuadExtraction.SortedUnion` | main.py:76-77 | the merged index list is strictly ascending, holds exactly the union of the two faces' vertices, and has the union's size |
| `QuadExtraction.IncreasingUnique` | main.py:77 | two strictly ascending lists with the same values are equal, so the sorted union is determined by the set alone |
| `QuadExtraction.Candidate` | main.py:71-81 | a candidate exists if and only if the two faces have exactly four distinct vertices; it is then the four points at the ascending indices |
| `Geometry.IsConvex` | main.py:21-31 | true if and only if every cyclic cross product is strictly positive or every one is strictly negative (a zero gives false); on four points it equals `Convex` |
| `Geometry.ConvexUnderRotation` | main.py:24-31 | rotating the four points cyclically does not change convexity |
| `Geometry.ConvexUnderReversal` | main.py:24-31 | reversing the four points does not change convexity |
| `Geometry.ShoelaceArea` | main.py:34-43 | the loop accumulates the cyclic shoelace sum; the result is 999 when that sum is 0 and half its absolute value otherwise |
| `Geometry.AreaPositive` | main.py:42 | the area is always strictly positive |
| `Geometry.SentinelIsAlsoARealArea` | main.py:42 | a 999-by-1 rectangle has a non-zero sum and also reports 999, so 999 does not identify a zero sum |
| `Geometry.SignedSumUnderRotation` | main.py:38-41 | rotating the polygon by one vertex leaves the signed sum unchanged |
| `Geometry.SignedSumUnderReversal` | main.py:38-41 | reversing the polygon negates the signed sum |
| `Geometry.AreaUnderRotation` | main.py:36-42 | the area does not depend on which vertex comes first |
| `Geometry.AreaUnderReversal` | main.py:36-42 | the area does not depend on the direction of traversal |
| `MeshAnalysis.Step` | main.py:83-92 | one candidate folded in: if it is convex, the minimum is unchanged and the new maximum is the larger of the old maximum and its area; if it is non-convex, the maximum is unchanged and the new minimum is at most both the old minimum and its area, and equals one of them |
| `MeshAnalysis.CandidatesMembers` | main.py:69-81 | a quadrilateral is in the stream of the given edges if and only if merging the two faces of one of those edges gives exactly it, that is, four distinct vertices whose points in ascending index order are that quadrilateral |
| `MeshAnalysis.MergesAt` | main.py:71-78 | the k-th entry of the per-edge merge results is the merge of the k-th edge's two faces |
| `MeshAnalysis.MeshCandidateFromInternalEdge` | main.py:52-81 | every candidate of the mesh is what merging the two faces of some key with exactly two faces gives |
| `MeshAnalysis.InternalEdgeInMeshCandidates` | main.py:52-81 | whenever merging the two faces of a key with exactly two faces gives four vertices, their points are a candidate of the mesh |
| `MeshAnalysis.MeshCandidatesMembers` | main.py:52-81 | the mesh's candidates are exactly the four-vertex merges of the faces of its internal edges, in both directions |
| `MeshAnalysis.IterationMonotone` | main.py:69-92 | one iteration of the analysis loop never lowers the maximum, never raises the minimum, and changes at most one of them |
| `MeshAnalysis.Analyze` | main.py:52-92 | the main loop gives `Fold` of the mesh's candidates; the maximum bounds every convex candidate's area and is 0 exactly when there is none; the minimum bounds every non-convex candidate's area from below and stays infinity exactly when there is none |
| `MeshAnalysis.AnalysisExtrema` | main.py:66-92 | the meaning of the two results, in terms of the mesh's candidates |
| `MeshAnalysis.StepMonotone` | main.py:86-92 | one candidate never lowers the maximum and never raises the minimum; a convex candidate leaves the minimum alone, and a non-convex one leaves the maximum alone |
| `MeshAnalysis.FoldPrefixMonotone` | main.py:66-92 | across iterations, the maximum never decreases and the minimum never increases |
| `MeshAnalysis.FoldMaximum` | main.py:66-88 | the final maximum is at least every convex candidate's area, is attained by one of them when non-zero, and is 0 exactly when no candidate is convex |
| `MeshAnalysis.FoldMinimum` | main.py:67-92 | the final minimum is at most every non-convex candidate's area, is attained by one of them, and is still infinity exactly when no candidate is non-convex |
| `Scenarios.SplitInternalEdges` | main.py:52-64 | a quadrilateral split along the diagonal (a, c) has that diagonal as its only internal edge |
| `Scenarios.UnitSquare` | main.py:21-43 | the unit square in counter-clockwise order is convex with area 1 |
| `Scenarios.Dart` | main.py:21-43 | the dart (0,0), (1,0), (0.25,0.25), (0,1) is non-convex with area 0.25 |
| `Scenarios.UnitSquareScenario` | main.py:52-92 | faces (0,1,2) and (0,2,3) on the unit square give maximum convex area 1, and the minimum stays infinity |
| `Scenarios.DartScenario` | main.py:52-92 | the same split on the dart gives maximum 0 and minimum non-convex area 0.25 |
| `Scenarios.SelfMergeSkipped` | main.py:76-81 | a face merged with itself has at most three vertices and yields no candidate |
| `Scenarios.RepeatedTriangleScenario` | main.py:52-92 | the same triangle listed twice makes all three edges internal, but every candidate is skipped and both extrema keep their initial values |
| `Scenarios.FanEdgeNotInternal` | main.py:52-64 | an edge shared by three triangles has a list of length 3 and is not selected |

## Left out

- `read_obj` (main.py:4-18), which reads the OBJ file, parses it and shifts indices from 1-based to 0-based. The model takes the vertex table and the 0-based triangles as given sequences.
- The hard-coded `'teapot.obj'` path (main.py:48) and the two `print` calls (main.py:95-96). These are I/O; `Analyze` returns the two values instead.
- Floating point. Coordinates are exact reals, so rounding, and the underflow to zero that the comment at main.py:42-43 mentions, are not modelled.
- numpy array construction and fancy indexing (main.py:18, main.py:78). They become sequence lookups, under the precondition that every face's indices lie in `[0, |vertices|)`. numpy's wrap-around for negative indices and its `IndexError` for indices out of range are not modelled.
- Faces with other than three indices. Unpacking `v1, v2, v3 = face` (main.py:54) raises for them, and the model's `Face` always has three.
- Geometry.IsConvex: requires zero or at least four points. `is_convex` in main.py raises `IndexError` on one to three points, and that exception path is not modelled. The analysis only ever passes exactly four.
