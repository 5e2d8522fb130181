/** The two geometric tests of the analysis: the convexity test of a
    quadrilateral and the shoelace area of a polygon, both over exact
    reals and both taking the points in the order given (main.py:21-43). */
module Geometry {

  /** A vertex of the mesh, projected to its first two coordinates. */
  datatype Point = Point(x: real, y: real)

  function Abs(r: real): (a: real)
    ensures a >= 0.0 && (a == r || a == -r)
  {
    if r < 0.0 then -r else r
  }

  /** The 2D cross product of the edge vectors p1->p2 and p2->p3: positive
      for a left turn at p2, negative for a right turn, zero when the three
      points are collinear. */
  function Cross(p1: Point, p2: Point, p3: Point): real
  {
    (p2.x - p1.x) * (p3.y - p2.y) - (p2.y - p1.y) * (p3.x - p2.x)
  }

  /** The turn at vertex i, the next two vertices taken cyclically among
      the first four (a closed quadrilateral when there are exactly four). */
  function Turn(q: seq<Point>, i: int): real
    requires 4 <= |q| && 0 <= i < |q|
  {
    Cross(q[i], q[(i + 1) % 4], q[(i + 2) % 4])
  }

  /** Convex as `is_convex` in main.py decides it: every turn of the quadrilateral
      strictly to the left, or every turn strictly to the right.  A zero turn
      is never convex. */
  predicate Convex(q: seq<Point>)
    requires |q| == 4
  {
    (forall i :: 0 <= i < 4 ==> Turn(q, i) > 0.0) ||
    (forall i :: 0 <= i < 4 ==> Turn(q, i) < 0.0)
  }

  /** The convexity test: collects one cross product per point in a list,
      then checks that their signs agree strictly.  The indexing of
      `is_convex` fails on one to three points and accepts no points at all. */
  method IsConvex(quadrilateral: seq<Point>) returns (convex: bool)
    requires |quadrilateral| == 0 || 4 <= |quadrilateral|
    ensures convex <==>
              (forall i :: 0 <= i < |quadrilateral| ==> Turn(quadrilateral, i) > 0.0) ||
              (forall i :: 0 <= i < |quadrilateral| ==> Turn(quadrilateral, i) < 0.0)
    ensures |quadrilateral| == 4 ==> convex == Convex(quadrilateral)
  {
    var points := quadrilateral;
    var cross: seq<real> := [];
    for i := 0 to |points|
      invariant |cross| == i
      invariant forall k :: 0 <= k < i ==> cross[k] == Turn(points, k)
    {
      var p1 := points[i];
      var p2 := points[(i + 1) % 4];
      var p3 := points[(i + 2) % 4];
      var cp := (p2.x - p1.x) * (p3.y - p2.y) - (p2.y - p1.y) * (p3.x - p2.x);
      cross := cross + [cp];
    }
    convex := (forall k :: 0 <= k < |cross| ==> cross[k] > 0.0) ||
              (forall k :: 0 <= k < |cross| ==> cross[k] < 0.0);
  }

  // ---------------------------------------------------------------------
  // Shoelace formula

  /** The i-th shoelace term x_i * y_{i+1} - x_{i+1} * y_i, the successor
      taken cyclically. */
  function Term(polygon: seq<Point>, i: int): real
    requires 0 <= i < |polygon|
  {
    var n := |polygon|;
    polygon[i].x * polygon[(i + 1) % n].y - polygon[(i + 1) % n].x * polygon[i].y
  }

  /** The sum of the first k shoelace terms. */
  function PartialSum(polygon: seq<Point>, k: int): real
    requires 0 <= k <= |polygon|
    decreases k
  {
    if k == 0 then 0.0 else PartialSum(polygon, k - 1) + Term(polygon, k - 1)
  }

  /** Twice the signed area of the polygon, positive when it winds
      counter-clockwise. */
  function SignedSum(polygon: seq<Point>): real
  {
    PartialSum(polygon, |polygon|)
  }

  /** The value `shoelace_area` in main.py returns instead of a zero area. */
  const Sentinel: real := 999.0

  /** Half the absolute signed sum, or the sentinel when that sum is zero. */
  function Area(polygon: seq<Point>): real
  {
    var s := SignedSum(polygon);
    if s != 0.0 then Abs(s) * 0.5 else Sentinel
  }

  /** The shoelace area: accumulates the signed sum term by term in the
      polygon's own order, then halves its absolute value; an exact zero sum
      gives the sentinel instead. */
  method ShoelaceArea(polygon: seq<Point>) returns (area: real)
    ensures SignedSum(polygon) == 0.0 ==> area == Sentinel
    ensures SignedSum(polygon) != 0.0 ==> area == 0.5 * Abs(SignedSum(polygon))
    ensures area == Area(polygon)
  {
    var n := |polygon|;
    var sum := 0.0;
    for i := 0 to n
      invariant sum == PartialSum(polygon, i)
    {
      var x1, y1 := polygon[i].x, polygon[i].y;
      var x2, y2 := polygon[(i + 1) % n].x, polygon[(i + 1) % n].y;
      sum := sum + (x1 * y2 - x2 * y1);
    }
    area := if sum != 0.0 then Abs(sum) * 0.5 else Sentinel;
  }

  // ---------------------------------------------------------------------
  // Properties

  /** The area is always strictly positive: zero is replaced by the sentinel. */
  lemma AreaPositive(polygon: seq<Point>)
    ensures Area(polygon) > 0.0
    ensures Area(polygon) == Sentinel || Area(polygon) == 0.5 * Abs(SignedSum(polygon))
  {
  }

  /** The sentinel is not reserved: a 999 by 1 rectangle has a non-zero signed
      sum and still reports exactly 999, so an area of 999 does not tell a
      degenerate quadrilateral from a real one. */
  lemma SentinelIsAlsoARealArea()
    ensures var r := [Point(0.0, 0.0), Point(999.0, 0.0), Point(999.0, 1.0), Point(0.0, 1.0)];
            SignedSum(r) == 1998.0 && Area(r) == Sentinel
  {
    var r := [Point(0.0, 0.0), Point(999.0, 0.0), Point(999.0, 1.0), Point(0.0, 1.0)];
    assert PartialSum(r, 4) == 1998.0;
  }

  /** Reduction modulo n of a number below 2n. */
  lemma ModBelowTwice(m: int, n: int)
    requires 0 <= m < 2 * n
    ensures m % n == if m < n then m else m - n
  {
    if m >= n {
      assert m == 1 * n + (m - n);
    }
  }

  /** Rotating a sequence left by k places. */
  function Rotation<T>(s: seq<T>, k: int): (r: seq<T>)
    requires 0 <= k <= |s|
    ensures |r| == |s|
    ensures forall j :: 0 <= j < |s| ==> r[j] == s[(j + k) % |s|]
  {
    var r := s[k..] + s[..k];
    assert forall j :: 0 <= j < |s| ==> r[j] == s[(j + k) % |s|] by {
      forall j | 0 <= j < |s| ensures r[j] == s[(j + k) % |s|] {
        ModBelowTwice(j + k, |s|);
      }
    }
    r
  }

  /** The sequence read backwards. */
  function Reversal<T>(s: seq<T>): (r: seq<T>)
    ensures |r| == |s|
    ensures forall j :: 0 <= j < |s| ==> r[j] == s[|s| - 1 - j]
  {
    seq(|s|, j requires 0 <= j < |s| => s[|s| - 1 - j])
  }

  /** Every turn of a rotated quadrilateral is a turn of the original. */
  lemma TurnOfRotation(q: seq<Point>, k: int, i: int)
    requires |q| == 4 && 0 <= k <= 4 && 0 <= i < 4
    ensures Turn(Rotation(q, k), i) == Turn(q, (i + k) % 4)
  {
    var r := Rotation(q, k);
    ShiftCommutes(i, k, 1);
    ShiftCommutes(i, k, 2);
    assert r[i] == q[(i + k) % 4];
    assert r[(i + 1) % 4] == q[((i + k) % 4 + 1) % 4];
    assert r[(i + 2) % 4] == q[((i + k) % 4 + 2) % 4];
  }

  /** Among four vertices, stepping d places and then k places is stepping
      k places and then d places. */
  lemma ShiftCommutes(i: int, k: int, d: int)
    requires 0 <= i < 4 && 0 <= k <= 4 && 0 <= d <= 2
    ensures ((i + d) % 4 + k) % 4 == ((i + k) % 4 + d) % 4
  {
    ModBelowTwice(i + d, 4);
    ModBelowTwice(i + k, 4);
    ModBelowTwice((i + d) % 4 + k, 4);
    ModBelowTwice((i + k) % 4 + d, 4);
  }

  /** Rotating vertex j of four back by k places and then forward again. */
  lemma ShiftBack(j: int, k: int)
    requires 0 <= j < 4 && 0 <= k <= 4
    ensures 0 <= (j - k + 4) % 4 < 4 && ((j - k + 4) % 4 + k) % 4 == j
  {
    ModBelowTwice(j - k + 4, 4);
    ModBelowTwice((j - k + 4) % 4 + k, 4);
  }

  /** Mirroring vertex j of four twice. */
  lemma MirrorTwice(j: int)
    requires 0 <= j < 4
    ensures 0 <= (5 - j) % 4 < 4 && (5 - (5 - j) % 4) % 4 == j
  {
    ModBelowTwice(5 - j, 4);
    ModBelowTwice(5 - (5 - j) % 4, 4);
  }

  /** The convexity test does not depend on which vertex comes first. */
  lemma ConvexUnderRotation(q: seq<Point>, k: int)
    requires |q| == 4 && 0 <= k <= 4
    ensures Convex(Rotation(q, k)) == Convex(q)
  {
    var r := Rotation(q, k);
    forall i | 0 <= i < 4 ensures Turn(r, i) == Turn(q, (i + k) % 4) {
      TurnOfRotation(q, k, i);
    }
    forall j | 0 <= j < 4 ensures Turn(q, j) == Turn(r, (j - k + 4) % 4) {
      ShiftBack(j, k);
    }
  }

  /** Reading three points backwards negates their cross product. */
  lemma CrossReversed(a: Point, b: Point, c: Point)
    ensures Cross(c, b, a) == -Cross(a, b, c)
  {
    var ux, uy, vx, vy := b.x - a.x, b.y - a.y, c.x - b.x, c.y - b.y;
    calc {
      Cross(c, b, a);
      (-vx) * (-uy) - (-vy) * (-ux);
      -(ux * vy - uy * vx);
    }
  }

  /** Every turn of the reversed quadrilateral is the negated turn at the
      mirrored vertex of the original. */
  lemma TurnOfReversal(q: seq<Point>, i: int)
    requires |q| == 4 && 0 <= i < 4
    ensures Turn(Reversal(q), i) == -Turn(q, (5 - i) % 4)
  {
    var r := Reversal(q);
    var j := (5 - i) % 4;
    assert r[i] == q[(j + 2) % 4];
    assert r[(i + 1) % 4] == q[(j + 1) % 4];
    assert r[(i + 2) % 4] == q[j];
    CrossReversed(q[j], q[(j + 1) % 4], q[(j + 2) % 4]);
  }

  /** The convexity test does not depend on the direction of traversal. */
  lemma ConvexUnderReversal(q: seq<Point>)
    requires |q| == 4
    ensures Convex(Reversal(q)) == Convex(q)
  {
    var r := Reversal(q);
    forall i | 0 <= i < 4 ensures Turn(r, i) == -Turn(q, (5 - i) % 4) {
      TurnOfReversal(q, i);
    }
    forall j | 0 <= j < 4 ensures Turn(q, j) == -Turn(r, (5 - j) % 4) {
      MirrorTwice(j);
    }
  }

  /** The successor index of the cyclic shoelace terms. */
  lemma Successor(i: int, n: int)
    requires 0 <= i < n
    ensures (i + 1) % n == if i + 1 < n then i + 1 else 0
  {
  }

  /** A term of the polygon rotated left by one is the next term of the
      original. */
  lemma TermOfRotation(polygon: seq<Point>, i: int)
    requires 0 <= i < |polygon|
    ensures Term(Rotation(polygon, 1), i) == Term(polygon, (i + 1) % |polygon|)
  {
    var n := |polygon|;
    var r := Rotation(polygon, 1);
    Successor(i, n);
    Successor((i + 1) % n, n);
    assert r[i] == polygon[(i + 1) % n];
    assert r[(i + 1) % n] == polygon[((i + 1) % n + 1) % n];
  }

  lemma {:induction false} PartialSumOfRotation(polygon: seq<Point>, k: int)
    requires 0 <= k < |polygon|
    ensures PartialSum(Rotation(polygon, 1), k) == PartialSum(polygon, k + 1) - Term(polygon, 0)
  {
    if k > 0 {
      PartialSumOfRotation(polygon, k - 1);
      TermOfRotation(polygon, k - 1);
      Successor(k - 1, |polygon|);
    }
  }

  /** Rotating the polygon by one vertex leaves its signed sum unchanged. */
  lemma SignedSumUnderRotation(polygon: seq<Point>)
    requires |polygon| > 0
    ensures SignedSum(Rotation(polygon, 1)) == SignedSum(polygon)
  {
    var n := |polygon|;
    PartialSumOfRotation(polygon, n - 1);
    TermOfRotation(polygon, n - 1);
    Successor(n - 1, n);
  }

  /** The shoelace area does not depend on which vertex comes first. */
  lemma {:induction false} AreaUnderRotation(polygon: seq<Point>, k: int)
    requires 0 <= k <= |polygon|
    ensures Area(Rotation(polygon, k)) == Area(polygon)
    decreases k
  {
    if 0 < k < |polygon| {
      var r := Rotation(polygon, k - 1);
      AreaUnderRotation(polygon, k - 1);
      SignedSumUnderRotation(r);
      assert Rotation(r, 1) == Rotation(polygon, k);
    } else {
      assert Rotation(polygon, k) == polygon;
    }
  }

  /** A term of the reversed polygon is the negated term of the original at
      the mirrored position; the last term pairs with the last. */
  lemma TermOfReversal(polygon: seq<Point>, i: int)
    requires 0 <= i < |polygon|
    ensures var n := |polygon|;
            Term(Reversal(polygon), i) == -Term(polygon, if i < n - 1 then n - 2 - i else n - 1)
  {
    var n := |polygon|;
    var r := Reversal(polygon);
    Successor(i, n);
    if i < n - 1 {
      Successor(n - 2 - i, n);
      assert r[i] == polygon[n - 1 - i];
      assert r[i + 1] == polygon[n - 2 - i];
    } else {
      Successor(n - 1, n);
      assert r[i] == polygon[0];
      assert r[0] == polygon[n - 1];
    }
  }

  lemma {:induction false} PartialSumOfReversal(polygon: seq<Point>, k: int)
    requires 0 <= k < |polygon|
    ensures var n := |polygon|;
            PartialSum(Reversal(polygon), k) == PartialSum(polygon, n - 1 - k) - PartialSum(polygon, n - 1)
  {
    if k > 0 {
      PartialSumOfReversal(polygon, k - 1);
      TermOfReversal(polygon, k - 1);
    }
  }

  /** Reversing the polygon negates its signed sum. */
  lemma SignedSumUnderReversal(polygon: seq<Point>)
    ensures SignedSum(Reversal(polygon)) == -SignedSum(polygon)
  {
    var n := |polygon|;
    if n > 0 {
      PartialSumOfReversal(polygon, n - 1);
      TermOfReversal(polygon, n - 1);
    }
  }

  /** The shoelace area does not depend on the direction of traversal. */
  lemma AreaUnderReversal(polygon: seq<Point>)
    ensures Area(Reversal(polygon)) == Area(polygon)
  {
    SignedSumUnderReversal(polygon);
  }
}
