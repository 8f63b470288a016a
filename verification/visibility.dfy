/** Visibility predicates over the editor's point list: whether a candidate
    segment is blocked by a boundary edge, whether it is an interior diagonal,
    whether a vertex is an ear, and the two per-vertex diagnostics that
    classify every vertex as convex/reflex and as ear/not ear. */
module Visibility {
  import opened Geometry
  import Cyclic

  /** Edge i of the open chain, points[i] -> points[i + 1], blocks segment
      v1-v2: it meets the segment and neither of its endpoints is v1 or v2. */
  predicate BlocksAt(points: seq<Point>, i: int, v1: Point, v2: Point)
    requires 0 <= i < |points| - 1
  {
    && points[i] != v1 && points[i] != v2
    && points[i + 1] != v1 && points[i + 1] != v2
    && Intersect(v1, v2, points[i], points[i + 1])
  }

  /** The scan of the chain edges i, i + 1, ..., |points| - 2, stopping at the
      first edge that blocks v1-v2. */
  function ScanFrom(points: seq<Point>, i: nat, v1: Point, v2: Point): (r: bool)
    requires i < |points|
    ensures r <==> forall j :: i <= j < |points| - 1 ==> !BlocksAt(points, j, v1, v2)
    decreases |points| - i
  {
    if i == |points| - 1 then
      true
    else if BlocksAt(points, i, v1, v2) then
      false
    else
      ScanFrom(points, i + 1, v1, v2)
  }

  /** No edge points[i] -> points[i + 1], 0 <= i <= n - 2, blocks segment
      v1-v2. The closing edge points[n - 1] -> points[0] is not among the
      edges examined. The list must not be empty: its length less one is
      computed in unsigned arithmetic. */
  function Diagonalie(points: seq<Point>, v1: Point, v2: Point): (r: bool)
    requires |points| >= 1
    ensures r <==> forall i :: 0 <= i < |points| - 1 ==> !BlocksAt(points, i, v1, v2)
    ensures !r <==> exists i :: 0 <= i < |points| - 1 && BlocksAt(points, i, v1, v2)
  {
    ScanFrom(points, 0, v1, v2)
  }

  /** Segment v-b is a diagonal: b lies in the cone at v, v lies in the cone at
      b, and no chain edge blocks it. v0, v1 and b0, b1 are the polygon
      neighbours of v and of b. */
  predicate Diagonal(points: seq<Point>, v0: Point, v: Point, v1: Point, b0: Point, b: Point, b1: Point)
    requires |points| >= 1
    ensures Diagonal(points, v0, v, v1, b0, b, b1) ==> v != b && v0 != b && v1 != b && b0 != v && b1 != v
    ensures Diagonal(points, v0, v, v1, b0, b, b1) ==> Diagonalie(points, v, b)
  {
    InConeExcludesNeighbours(v0, v, v1, b0, b, b1);
    InConeExcludesNeighbours(b0, b, b1, v0, v, v1);
    InCone(v0, v, v1, b0, b, b1) && InCone(b0, b, b1, v0, v, v1) && Diagonalie(points, v, b)
  }

  /** v, between v0 and v1, is an ear: it is convex and v0-v1 is a diagonal,
      where v00 precedes v0 and v11 follows v1. An ear's triangle
      v0, v, v1 is non-degenerate and its closing side v0-v1 is blocked by no
      chain edge. */
  predicate Ear(points: seq<Point>, v0: Point, v: Point, v1: Point, v00: Point, v11: Point)
    requires |points| >= 1
    ensures !Left(v0, v, v1) ==> !Ear(points, v0, v, v1, v00, v11)
    ensures Ear(points, v0, v, v1, v00, v11)
            <==> Left(v0, v, v1) && InCone(v00, v0, v, v, v1, v11) && InCone(v, v1, v11, v00, v0, v)
                 && Diagonalie(points, v0, v1)
    ensures Ear(points, v0, v, v1, v00, v11) ==> v0 != v && v != v1 && v0 != v1
    ensures Ear(points, v0, v, v1, v00, v11) ==> Diagonalie(points, v0, v1)
    ensures Ear(points, v0, v, v1, v00, v11) ==> v1 != v00 && v0 != v11
  {
    if !IsConvex(v0, v, v1) then
      false
    else
      Area2Symmetries(v0, v, v1);
      IsConvexIsLeft(v0, v, v1);
      Diagonal(points, v00, v0, v, v, v1, v11)
  }

  /** The per-vertex convexity diagnostic, case by case as the editor writes
      it: vertex 0, then vertices 1 .. n - 2 in a loop, then vertex n - 1.
      Fewer than three points give no verdicts. Each verdict is the turn at
      vertex i with its neighbours taken cyclically. */
  function VerifyAngle(points: seq<Point>): (r: seq<bool>)
    ensures |points| < 3 ==> r == []
    ensures |points| >= 3 ==> |r| == |points|
    ensures |points| >= 3 ==> forall i :: 0 <= i < |points| ==>
              r[i] == IsConvex(points[(i - 1) % |points|], points[i], points[(i + 1) % |points|])
  {
    if |points| < 3 then
      []
    else
      var n := |points|;
      Cyclic.Wrap(n);
      [IsConvex(points[n - 1], points[0], points[1])]
      + seq(n - 2, k requires 0 <= k < n - 2 => IsConvex(points[k], points[k + 1], points[k + 2]))
      + [IsConvex(points[n - 2], points[n - 1], points[0])]
  }

  /** The per-vertex ear diagnostic, case by case as the editor writes it:
      vertices 0 and 1, then 2 .. n - 3 in a loop, then n - 2 and n - 1.
      Fewer than four points give no verdicts; otherwise one verdict per
      vertex (EarVerifyIsCyclic states which). */
  function EarVerify(points: seq<Point>): (r: seq<bool>)
    ensures |points| < 4 ==> r == []
    ensures |points| >= 4 ==> |r| == |points|
  {
    if |points| < 4 then
      []
    else
      var n := |points|;
      var p := points;
      [Ear(p, p[n - 1], p[0], p[1], p[n - 2], p[2]),
       Ear(p, p[0], p[1], p[2], p[n - 1], p[3])]
      + EarLoop(p)
      + [Ear(p, p[n - 3], p[n - 2], p[n - 1], p[n - 4], p[0]),
         Ear(p, p[n - 2], p[n - 1], p[0], p[n - 3], p[1])]
  }

  /** The verdicts of the loop over vertices 2 .. n - 3 of the ear diagnostic. */
  function EarLoop(p: seq<Point>): (r: seq<bool>)
    requires |p| >= 4
    ensures |r| == |p| - 4
  {
    seq(|p| - 4, k requires 0 <= k < |p| - 4 => Ear(p, p[k + 1], p[k + 2], p[k + 3], p[k], p[k + 4]))
  }

  // ---------------------------------------------------------------------

  /** Whether a chain edge blocks a segment does not depend on the direction
      in which the segment is given. */
  lemma DiagonalieSymmetric(points: seq<Point>, v1: Point, v2: Point)
    requires |points| >= 1
    ensures Diagonalie(points, v1, v2) == Diagonalie(points, v2, v1)
  {
    forall i | 0 <= i < |points| - 1
      ensures BlocksAt(points, i, v1, v2) == BlocksAt(points, i, v2, v1)
    {
      IntersectSymmetric(v1, v2, points[i], points[i + 1]);
    }
  }

  /** Being a diagonal does not depend on which endpoint is named first. */
  lemma DiagonalSymmetric(points: seq<Point>, v0: Point, v: Point, v1: Point, b0: Point, b: Point, b1: Point)
    requires |points| >= 1
    ensures Diagonal(points, v0, v, v1, b0, b, b1) == Diagonal(points, b0, b, b1, v0, v, v1)
  {
    DiagonalieSymmetric(points, v, b);
  }

  /** The ear diagnostic's hand-written cases agree with one cyclic formula:
      the verdict for vertex i is the ear test at i with its neighbours i - 1,
      i + 1 and i - 2, i + 2 taken modulo the number of points. */
  lemma EarVerifyIsCyclic(points: seq<Point>)
    requires |points| >= 4
    ensures var n := |points|;
            forall i :: 0 <= i < n ==>
              EarVerify(points)[i] == Ear(points, points[(i - 1) % n], points[i], points[(i + 1) % n],
                                          points[(i - 2) % n], points[(i + 2) % n])
  {
    var n, p := |points|, points;
    var r := EarVerify(p);
    Cyclic.Wrap(n);
    forall i | 0 <= i < n
      ensures r[i] == Ear(p, p[(i - 1) % n], p[i], p[(i + 1) % n], p[(i - 2) % n], p[(i + 2) % n])
    {
      if i == 0 {
        assert (i - 1) % n == n - 1 && (i - 2) % n == n - 2;
      } else if i == 1 {
        assert (i - 2) % n == n - 1;
      } else if i < n - 2 {
        assert r[i] == EarLoop(p)[i - 2];
      } else if i == n - 2 {
        assert (i + 2) % n == 0;
      } else {
        assert (i + 1) % n == 0 && (i + 2) % n == 1;
      }
    }
  }

  /** The closing edge is never examined: in the five-point polygon
      (0,0), (4,0), (4,4), (0,4), (3,2) the segment from (4,0) to (0,4) crosses
      the closing edge (3,2)-(0,0) away from both its endpoints, and still
      every examined edge lets it through. */
  lemma DiagonalieSkipsClosingEdge()
    ensures var p := [Point(0.0, 0.0), Point(4.0, 0.0), Point(4.0, 4.0), Point(0.0, 4.0), Point(3.0, 2.0)];
            && IntersectionProp(p[1], p[3], p[4], p[0])
            && Diagonalie(p, p[1], p[3])
  {
    var a, b, c, d, e := Point(0.0, 0.0), Point(4.0, 0.0), Point(4.0, 4.0), Point(0.0, 4.0), Point(3.0, 2.0);
    var p := [a, b, c, d, e];
    assert Area2(b, d, e) == -4.0;
    assert Area2(b, d, a) == 16.0;
    assert Area2(e, a, b) == 8.0;
    assert Area2(e, a, d) == -12.0;
    assert IntersectionProp(b, d, e, a);
    forall i | 0 <= i < |p| - 1
      ensures !BlocksAt(p, i, b, d)
    {
      assert p[i] == b || p[i] == d || p[i + 1] == b || p[i + 1] == d;
    }
  }
}
