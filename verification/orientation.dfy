/** Winding orientation of a closed polygon. The editor sums the signed areas
    of the triangles that a fixed anchor point forms with every edge of the
    polygon, the closing edge included, and calls the polygon
    counter-clockwise when the total is strictly positive. Over exact
    arithmetic that total is the shoelace sum, whatever the anchor. */
module Orientation {
  import opened Geometry

  /** The anchor of the fan, (1.1, 1.1): outside the editor's coordinate
      range [-1, 1]. */
  const Anchor: Point := Point(1.1, 1.1)

  /** The editor's running total after its first k steps: the signed areas of
      the triangles o, vs[i], vs[i + 1] for i < k. */
  function FanChain(o: Point, vs: seq<Point>, k: nat): real
    requires k < |vs|
  {
    if k == 0 then 0.0 else FanChain(o, vs, k - 1) + Area2(o, vs[k - 1], vs[k])
  }

  /** The sum of the cross products of consecutive points over the first k
      edges of the open chain. */
  function ChainCross(vs: seq<Point>, k: nat): real
    requires k < |vs|
  {
    if k == 0 then 0.0 else ChainCross(vs, k - 1) + Cross(vs[k - 1], vs[k])
  }

  /** The anchor-free shoelace sum of the closed polygon: twice its signed
      area. */
  function Shoelace(vs: seq<Point>): real
    requires |vs| >= 1
  {
    ChainCross(vs, |vs| - 1) + Cross(vs[|vs| - 1], vs[0])
  }

  /** The triangle with apex o over edge p -> q contributes the edge's own
      cross product plus the difference of the apex terms at its ends. */
  lemma Area2Split(o: Point, p: Point, q: Point)
    ensures Area2(o, p, q) == Cross(p, q) + Cross(o, p) - Cross(o, q)
  {
  }

  /** The apex terms of consecutive fan triangles cancel, leaving those at the
      chain's two ends. */
  lemma {:induction false} FanChainTelescopes(o: Point, vs: seq<Point>, k: nat)
    requires k < |vs|
    ensures FanChain(o, vs, k) == ChainCross(vs, k) + Cross(o, vs[0]) - Cross(o, vs[k])
  {
    if k > 0 {
      FanChainTelescopes(o, vs, k - 1);
      Area2Split(o, vs[k - 1], vs[k]);
    }
  }

  /** The editor's total: the fan over the open chain plus the triangle over
      the closing edge. For every anchor it equals the shoelace sum. */
  function FanTotal(o: Point, vs: seq<Point>): (r: real)
    requires |vs| >= 1
    ensures r == Shoelace(vs)
  {
    FanChainTelescopes(o, vs, |vs| - 1);
    Area2Split(o, vs[|vs| - 1], vs[0]);
    FanChain(o, vs, |vs| - 1) + Area2(o, vs[|vs| - 1], vs[0])
  }

  /** The orientation classifier. Fewer than three vertices are never
      counter-clockwise; otherwise the polygon is counter-clockwise exactly
      when its shoelace sum is strictly positive, so a zero total counts as
      clockwise. */
  function IsCounterClockwise(vs: seq<Point>): (r: bool)
    ensures |vs| < 3 ==> !r
    ensures |vs| >= 3 ==> (r <==> Shoelace(vs) > 0.0)
  {
    if |vs| < 3 then
      false
    else
      var total := FanTotal(Anchor, vs);
      var orientation := if total > 0.0 then 1 else -1;
      orientation > 0
  }

  /** The points in the opposite order. */
  function Reverse(vs: seq<Point>): (r: seq<Point>)
    ensures |r| == |vs|
    ensures forall i :: 0 <= i < |vs| ==> r[i] == vs[|vs| - 1 - i]
  {
    seq(|vs|, i requires 0 <= i < |vs| => vs[|vs| - 1 - i])
  }

  /** The first k edges of the reversed chain are the last k edges of the
      chain, traversed backwards. */
  lemma {:induction false} ChainCrossReverse(vs: seq<Point>, k: nat)
    requires k < |vs|
    ensures ChainCross(Reverse(vs), k) == ChainCross(vs, |vs| - 1 - k) - ChainCross(vs, |vs| - 1)
  {
    if k > 0 {
      var n, r := |vs|, Reverse(vs);
      ChainCrossReverse(vs, k - 1);
      assert r[k - 1] == vs[n - k] && r[k] == vs[n - 1 - k];
      assert Cross(vs[n - k], vs[n - 1 - k]) == -Cross(vs[n - 1 - k], vs[n - k]);
    }
  }

  /** Listing the vertices in the opposite order negates the shoelace sum. */
  lemma ShoelaceReverse(vs: seq<Point>)
    requires |vs| >= 1
    ensures Shoelace(Reverse(vs)) == -Shoelace(vs)
  {
    var n, r := |vs|, Reverse(vs);
    ChainCrossReverse(vs, n - 1);
    assert r[n - 1] == vs[0] && r[0] == vs[n - 1];
  }

  /** One point or two enclose nothing: each cross product of the sum is
      cancelled by its mirror. */
  lemma ShoelaceDegenerate(vs: seq<Point>)
    requires 1 <= |vs| < 3
    ensures Shoelace(vs) == 0.0
  {
    var a, b := vs[0], vs[|vs| - 1];
    assert Cross(a, b) + Cross(b, a) == 0.0;
    assert ChainCross(vs, |vs| - 1) == if |vs| == 1 then 0.0 else Cross(a, b);
  }

  /** Reversing a polygon with non-zero area flips the classification; a
      polygon of zero area is clockwise in both orders. */
  lemma ReverseFlipsOrientation(vs: seq<Point>)
    requires |vs| >= 3
    ensures Shoelace(vs) != 0.0 ==> IsCounterClockwise(Reverse(vs)) == !IsCounterClockwise(vs)
    ensures Shoelace(vs) == 0.0 ==> !IsCounterClockwise(vs) && !IsCounterClockwise(Reverse(vs))
  {
    ShoelaceReverse(vs);
  }
}
