/** Exact two-dimensional predicates of the polygon editor: twice the signed
    area of a triangle, sidedness of a point with respect to a directed line,
    proper and improper segment intersection, and the visibility cone at a
    polygon vertex (the ear-clipping predicates of O'Rourke, "Computational
    Geometry in C", chapter 1). Coordinates are exact reals. */
module Geometry {

  /** A point of the editor's plane. The editor also stores a third
      coordinate, which is always zero and which no predicate reads. */
  datatype Point = Point(x: real, y: real)

  /** The vector from q to p. */
  function Sub(p: Point, q: Point): Point
  {
    Point(p.x - q.x, p.y - q.y)
  }

  /** The z-component of the cross product of two plane vectors. */
  function Cross(u: Point, v: Point): real
  {
    u.x * v.y - u.y * v.x
  }

  function Dot(u: Point, v: Point): real
  {
    u.x * v.x + u.y * v.y
  }

  /** u turned a quarter turn counter-clockwise: the normal pointing to the
      left of a line with direction u. */
  function Normal(u: Point): Point
  {
    Point(-u.y, u.x)
  }

  /** Twice the signed area of the triangle a, b, c, written as the six-term
      shoelace sum. It is the cross product of the two edge vectors leaving a. */
  function Area2(a: Point, b: Point, c: Point): (r: real)
    ensures r == Cross(Sub(b, a), Sub(c, a))
  {
    a.x * b.y - b.x * a.y + b.x * c.y - c.x * b.y + c.x * a.y - a.x * c.y
  }

  /** c lies strictly to the left of the directed line a -> b. */
  predicate Left(a: Point, b: Point, c: Point)
  {
    Area2(a, b, c) > 0.0
  }

  /** c lies to the left of, or on, the directed line a -> b. */
  predicate LeftOn(a: Point, b: Point, c: Point)
  {
    Area2(a, b, c) >= 0.0
  }

  /** a, b and c lie on one line. The editor compares a float with zero
      exactly; over exact reals that comparison is the intended one. */
  predicate Collinear(a: Point, b: Point, c: Point)
  {
    Area2(a, b, c) == 0.0
  }

  /** The editor computes `!x ^ !y` on two booleans. */
  function Xor(x: bool, y: bool): (r: bool)
    ensures r <==> x != y
  {
    !x != !y
  }

  /** Segments ab and cd cross at a point interior to both: no three of the
      four endpoints are collinear and each segment's endpoints lie strictly on
      opposite sides of the other segment's line. */
  predicate IntersectionProp(a: Point, b: Point, c: Point, d: Point)
    ensures (Collinear(a, b, c) || Collinear(a, b, d) || Collinear(c, d, a) || Collinear(c, d, b))
            ==> !IntersectionProp(a, b, c, d)
    ensures IntersectionProp(a, b, c, d) ==> Left(a, b, c) != Left(a, b, d) && Left(c, d, a) != Left(c, d, b)
  {
    if Collinear(a, b, c) || Collinear(a, b, d) || Collinear(c, d, a) || Collinear(c, d, b) then
      false
    else
      Xor(Left(a, b, c), Left(a, b, d)) && Xor(Left(c, d, a), Left(c, d, b))
  }

  /** c lies on segment ab: the three points are collinear and c falls within
      the segment's extent along x, or along y when a and b share their x. */
  predicate Between(a: Point, b: Point, c: Point)
    ensures Between(a, b, c) ==> Collinear(a, b, c)
    ensures c == a || c == b ==> Between(a, b, c)
  {
    if !Collinear(a, b, c) then
      false
    else if a.x != b.x then
      (a.x <= c.x && c.x <= b.x) || (a.x >= c.x && c.x >= b.x)
    else
      (a.y <= c.y && c.y <= b.y) || (a.y >= c.y && c.y >= b.y)
  }

  /** Segments ab and cd meet, properly or at an endpoint lying on the other
      segment. */
  predicate Intersect(a: Point, b: Point, c: Point, d: Point)
    ensures IntersectionProp(a, b, c, d) ==> Intersect(a, b, c, d)
    ensures c == a || c == b || d == a || d == b ==> Intersect(a, b, c, d)
  {
    if IntersectionProp(a, b, c, d) then
      true
    else
      Between(a, b, c) || Between(a, b, d) || Between(c, d, a) || Between(c, d, b)
  }

  /** The segment from v to b starts into the interior cone at vertex v, whose
      polygon neighbours are v0 (before) and v1 (after). b0 and b1, b's own
      neighbours, are accepted and ignored. The editor joins the two tests of
      the reflex case with a bitwise `&`, which on booleans is a conjunction. */
  predicate InCone(v0: Point, v: Point, v1: Point, b0: Point, b: Point, b1: Point)
  {
    if LeftOn(v, v1, v0) then
      Left(v, b, v0) && Left(b, v, v1)
    else
      !(LeftOn(v, b, v1) && LeftOn(b, v, v0))
  }

  /** The turn a -> b -> c is a strict left turn, so b is a convex vertex of a
      counter-clockwise polygon. */
  predicate IsConvex(a: Point, b: Point, c: Point)
  {
    Area2(a, b, c) > 0.0
  }

  // ---------------------------------------------------------------------
  // Algebra of the signed area and of the sidedness predicates.

  /** The signed area is invariant under rotating the triangle, changes sign
      when two vertices are exchanged, and vanishes when two vertices coincide. */
  lemma Area2Symmetries(a: Point, b: Point, c: Point)
    ensures Area2(a, b, c) == Area2(b, c, a) == Area2(c, a, b)
    ensures Area2(a, b, c) == -Area2(a, c, b)
    ensures Area2(a, a, c) == 0.0 && Area2(a, b, a) == 0.0 && Area2(a, b, b) == 0.0
  {
  }

  /** Left is the open half-plane on the side of the left normal of a -> b. */
  lemma LeftIsNormalSide(a: Point, b: Point, c: Point)
    ensures Left(a, b, c) <==> Dot(Normal(Sub(b, a)), Sub(c, a)) > 0.0
    ensures LeftOn(a, b, c) <==> Dot(Normal(Sub(b, a)), Sub(c, a)) >= 0.0
    ensures Collinear(a, b, c) <==> Dot(Normal(Sub(b, a)), Sub(c, a)) == 0.0
  {
  }

  /** Strictly left implies left or on; left or on a -> b is the same as not
      strictly left of the reversed line b -> a; collinear is left or on but
      not strictly left. */
  lemma SidePredicateRelations(a: Point, b: Point, c: Point)
    ensures Left(a, b, c) ==> LeftOn(a, b, c)
    ensures LeftOn(a, b, c) <==> !Left(b, a, c)
    ensures Collinear(a, b, c) <==> LeftOn(a, b, c) && !Left(a, b, c)
  {
    Area2Symmetries(a, b, c);
    Area2Symmetries(b, a, c);
  }

  /** Convexity of the turn at b is strict leftness of c with respect to a -> b. */
  lemma IsConvexIsLeft(a: Point, b: Point, c: Point)
    ensures IsConvex(a, b, c) <==> Left(a, b, c)
  {
  }

  /** Exactly one of: c is left of a -> b, c is on the line, c is left of b -> a. */
  lemma SideTrichotomy(a: Point, b: Point, c: Point)
    ensures Left(a, b, c) || Collinear(a, b, c) || Left(b, a, c)
    ensures !(Left(a, b, c) && Collinear(a, b, c))
    ensures !(Left(a, b, c) && Left(b, a, c))
    ensures !(Collinear(a, b, c) && Left(b, a, c))
  {
  }

  /** Sign of a product of two reals. */
  lemma ProductSign(p: real, q: real)
    ensures p * q < 0.0 <==> (p < 0.0 && q > 0.0) || (p > 0.0 && q < 0.0)
    ensures p * q <= 0.0 <==> (p <= 0.0 && q >= 0.0) || (p >= 0.0 && q <= 0.0)
  {
    if p > 0.0 && q > 0.0 {
      assert p * q > 0.0;
    } else if p < 0.0 && q < 0.0 {
      assert p * q == (-p) * (-q);
      assert (-p) * (-q) > 0.0;
    } else if p > 0.0 && q < 0.0 {
      assert p * (-q) > 0.0;
    } else if p < 0.0 && q > 0.0 {
      assert (-p) * q > 0.0;
    }
  }

  /** Proper intersection is a strict straddle test: c and d lie strictly on
      opposite sides of line ab, and a and b strictly on opposite sides of
      line cd. */
  lemma IntersectionPropIsStraddle(a: Point, b: Point, c: Point, d: Point)
    ensures IntersectionProp(a, b, c, d)
            <==> Area2(a, b, c) * Area2(a, b, d) < 0.0 && Area2(c, d, a) * Area2(c, d, b) < 0.0
  {
    ProductSign(Area2(a, b, c), Area2(a, b, d));
    ProductSign(Area2(c, d, a), Area2(c, d, b));
  }

  /** Proper intersection does not depend on the order of the two segments or
      on the direction in which either is given. */
  lemma IntersectionPropSymmetric(a: Point, b: Point, c: Point, d: Point)
    ensures IntersectionProp(a, b, c, d) == IntersectionProp(c, d, a, b)
    ensures IntersectionProp(a, b, c, d) == IntersectionProp(b, a, c, d)
  {
    IntersectionPropIsStraddle(a, b, c, d);
    IntersectionPropIsStraddle(c, d, a, b);
    IntersectionPropIsStraddle(b, a, c, d);
    Area2Symmetries(a, b, c);
    Area2Symmetries(a, b, d);
    Area2Symmetries(c, d, a);
    Area2Symmetries(c, d, b);
    assert Area2(b, a, c) * Area2(b, a, d) == Area2(a, b, c) * Area2(a, b, d);
    assert Area2(c, d, b) * Area2(c, d, a) == Area2(c, d, a) * Area2(c, d, b);
  }

  /** At a convex vertex the open cone is the intersection of the open
      half-planes left of the edges v0 -> v and v -> v1; at a reflex vertex it
      is their union. b0 and b1 play no part. */
  lemma InConeHalfPlanes(v0: Point, v: Point, v1: Point, b0: Point, b: Point, b1: Point)
    ensures LeftOn(v, v1, v0) ==> (InCone(v0, v, v1, b0, b, b1) <==> Left(v0, v, b) && Left(v, v1, b))
    ensures !LeftOn(v, v1, v0) ==> (InCone(v0, v, v1, b0, b, b1) <==> Left(v0, v, b) || Left(v, v1, b))
  {
    Area2Symmetries(v, b, v0);
    Area2Symmetries(b, v, v1);
    Area2Symmetries(v, v1, b);
    Area2Symmetries(v0, v, b);
  }

  /** Neither the vertex itself nor either of its neighbours lies in its cone. */
  lemma InConeExcludesNeighbours(v0: Point, v: Point, v1: Point, b0: Point, b: Point, b1: Point)
    ensures b == v || b == v0 || b == v1 ==> !InCone(v0, v, v1, b0, b, b1)
  {
    Area2Symmetries(v, v1, v0);
    Area2Symmetries(v, v0, v1);
    Area2Symmetries(v0, v, v1);
  }

  /** Segment membership does not depend on the direction of the segment. */
  lemma BetweenSymmetric(a: Point, b: Point, c: Point)
    ensures Between(a, b, c) == Between(b, a, c)
  {
    Area2Symmetries(a, b, c);
  }

  /** Intersection does not depend on the order of the segments or on their
      directions. */
  lemma IntersectSymmetric(a: Point, b: Point, c: Point, d: Point)
    ensures Intersect(a, b, c, d) == Intersect(c, d, a, b)
    ensures Intersect(a, b, c, d) == Intersect(b, a, c, d)
  {
    IntersectionPropSymmetric(a, b, c, d);
    BetweenSymmetric(a, b, c);
    BetweenSymmetric(a, b, d);
  }

  /** If k > 0 and m > 0 and k * s == m * t, then s and t have the same sign. */
  lemma ScaledSign(k: real, m: real, s: real, t: real)
    requires k > 0.0 && m > 0.0
    requires k * s == m * t
    ensures s <= 0.0 <==> t <= 0.0
  {
    if s > 0.0 {
      assert k * s > 0.0;
      ProductSign(m, t);
    }
    if t > 0.0 {
      assert m * t > 0.0;
      ProductSign(k, s);
    }
  }

  /** For a point c = a + (ux, uy) on the line through a with direction
      (dx, dy), dx != 0, the sign of the angle test at c is the sign of the
      x-interval test. */
  lemma OnLineAlongX(dx: real, dy: real, ux: real, uy: real)
    requires dx != 0.0
    requires dx * uy == dy * ux
    ensures ux * (ux - dx) + uy * (uy - dy) <= 0.0 <==> ux * (ux - dx) <= 0.0
  {
    var p := ux * (ux - dx);
    var dot := p + uy * (uy - dy);
    assert dx * dx * (uy * (uy - dy)) == (dx * uy) * (dx * uy - dx * dy);
    assert (dx * uy) * (dx * uy - dx * dy) == (dy * ux) * (dy * ux - dx * dy);
    assert (dy * ux) * (dy * ux - dx * dy) == dy * dy * p;
    assert dx * dx * dot == (dx * dx + dy * dy) * p;
    ProductSign(dx, dx);
    ProductSign(dy, dy);
    var k, m := dx * dx, dx * dx + dy * dy;
    assert k > 0.0;
    assert m > 0.0;
    assert k * dot == m * p;
    ScaledSign(k, m, dot, p);
  }

  /** On a proper segment ab, Between is exactly membership in the closed
      segment: c is on the line through a and b and sees a and b at an angle
      of at least ninety degrees. */
  lemma BetweenIsOnSegment(a: Point, b: Point, c: Point)
    requires a != b
    ensures Between(a, b, c) <==> Collinear(a, b, c) && Dot(Sub(c, a), Sub(c, b)) <= 0.0
  {
    if Collinear(a, b, c) {
      var dx, dy := b.x - a.x, b.y - a.y;
      var ux, uy := c.x - a.x, c.y - a.y;
      assert Dot(Sub(c, a), Sub(c, b)) == ux * (ux - dx) + uy * (uy - dy);
      assert dx * uy == dy * ux;
      if a.x != b.x {
        OnLineAlongX(dx, dy, ux, uy);
        ProductSign(ux, ux - dx);
      } else {
        assert dy * ux == 0.0;
        assert ux == 0.0;
        ProductSign(uy, uy - dy);
      }
    }
  }

  /** On a segment whose endpoints coincide every point is collinear with it,
      and Between degenerates to a comparison of y alone. */
  lemma BetweenDegenerateSegment(a: Point, c: Point)
    ensures Between(a, a, c) <==> c.y == a.y
  {
  }
}
