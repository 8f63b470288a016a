/** Concrete behaviour of the editor on small literal inputs: three points on
    one line, and the square with corners (-1, -1), (1, -1), (1, 1), (-1, 1)
    listed in both orders. */
module Scenarios {
  import opened Geometry
  import Orientation
  import Visibility
  import MeshBuilder

  /** The square, counter-clockwise. */
  function Square(): (s: seq<Point>)
    ensures |s| == 4
  {
    [Point(-1.0, -1.0), Point(1.0, -1.0), Point(1.0, 1.0), Point(-1.0, 1.0)]
  }

  /** Three points on the x-axis: collinear, so on the left-or-on side but
      not strictly on the left. */
  lemma CollinearPoints()
    ensures var a, b, c := Point(0.0, 0.0), Point(1.0, 0.0), Point(2.0, 0.0);
            Collinear(a, b, c) && LeftOn(a, b, c) && !Left(a, b, c)
  {
  }

  /** The counter-clockwise square is classified counter-clockwise, and every
      vertex is both convex and an ear. */
  lemma SquareIsConvexAndAllEars()
    ensures Orientation.IsCounterClockwise(Square())
    ensures Visibility.VerifyAngle(Square()) == [true, true, true, true]
    ensures Visibility.EarVerify(Square()) == [true, true, true, true]
  {
    SquareOrientation();
    SquareAngles();
    SquareEars();
  }

  /** The square's shoelace sum is 8, twice its area. */
  lemma SquareOrientation()
    ensures Orientation.Shoelace(Square()) == 8.0
    ensures Orientation.IsCounterClockwise(Square())
  {
    var p := Square();
    assert Orientation.ChainCross(p, 1) == 2.0;
    assert Orientation.ChainCross(p, 2) == 4.0;
    assert Orientation.ChainCross(p, 3) == 6.0;
  }

  /** Every corner of the square is convex. */
  lemma SquareAngles()
    ensures Visibility.VerifyAngle(Square()) == [true, true, true, true]
  {
    var p := Square();
    var a := Visibility.VerifyAngle(p);
    forall i | 0 <= i < 4
      ensures a[i]
    {
      SquareTurn(i);
    }
  }

  /** The turn at corner i of the square is a left turn. */
  lemma SquareTurn(i: int)
    requires 0 <= i < 4
    ensures var p := Square();
            IsConvex(p[(i - 1) % 4], p[i], p[(i + 1) % 4])
  {
    var p := Square();
    var a, b, c := p[(i - 1) % 4], p[i], p[(i + 1) % 4];
    if i == 0 {
      assert a == p[3] && b == p[0] && c == p[1];
    } else if i == 1 {
      assert a == p[0] && b == p[1] && c == p[2];
    } else if i == 2 {
      assert a == p[1] && b == p[2] && c == p[3];
    } else {
      assert a == p[2] && b == p[3] && c == p[0];
    }
    assert Area2(a, b, c) == 4.0;
  }

  /** Every corner of the square is an ear. */
  lemma SquareEars()
    ensures Visibility.EarVerify(Square()) == [true, true, true, true]
  {
    var p := Square();
    var e := Visibility.EarVerify(p);
    Visibility.EarVerifyIsCyclic(p);
    forall i | 0 <= i < 4
      ensures e[i]
    {
      SquareEar(i);
    }
  }

  /** The ear test at corner i of the square succeeds: the turn there is
      left, the diagonal joining its neighbours lies in both cones, and every
      chain edge that meets that diagonal touches one of its ends. */
  lemma SquareEar(i: int)
    requires 0 <= i < 4
    ensures var p := Square();
            Visibility.Ear(p, p[(i - 1) % 4], p[i], p[(i + 1) % 4], p[(i - 2) % 4], p[(i + 2) % 4])
  {
    var p := Square();
    var v0, v, v1, w := p[(i - 1) % 4], p[i], p[(i + 1) % 4], p[(i + 2) % 4];
    if i == 0 {
      assert v0 == p[3] && v == p[0] && v1 == p[1] && w == p[2] == p[(i - 2) % 4];
    } else if i == 1 {
      assert v0 == p[0] && v == p[1] && v1 == p[2] && w == p[3] == p[(i - 2) % 4];
    } else if i == 2 {
      assert v0 == p[1] && v == p[2] && v1 == p[3] && w == p[0] == p[(i - 2) % 4];
    } else {
      assert v0 == p[2] && v == p[3] && v1 == p[0] && w == p[1] == p[(i - 2) % 4];
    }
    SquareCorner(v0, v, v1, w);
    SquareDiagonalie(i);
  }

  /** No chain edge of the square blocks the diagonal joining the neighbours
      of corner i. */
  lemma SquareDiagonalie(i: int)
    requires 0 <= i < 4
    ensures var p := Square();
            Visibility.Diagonalie(p, p[(i - 1) % 4], p[(i + 1) % 4])
  {
    var p := Square();
    var a, b := p[(i - 1) % 4], p[(i + 1) % 4];
    forall j | 0 <= j < 3
      ensures !Visibility.BlocksAt(p, j, a, b)
    {
      SquareSide(i, j);
    }
  }

  /** Three consecutive corners v0, v, v1 of an axis-parallel square with
      side 2 and opposite corner w turn left, and each end of the diagonal
      v0-v1 lies in the cone at the other. */
  lemma SquareCorner(v0: Point, v: Point, v1: Point, w: Point)
    requires Area2(v0, v, v1) == 4.0 && Area2(v, v1, w) == 4.0
    requires Area2(v1, w, v0) == 4.0 && Area2(w, v0, v) == 4.0
    ensures Left(v0, v, v1)
    ensures InCone(w, v0, v, v, v1, w) && InCone(v, v1, w, w, v0, v)
  {
    Area2Symmetries(v0, v, v1);
    Area2Symmetries(v, v1, w);
    Area2Symmetries(v1, w, v0);
    Area2Symmetries(w, v0, v);
    InConeHalfPlanes(w, v0, v, v, v1, w);
    InConeHalfPlanes(v, v1, w, w, v0, v);
  }

  /** A chain edge j of the square does not block the diagonal between the
      neighbours of corner i. */
  lemma SquareSide(i: int, j: int)
    requires 0 <= i < 4 && 0 <= j < 3
    ensures var p := Square();
            !Visibility.BlocksAt(p, j, p[(i - 1) % 4], p[(i + 1) % 4])
  {
    var p := Square();
    var a, b := p[(i - 1) % 4], p[(i + 1) % 4];
    if p[j] != a && p[j] != b && p[j + 1] != a && p[j + 1] != b {
      // Both ends of edge j are then corner i or its opposite corner, which
      // are not adjacent: the edge cannot exist.
      assert false;
    }
  }

  /** Building the square makes four twin pairs and four pairs of flags, and
      vertex 0 neighbours vertex 1 first and vertex 3 second. */
  lemma SquareBuild()
    ensures var m := MeshBuilder.CreateInitialPolygon(Square());
            && |m.halfEdges| == 8 && |m.unvisited| == 8
            && 0 in m.adj && m.adj[0] == [1, 3]
  {
    var p := Square();
    var vs := MeshBuilder.MakeVertices(p);
    assert MeshBuilder.Positions(vs) == p;
    SquareIsConvexAndAllEars();
    var m := MeshBuilder.BuildWith(vs, true);
    assert MeshBuilder.CreateInitialPolygon(p) == m;
    MeshBuilder.BuildWithShape(p, true);
    var w := MeshBuilder.Walk(4, true);
    MeshBuilder.AddEdgesAdjacency(vs, w, 0);
    SquareWalkNeighbours();
  }

  /** The forward walk of four vertices enters vertex 1 and then vertex 3
      into vertex 0's list. */
  lemma SquareWalkNeighbours()
    ensures MeshBuilder.WalkNeighbours(MeshBuilder.Walk(4, true), 0) == [1, 3]
  {
    var w := MeshBuilder.Walk(4, true);
    var w1, w2, w3: seq<MeshBuilder.WalkEdge> := [(0, 1)], [(0, 1), (1, 2)], [(0, 1), (1, 2), (2, 3)];
    assert w == w3 + [(3, 0)];
    assert w1[..0] == [] && w2[..1] == w1 && w3[..2] == w2 && w[..3] == w3;
    assert MeshBuilder.WalkNeighbours(w1, 0) == [1];
    assert MeshBuilder.WalkNeighbours(w2, 0) == [1];
    assert MeshBuilder.WalkNeighbours(w3, 0) == [1];
  }

  /** The square listed clockwise is classified clockwise; its build still
      has eight half-edges, and vertex 0 again neighbours vertices 1 and 3,
      now reached by the walk's last edge first. */
  lemma ReversedSquareBuild()
    ensures var p := Orientation.Reverse(Square());
            && !Orientation.IsCounterClockwise(p)
            && var m := MeshBuilder.CreateInitialPolygon(p);
               && |m.halfEdges| == 8
               && 0 in m.adj && multiset(m.adj[0]) == multiset{1, 3}
  {
    var p := Orientation.Reverse(Square());
    SquareIsConvexAndAllEars();
    Orientation.ReverseFlipsOrientation(Square());
    MeshBuilder.BuildCounts(p);
    MeshBuilder.BuildAdjacency(p);
  }
}
