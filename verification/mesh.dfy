/** The initial half-edge mesh of a closed polygon. Every point becomes a
    white vertex keyed by its position. The point list is walked forwards
    when it winds counter-clockwise and backwards otherwise. Each edge of the
    walk adds one twin pair of half-edges, two unvisited-half-edge flags (both false)
    and one neighbour entry at each of its two endpoints. */
module MeshBuilder {
  import opened Geometry
  import Orientation
  import Cyclic

  /** A mesh vertex: coordinates, an RGB colour and its key. */
  datatype Vertex = Vertex(x: real, y: real, r: real, g: real, b: real, key: int)
  {
    function Pos(): Point
    {
      Point(x, y)
    }
  }

  /** A half-edge held in an index arena: the key of the vertex it leaves
      and the arena index of its twin. */
  datatype HalfEdge = HalfEdge(origin: int, twin: int)

  /** The mesh state the builder fills: vertices, the half-edge arena, the
      neighbour lists by vertex key, and the unvisited-half-edge flags, one per half-edge. */
  datatype Mesh = Mesh(vertices: seq<Vertex>, halfEdges: seq<HalfEdge>, adj: map<int, seq<int>>, unvisited: seq<bool>)

  /** A walk edge: the keys of the vertex it leaves and of the vertex it
      reaches. */
  type WalkEdge = (int, int)

  /** Each point becomes a vertex with the point's coordinates, the colour
      (1, 1, 1) and a key equal to its index. */
  function MakeVertices(points: seq<Point>): (vs: seq<Vertex>)
    ensures |vs| == |points|
    ensures forall i :: 0 <= i < |vs| ==> vs[i].key == i && vs[i].Pos() == points[i]
    ensures forall i :: 0 <= i < |vs| ==> vs[i].r == 1.0 && vs[i].g == 1.0 && vs[i].b == 1.0
  {
    seq(|points|, i requires 0 <= i < |points| => Vertex(points[i].x, points[i].y, 1.0, 1.0, 1.0, i))
  }

  function Positions(vs: seq<Vertex>): (ps: seq<Point>)
    ensures |ps| == |vs|
  {
    seq(|vs|, i requires 0 <= i < |vs| => vs[i].Pos())
  }

  /** The edge primitive of the mesh library, for an edge from a to b whose
      pair is stored at arena positions at and at + 1: the first half-edge
      leaves a, the second leaves b, and each names the other as its twin. */
  function CreateEdge(a: Vertex, b: Vertex, at: int): (HalfEdge, HalfEdge)
  {
    (HalfEdge(a.key, at + 1), HalfEdge(b.key, at))
  }

  /** Appends v to the neighbour list of k, creating an empty list first when
      k has none. */
  function Push(adj: map<int, seq<int>>, k: int, v: int): map<int, seq<int>>
  {
    adj[k := Neighbours(adj, k) + [v]]
  }

  /** The neighbour list of k, empty when k has none. */
  function Neighbours(adj: map<int, seq<int>>, k: int): seq<int>
  {
    if k in adj then adj[k] else []
  }

  /** One step of either walk: the edge from vertex a to vertex b. */
  function AddEdge(m: Mesh, a: int, b: int): Mesh
    requires 0 <= a < |m.vertices| && 0 <= b < |m.vertices|
  {
    var adj := Push(Push(m.adj, a, b), b, a);
    var pair := CreateEdge(m.vertices[a], m.vertices[b], |m.halfEdges|);
    Mesh(m.vertices, m.halfEdges + [pair.0, pair.1], adj, m.unvisited + [false, false])
  }

  predicate ValidWalk(n: int, walk: seq<WalkEdge>)
  {
    forall k :: 0 <= k < |walk| ==> 0 <= walk[k].0 < n && 0 <= walk[k].1 < n
  }

  /** The steps of a walk, taken in order. */
  function AddEdges(m: Mesh, walk: seq<WalkEdge>): (r: Mesh)
    requires ValidWalk(|m.vertices|, walk)
    ensures r.vertices == m.vertices
    decreases |walk|
  {
    if walk == [] then
      m
    else
      var last := walk[|walk| - 1];
      AddEdge(AddEdges(m, walk[..|walk| - 1]), last.0, last.1)
  }

  /** The order in which the builder visits the polygon's n edges: forwards
      (j, j + 1) for j = 0 .. n - 2 and then (n - 1, 0) when the points wind
      counter-clockwise; otherwise backwards (j, j - 1) for j = n - 1 down to
      1 and then (0, n - 1). Each step enters the neighbour entries at its
      first vertex and then at its second; for the backward closing edge the
      editor enters them at n - 1 first, which leaves the same lists, since
      the two entries go to different vertices or, when n is 1, are equal. */
  function Walk(n: int, ccw: bool): (w: seq<WalkEdge>)
    requires n >= 1
    ensures |w| == n
    ensures ValidWalk(n, w)
  {
    if ccw then
      seq(n - 1, j requires 0 <= j < n - 1 => (j, j + 1)) + [(n - 1, 0)]
    else
      seq(n - 1, k requires 0 <= k < n - 1 => (n - 1 - k, n - 2 - k)) + [(0, n - 1)]
  }

  function EmptyMesh(vertices: seq<Vertex>): Mesh
  {
    Mesh(vertices, [], map[], [])
  }

  /** The mesh built from the given vertices along the walk of the given
      direction. */
  function BuildWith(vertices: seq<Vertex>, ccw: bool): (m: Mesh)
    requires |vertices| >= 1
    ensures m.vertices == vertices
  {
    AddEdges(EmptyMesh(vertices), Walk(|vertices|, ccw))
  }

  /** The builder, from an empty mesh: make the vertices, classify the
      orientation of their coordinates and walk the polygon in the matching
      direction. An empty point list is outside its domain: the closing
      edge would index the vertex list at its length less one. */
  function CreateInitialPolygon(points: seq<Point>): Mesh
    requires |points| >= 1
  {
    var vertices := MakeVertices(points);
    BuildWith(vertices, Orientation.IsCounterClockwise(Positions(vertices)))
  }

  // ---------------------------------------------------------------------
  // The arena and the flags.

  /** Walk edge k becomes half-edges 2k (leaving its first vertex) and 2k + 1
      (leaving its second), each the twin of the other. */
  lemma {:induction false} AddEdgesArena(vertices: seq<Vertex>, walk: seq<WalkEdge>)
    requires forall i :: 0 <= i < |vertices| ==> vertices[i].key == i
    requires ValidWalk(|vertices|, walk)
    ensures var m := AddEdges(EmptyMesh(vertices), walk);
            && |m.halfEdges| == 2 * |walk|
            && (forall k :: 0 <= k < |walk| ==>
                  m.halfEdges[2 * k] == HalfEdge(walk[k].0, 2 * k + 1)
                  && m.halfEdges[2 * k + 1] == HalfEdge(walk[k].1, 2 * k))
    decreases |walk|
  {
    if walk != [] {
      var init, last := walk[..|walk| - 1], walk[|walk| - 1];
      assert ValidWalk(|vertices|, init);
      AddEdgesArena(vertices, init);
      var m' := AddEdges(EmptyMesh(vertices), init);
      var m := AddEdges(EmptyMesh(vertices), walk);
      var j := |init|;
      assert m == AddEdge(m', last.0, last.1);
      assert m'.vertices[last.0].key == last.0 && m'.vertices[last.1].key == last.1;
      assert m.halfEdges == m'.halfEdges + [HalfEdge(last.0, 2 * j + 1), HalfEdge(last.1, 2 * j)];
      forall k | 0 <= k < |walk|
        ensures m.halfEdges[2 * k] == HalfEdge(walk[k].0, 2 * k + 1)
        ensures m.halfEdges[2 * k + 1] == HalfEdge(walk[k].1, 2 * k)
      {
        if k < j {
          assert init[k] == walk[k];
          assert m.halfEdges[2 * k] == m'.halfEdges[2 * k];
          assert m.halfEdges[2 * k + 1] == m'.halfEdges[2 * k + 1];
        }
      }
    }
  }

  /** Every walk edge adds two flags, both false. */
  lemma {:induction false} AddEdgesFlags(vertices: seq<Vertex>, walk: seq<WalkEdge>)
    requires ValidWalk(|vertices|, walk)
    ensures var m := AddEdges(EmptyMesh(vertices), walk);
            && |m.unvisited| == 2 * |walk|
            && (forall e :: 0 <= e < |m.unvisited| ==> !m.unvisited[e])
    decreases |walk|
  {
    if walk != [] {
      var init := walk[..|walk| - 1];
      assert ValidWalk(|vertices|, init);
      AddEdgesFlags(vertices, init);
      var m' := AddEdges(EmptyMesh(vertices), init);
      assert AddEdges(EmptyMesh(vertices), walk).unvisited == m'.unvisited + [false, false];
    }
  }

  // ---------------------------------------------------------------------
  // Adjacency.

  /** The neighbour entries a walk gives vertex v, in insertion order: for
      each walk edge (a, b), b when v is a, then a when v is b. */
  function WalkNeighbours(walk: seq<WalkEdge>, v: int): seq<int>
    decreases |walk|
  {
    if walk == [] then
      []
    else
      var last := walk[|walk| - 1];
      WalkNeighbours(walk[..|walk| - 1], v)
      + (if last.0 == v then [last.1] else [])
      + (if last.1 == v then [last.0] else [])
  }

  /** Pushing x onto k's list extends k's list by x and leaves every other
      list as it was. */
  lemma PushNeighbours(adj: map<int, seq<int>>, k: int, x: int, v: int)
    ensures v in Push(adj, k, x) <==> v in adj || v == k
    ensures Neighbours(Push(adj, k, x), v) == Neighbours(adj, v) + (if v == k then [x] else [])
  {
  }

  /** The adjacency map holds exactly the vertices some walk edge touches,
      each with the neighbour entries of the walk in insertion order. */
  lemma {:induction false} AddEdgesAdjacency(vertices: seq<Vertex>, walk: seq<WalkEdge>, v: int)
    requires ValidWalk(|vertices|, walk)
    ensures var m := AddEdges(EmptyMesh(vertices), walk);
            && (v in m.adj <==> WalkNeighbours(walk, v) != [])
            && Neighbours(m.adj, v) == WalkNeighbours(walk, v)
    decreases |walk|
  {
    if walk != [] {
      var init, last := walk[..|walk| - 1], walk[|walk| - 1];
      assert ValidWalk(|vertices|, init);
      AddEdgesAdjacency(vertices, init, v);
      var m' := AddEdges(EmptyMesh(vertices), init);
      var adj1 := Push(m'.adj, last.0, last.1);
      PushNeighbours(m'.adj, last.0, last.1, v);
      PushNeighbours(adj1, last.1, last.0, v);
    }
  }

  /** Every walk edge is entered at both of its endpoints, so neighbourship
      is symmetric. */
  lemma {:induction false} WalkNeighboursSymmetric(walk: seq<WalkEdge>, u: int, v: int)
    ensures u in WalkNeighbours(walk, v) <==> v in WalkNeighbours(walk, u)
    decreases |walk|
  {
    if walk != [] {
      WalkNeighboursSymmetric(walk[..|walk| - 1], u, v);
    }
  }

  /** The neighbour entries of the first k forward edges (j, j + 1). */
  lemma {:induction false} ForwardPrefixNeighbours(n: int, k: int, v: int)
    requires n >= 1 && 0 <= k <= n - 1
    ensures WalkNeighbours(Walk(n, true)[..k], v)
            == (if 1 <= v <= k then [v - 1] else []) + (if 0 <= v < k then [v + 1] else [])
  {
    if k > 0 {
      var w := Walk(n, true);
      assert w[..k][..k - 1] == w[..k - 1];
      assert w[..k][k - 1] == (k - 1, k);
      ForwardPrefixNeighbours(n, k - 1, v);
    }
  }

  /** The neighbour entries of the first k backward edges (j, j - 1),
      j = n - 1, n - 2, .... */
  lemma {:induction false} BackwardPrefixNeighbours(n: int, k: int, v: int)
    requires n >= 1 && 0 <= k <= n - 1
    ensures WalkNeighbours(Walk(n, false)[..k], v)
            == (if n - 1 - k <= v <= n - 2 then [v + 1] else []) + (if n - k <= v <= n - 1 then [v - 1] else [])
  {
    if k > 0 {
      var w := Walk(n, false);
      assert w[..k][..k - 1] == w[..k - 1];
      assert w[..k][k - 1] == (n - k, n - k - 1);
      BackwardPrefixNeighbours(n, k - 1, v);
    }
  }

  /** The neighbour entries of the whole forward walk. */
  lemma ForwardNeighbours(n: int, v: int)
    requires n >= 1
    ensures WalkNeighbours(Walk(n, true), v)
            == (if 1 <= v <= n - 1 then [v - 1] else []) + (if 0 <= v < n - 1 then [v + 1] else [])
               + (if v == n - 1 then [0] else []) + (if v == 0 then [n - 1] else [])
  {
    var w := Walk(n, true);
    ForwardPrefixNeighbours(n, n - 1, v);
    assert w[n - 1] == (n - 1, 0);
  }

  /** The neighbour entries of the whole backward walk. */
  lemma BackwardNeighbours(n: int, v: int)
    requires n >= 1
    ensures WalkNeighbours(Walk(n, false), v)
            == (if 0 <= v <= n - 2 then [v + 1] else []) + (if 1 <= v <= n - 1 then [v - 1] else [])
               + (if v == 0 then [n - 1] else []) + (if v == n - 1 then [0] else [])
  {
    var w := Walk(n, false);
    BackwardPrefixNeighbours(n, n - 1, v);
    assert w[n - 1] == (0, n - 1);
  }

  /** The two cyclic neighbours of vertex v of an n-gon: the same vertex
      twice when n is 2, and v itself twice when n is 1. */
  function CyclicNeighbours(n: int, v: int): multiset<int>
    requires n >= 1
  {
    multiset{(v + 1) % n, (v - 1) % n}
  }

  /** A list that holds a and b in either order holds the multiset {a, b}. */
  lemma PairMultiset(s: seq<int>, a: int, b: int)
    requires s == [a, b] || s == [b, a]
    ensures multiset(s) == multiset{a, b}
  {
    assert s == [s[0]] + [s[1]];
  }

  /** The cyclic successor and predecessor of vertex v. */
  lemma CyclicSteps(n: int, v: int)
    requires n >= 1 && 0 <= v < n
    ensures (v + 1) % n == if v == n - 1 then 0 else v + 1
    ensures (v - 1) % n == if v == 0 then n - 1 else v - 1
  {
    Cyclic.Wrap(n);
  }

  /** The neighbour entries of v in either walk, as a list: for every
      vertex of the polygon, its two cyclic neighbours in some order. */
  lemma WalkNeighboursPair(n: int, ccw: bool, v: int)
    requires n >= 1 && 0 <= v < n
    ensures var nb := WalkNeighbours(Walk(n, ccw), v);
            nb == [(v + 1) % n, (v - 1) % n] || nb == [(v - 1) % n, (v + 1) % n]
  {
    if ccw {
      ForwardPair(n, v);
      OrderedPair(n, v, WalkNeighbours(Walk(n, true), v), true);
    } else {
      BackwardPair(n, v);
      OrderedPair(n, v, WalkNeighbours(Walk(n, false), v), false);
    }
  }

  /** The lists the two walks give vertex v hold its cyclic successor and
      predecessor in one order or the other. */
  lemma OrderedPair(n: int, v: int, nb: seq<int>, fwd: bool)
    requires n >= 1 && 0 <= v < n
    requires nb == if n == 1 then [0, 0] else if v == 0 then [1, n - 1] else if v == n - 1 then [n - 2, 0]
                   else if fwd then [v - 1, v + 1] else [v + 1, v - 1]
    ensures nb == [(v + 1) % n, (v - 1) % n] || nb == [(v - 1) % n, (v + 1) % n]
  {
    var succ, pred := (v + 1) % n, (v - 1) % n;
    CyclicSteps(n, v);
    if n == 1 {
      assert succ == 0 && pred == 0;
    } else if v == 0 {
      assert succ == 1 && pred == n - 1;
    } else if v == n - 1 {
      assert succ == 0 && pred == n - 2;
    } else {
      assert succ == v + 1 && pred == v - 1;
    }
  }

  /** The forward walk enters the predecessor of v first, then its
      successor, except at vertex 0, which receives 1 first and then, from
      the closing edge, n - 1. */
  lemma ForwardPair(n: int, v: int)
    requires n >= 1 && 0 <= v < n
    ensures WalkNeighbours(Walk(n, true), v)
            == if n == 1 then [0, 0] else if v == 0 then [1, n - 1] else if v == n - 1 then [n - 2, 0] else [v - 1, v + 1]
  {
    ForwardNeighbours(n, v);
  }

  /** The backward walk enters the successor of v first, then its
      predecessor, except at vertex 0, which receives 1 first and then, from
      the closing edge, n - 1. */
  lemma BackwardPair(n: int, v: int)
    requires n >= 1 && 0 <= v < n
    ensures WalkNeighbours(Walk(n, false), v)
            == if n == 1 then [0, 0] else if v == 0 then [1, n - 1] else if v == n - 1 then [n - 2, 0] else [v + 1, v - 1]
  {
    BackwardNeighbours(n, v);
  }

  /** In either walk every vertex 0 .. n - 1 has its two cyclic neighbours
      as entries, and no other key has any. */
  lemma WalkNeighboursCyclic(n: int, ccw: bool, v: int)
    requires n >= 1
    ensures 0 <= v < n ==> multiset(WalkNeighbours(Walk(n, ccw), v)) == CyclicNeighbours(n, v)
    ensures !(0 <= v < n) ==> WalkNeighbours(Walk(n, ccw), v) == []
  {
    if 0 <= v < n {
      WalkNeighboursPair(n, ccw, v);
      PairMultiset(WalkNeighbours(Walk(n, ccw), v), (v + 1) % n, (v - 1) % n);
    } else if ccw {
      ForwardNeighbours(n, v);
    } else {
      BackwardNeighbours(n, v);
    }
  }

  // ---------------------------------------------------------------------
  // The walk order.

  /** Walk edge k leaves vertex k and reaches its cyclic successor in the
      forward walk, and leaves vertex n - 1 - k and reaches its cyclic
      predecessor in the backward walk. */
  lemma WalkEdgeAt(n: int, ccw: bool, k: int)
    requires n >= 1 && 0 <= k < n
    ensures ccw ==> Walk(n, ccw)[k] == (k, (k + 1) % n)
    ensures !ccw ==> Walk(n, ccw)[k] == (n - 1 - k, (n - 2 - k) % n)
  {
    Cyclic.Wrap(n);
  }

  /** The arena and flags of a mesh built along the walk of the given
      direction over n vertices: 2n half-edges and 2n false flags; pair k
      is a twin pair leaving vertex k towards k + 1 (forwards) or vertex
      n - 1 - k towards n - 2 - k (backwards), indices taken modulo n. */
  predicate WalkShaped(m: Mesh, n: int, ccw: bool)
    requires n >= 1
  {
    && |m.halfEdges| == 2 * n && |m.unvisited| == 2 * n
    && (forall e :: 0 <= e < 2 * n ==> !m.unvisited[e])
    && (forall k :: 0 <= k < n ==>
          && m.halfEdges[2 * k].twin == 2 * k + 1 && m.halfEdges[2 * k + 1].twin == 2 * k
          && (ccw ==> m.halfEdges[2 * k].origin == k && m.halfEdges[2 * k + 1].origin == (k + 1) % n)
          && (!ccw ==> m.halfEdges[2 * k].origin == n - 1 - k && m.halfEdges[2 * k + 1].origin == (n - 2 - k) % n))
  }

  /** The mesh built along either walk has the shape of that walk: pair k
      holds the half-edge leaving the walk's k-th vertex and its twin leaving
      the next one. */
  lemma BuildWithShape(points: seq<Point>, ccw: bool)
    requires |points| >= 1
    ensures WalkShaped(BuildWith(MakeVertices(points), ccw), |points|, ccw)
  {
    var n, vs := |points|, MakeVertices(points);
    var w, m := Walk(n, ccw), BuildWith(vs, ccw);
    AddEdgesArena(vs, w);
    AddEdgesFlags(vs, w);
    forall k | 0 <= k < n
      ensures m.halfEdges[2 * k].twin == 2 * k + 1 && m.halfEdges[2 * k + 1].twin == 2 * k
      ensures ccw ==> m.halfEdges[2 * k].origin == k && m.halfEdges[2 * k + 1].origin == (k + 1) % n
      ensures !ccw ==> m.halfEdges[2 * k].origin == n - 1 - k && m.halfEdges[2 * k + 1].origin == (n - 2 - k) % n
    {
      WalkEdgeAt(n, ccw, k);
      assert m.halfEdges[2 * k] == HalfEdge(w[k].0, 2 * k + 1);
      assert m.halfEdges[2 * k + 1] == HalfEdge(w[k].1, 2 * k);
    }
  }

  /** The mesh built along either walk gives neighbour lists to vertices
      0 .. n - 1 only, each holding the vertex's two cyclic neighbours. */
  lemma BuildWithAdjacency(points: seq<Point>, ccw: bool)
    requires |points| >= 1
    ensures var n, m := |points|, BuildWith(MakeVertices(points), ccw);
            && (forall v :: v in m.adj <==> 0 <= v < n)
            && (forall v :: 0 <= v < n ==> multiset(m.adj[v]) == CyclicNeighbours(n, v))
  {
    var n, m := |points|, BuildWith(MakeVertices(points), ccw);
    forall v
      ensures v in m.adj <==> 0 <= v < n
    {
      BuildWithNeighboursAt(points, ccw, v);
    }
    forall v | 0 <= v < n
      ensures multiset(m.adj[v]) == CyclicNeighbours(n, v)
    {
      BuildWithNeighboursAt(points, ccw, v);
    }
  }

  /** Neighbourship in the built mesh is symmetric. */
  lemma BuildWithSymmetric(points: seq<Point>, ccw: bool)
    requires |points| >= 1
    ensures var n, m := |points|, BuildWith(MakeVertices(points), ccw);
            forall u, v :: 0 <= u < n && 0 <= v < n ==> (u in Neighbours(m.adj, v) <==> v in Neighbours(m.adj, u))
  {
    var n, m := |points|, BuildWith(MakeVertices(points), ccw);
    forall u, v | 0 <= u < n && 0 <= v < n
      ensures u in Neighbours(m.adj, v) <==> v in Neighbours(m.adj, u)
    {
      BuildWithSymmetricAt(points, ccw, u, v);
    }
  }

  /** One pair of vertices: each is in the other's list or neither is. */
  lemma BuildWithSymmetricAt(points: seq<Point>, ccw: bool, u: int, v: int)
    requires |points| >= 1
    ensures var m := BuildWith(MakeVertices(points), ccw);
            u in Neighbours(m.adj, v) <==> v in Neighbours(m.adj, u)
  {
    var vs := MakeVertices(points);
    var w := Walk(|points|, ccw);
    AddEdgesAdjacency(vs, w, u);
    AddEdgesAdjacency(vs, w, v);
    WalkNeighboursSymmetric(w, u, v);
  }

  /** One vertex: it has a list exactly when it is a polygon vertex, and the
      list holds its two cyclic neighbours. */
  lemma BuildWithNeighboursAt(points: seq<Point>, ccw: bool, v: int)
    requires |points| >= 1
    ensures var n, m := |points|, BuildWith(MakeVertices(points), ccw);
            && (v in m.adj <==> 0 <= v < n)
            && (0 <= v < n ==> multiset(m.adj[v]) == CyclicNeighbours(n, v))
  {
    var n, vs := |points|, MakeVertices(points);
    var w := Walk(n, ccw);
    AddEdgesAdjacency(vs, w, v);
    WalkNeighboursCyclic(n, ccw, v);
    if 0 <= v < n {
      assert |multiset(WalkNeighbours(w, v))| == 2;
    }
  }

  /** The n sides of the polygon, as unordered pairs of vertex keys. */
  function Side(n: int, i: int): set<int>
    requires n >= 1
  {
    {i, (i + 1) % n}
  }

  function PolygonSides(n: int): set<set<int>>
    requires n >= 1
  {
    set i | 0 <= i < n :: Side(n, i)
  }

  /** The unordered pair of vertex keys of half-edge pair k. */
  function PairSide(m: Mesh, k: int): set<int>
    requires 0 <= 2 * k && 2 * k + 1 < |m.halfEdges|
  {
    {m.halfEdges[2 * k].origin, m.halfEdges[2 * k + 1].origin}
  }

  /** The undirected edges of a mesh: one per half-edge pair. */
  function UndirectedEdges(m: Mesh): set<set<int>>
  {
    set k | 0 <= k < |m.halfEdges| / 2 :: PairSide(m, k)
  }

  /** Either walk makes the polygon's sides the mesh's undirected edges. */
  lemma BuildWithSides(points: seq<Point>, ccw: bool)
    requires |points| >= 1
    ensures UndirectedEdges(BuildWith(MakeVertices(points), ccw)) == PolygonSides(|points|)
  {
    var n, m := |points|, BuildWith(MakeVertices(points), ccw);
    BuildWithShape(points, ccw);
    assert |m.halfEdges| / 2 == n;
    forall s | s in UndirectedEdges(m)
      ensures s in PolygonSides(n)
    {
      var k :| 0 <= k < n && s == PairSide(m, k);
      PairIsSide(points, ccw, k);
    }
    forall s | s in PolygonSides(n)
      ensures s in UndirectedEdges(m)
    {
      var i :| 0 <= i < n && s == Side(n, i);
      SideIsPair(points, ccw, i);
    }
  }

  /** Pair k of the built mesh joins the ends of one polygon side. */
  lemma PairIsSide(points: seq<Point>, ccw: bool, k: int)
    requires |points| >= 1 && 0 <= k < |points|
    ensures var n, m := |points|, BuildWith(MakeVertices(points), ccw);
            |m.halfEdges| == 2 * n && PairSide(m, k) in PolygonSides(n)
  {
    var n, m := |points|, BuildWith(MakeVertices(points), ccw);
    BuildWithShape(points, ccw);
    Cyclic.Wrap(n);
    var i := if ccw then k else (n - 2 - k) % n;
    assert 0 <= i < n;
    assert PairSide(m, k) == Side(n, i);
  }

  /** Every polygon side is joined by some pair of the built mesh. */
  lemma SideIsPair(points: seq<Point>, ccw: bool, i: int)
    requires |points| >= 1 && 0 <= i < |points|
    ensures var n, m := |points|, BuildWith(MakeVertices(points), ccw);
            |m.halfEdges| == 2 * n && Side(n, i) in UndirectedEdges(m)
  {
    var n, m := |points|, BuildWith(MakeVertices(points), ccw);
    BuildWithShape(points, ccw);
    Cyclic.Wrap(n);
    var k := if ccw then i else (n - 2 - i) % n;
    assert 0 <= k < n;
    assert Side(n, i) == PairSide(m, k);
    assert |m.halfEdges| / 2 == n;
  }

  // ---------------------------------------------------------------------
  // Properties of the builder.

  /** Vertex i carries point i's coordinates, the colour (1, 1, 1) and key i;
      the mesh has 2n half-edges and 2n flags, all false; every half-edge has
      a twin other than itself, whose twin it is. */
  lemma BuildCounts(points: seq<Point>)
    requires |points| >= 1
    ensures var n, m := |points|, CreateInitialPolygon(points);
            && |m.vertices| == n
            && (forall i :: 0 <= i < n ==> m.vertices[i] == Vertex(points[i].x, points[i].y, 1.0, 1.0, 1.0, i))
            && |m.halfEdges| == 2 * n && |m.unvisited| == 2 * n
            && (forall e :: 0 <= e < 2 * n ==> !m.unvisited[e])
            && (forall e :: 0 <= e < 2 * n ==>
                  && 0 <= m.halfEdges[e].twin < 2 * n && m.halfEdges[e].twin != e
                  && m.halfEdges[m.halfEdges[e].twin].twin == e)
  {
    var n, vs := |points|, MakeVertices(points);
    var ccw := Orientation.IsCounterClockwise(Positions(vs));
    var m := BuildWith(vs, ccw);
    BuildWithShape(points, ccw);
    forall e | 0 <= e < 2 * n
      ensures 0 <= m.halfEdges[e].twin < 2 * n && m.halfEdges[e].twin != e
      ensures m.halfEdges[m.halfEdges[e].twin].twin == e
    {
      var k := e / 2;
      assert e == 2 * k || e == 2 * k + 1;
    }
  }

  /** Vertices 0 .. n - 1 and no other keys have neighbour lists; each
      holds exactly the vertex's two cyclic neighbours (so two entries), and
      u is a neighbour of v exactly when v is a neighbour of u. */
  lemma BuildAdjacency(points: seq<Point>)
    requires |points| >= 1
    ensures var n, m := |points|, CreateInitialPolygon(points);
            && (forall v :: v in m.adj <==> 0 <= v < n)
            && (forall v :: 0 <= v < n ==> |m.adj[v]| == 2)
            && (forall v :: 0 <= v < n ==> multiset(m.adj[v]) == CyclicNeighbours(n, v))
            && (forall u, v :: 0 <= u < n && 0 <= v < n ==> (u in Neighbours(m.adj, v) <==> v in Neighbours(m.adj, u)))
  {
    var n, vs := |points|, MakeVertices(points);
    var ccw := Orientation.IsCounterClockwise(Positions(vs));
    var m := BuildWith(vs, ccw);
    BuildWithAdjacency(points, ccw);
    BuildWithSymmetric(points, ccw);
    forall v | 0 <= v < n
      ensures |m.adj[v]| == 2
    {
      assert |multiset(m.adj[v])| == 2;
    }
  }

  /** Counter-clockwise points are walked forwards: pair k leaves vertex k
      towards its successor. Other points are walked backwards: pair k
      leaves vertex n - 1 - k towards its predecessor, so the last pair
      leaves vertex 0 towards vertex n - 1. */
  lemma BuildWalkOrder(points: seq<Point>)
    requires |points| >= 1
    ensures var n, m := |points|, CreateInitialPolygon(points);
            && |m.halfEdges| == 2 * n
            && (Orientation.IsCounterClockwise(points) ==> forall k :: 0 <= k < n ==>
                  m.halfEdges[2 * k].origin == k && m.halfEdges[2 * k + 1].origin == (k + 1) % n)
            && (!Orientation.IsCounterClockwise(points) ==> forall k :: 0 <= k < n ==>
                  m.halfEdges[2 * k].origin == n - 1 - k && m.halfEdges[2 * k + 1].origin == (n - 2 - k) % n)
  {
    var vs := MakeVertices(points);
    assert Positions(vs) == points;
    BuildWithShape(points, Orientation.IsCounterClockwise(points));
  }

  /** The first half-edges of the pairs, taken in creation order, form one
      closed boundary cycle: each arrives where the next one leaves, and the
      last arrives where the first leaves. */
  lemma BuildBoundaryCycle(points: seq<Point>)
    requires |points| >= 1
    ensures var n, m := |points|, CreateInitialPolygon(points);
            && |m.halfEdges| == 2 * n
            && forall k :: 0 <= k < n ==> m.halfEdges[2 * k + 1].origin == m.halfEdges[2 * ((k + 1) % n)].origin
  {
    var n, vs := |points|, MakeVertices(points);
    assert Positions(vs) == points;
    var ccw := Orientation.IsCounterClockwise(points);
    var m := CreateInitialPolygon(points);
    BuildWithShape(points, ccw);
    Cyclic.Wrap(n);
    forall k | 0 <= k < n
      ensures m.halfEdges[2 * k + 1].origin == m.halfEdges[2 * ((k + 1) % n)].origin
    {
      var k' := (k + 1) % n;
      assert 0 <= k' < n;
      assert m.halfEdges[2 * k'].origin == if ccw then k' else n - 1 - k';
    }
  }

  /** The vertices in the order the boundary cycle leaves them. */
  function CycleOrigins(points: seq<Point>, m: Mesh): seq<Point>
    requires |m.halfEdges| == 2 * |points|
    requires forall k :: 0 <= k < |points| ==> 0 <= m.halfEdges[2 * k].origin < |points|
  {
    seq(|points|, k requires 0 <= k < |points| => points[m.halfEdges[2 * k].origin])
  }

  /** The boundary cycle winds counter-clockwise or is degenerate: its
      shoelace sum is never negative, and it is strictly positive whenever
      the input polygon's is non-zero. */
  lemma BuildTracesCounterClockwise(points: seq<Point>)
    requires |points| >= 1
    ensures var m := CreateInitialPolygon(points);
            && |m.halfEdges| == 2 * |points|
            && (forall k :: 0 <= k < |points| ==> 0 <= m.halfEdges[2 * k].origin < |points|)
            && Orientation.Shoelace(CycleOrigins(points, m)) >= 0.0
            && (Orientation.Shoelace(points) != 0.0 ==> Orientation.Shoelace(CycleOrigins(points, m)) > 0.0)
  {
    var vs := MakeVertices(points);
    assert Positions(vs) == points;
    var ccw := Orientation.IsCounterClockwise(points);
    assert CreateInitialPolygon(points) == BuildWith(vs, ccw);
    CycleOriginsWith(points, ccw);
    if !ccw {
      Orientation.ShoelaceReverse(points);
    }
    if |points| < 3 {
      Orientation.ShoelaceDegenerate(points);
    }
  }

  /** The forward walk's cycle leaves the points in their own order, the
      backward walk's in the reverse order. */
  lemma CycleOriginsWith(points: seq<Point>, ccw: bool)
    requires |points| >= 1
    ensures var n, m := |points|, BuildWith(MakeVertices(points), ccw);
            && |m.halfEdges| == 2 * n
            && (forall k :: 0 <= k < n ==> 0 <= m.halfEdges[2 * k].origin < n)
            && CycleOrigins(points, m) == if ccw then points else Orientation.Reverse(points)
  {
    BuildWithShape(points, ccw);
    ShapedCycleOrigins(points, BuildWith(MakeVertices(points), ccw), ccw);
  }

  /** The cycle of a walk-shaped mesh leaves the points in walk order. */
  lemma ShapedCycleOrigins(points: seq<Point>, m: Mesh, ccw: bool)
    requires |points| >= 1 && WalkShaped(m, |points|, ccw)
    ensures var n := |points|;
            && (forall k :: 0 <= k < n ==> 0 <= m.halfEdges[2 * k].origin < n)
            && CycleOrigins(points, m) == if ccw then points else Orientation.Reverse(points)
  {
    var n := |points|;
    var o := CycleOrigins(points, m);
    var r := if ccw then points else Orientation.Reverse(points);
    forall k | 0 <= k < n
      ensures o[k] == r[k]
    {
      assert m.halfEdges[2 * k].origin == if ccw then k else n - 1 - k;
    }
    assert o == r;
  }

  /** Both walk directions build the same undirected mesh: the same sides
      and, at every vertex, the same multiset of neighbours. */
  lemma WalkDirectionsAgree(points: seq<Point>)
    requires |points| >= 1
    ensures var fwd, bwd := BuildWith(MakeVertices(points), true), BuildWith(MakeVertices(points), false);
            && UndirectedEdges(fwd) == UndirectedEdges(bwd)
            && fwd.adj.Keys == bwd.adj.Keys
            && (forall v :: v in fwd.adj ==> multiset(fwd.adj[v]) == multiset(bwd.adj[v]))
  {
    BuildWithSides(points, true);
    BuildWithSides(points, false);
    BuildWithAdjacency(points, true);
    BuildWithAdjacency(points, false);
    var fwd, bwd := BuildWith(MakeVertices(points), true), BuildWith(MakeVertices(points), false);
    assert forall v :: v in fwd.adj.Keys <==> v in bwd.adj.Keys;
  }
}
