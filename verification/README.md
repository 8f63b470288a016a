# Polygon editor core: predicates, ear test and initial half-edge mesh

This project models the computational-geometry core of a small interactive
polygon editor (`trabalho1/src/main.cpp`). The editor collects the clicked
points of a polygon. On a key press it decides whether the polygon winds
counter-clockwise and builds the initial half-edge mesh of the polygon, with
vertex records, twin half-edge pairs, unvisited-half-edge flags and
neighbour lists.

The same file also defines two per-vertex diagnostics. One classifies each
vertex as convex or reflex. The other classifies each vertex as an ear or
not, following the ear-clipping predicates of O'Rourke's *Computational
Geometry in C*. The editor never calls them: the calls in the mouse handler
are commented out (lines 365-367). The ear predicates `ear`, `diagonal`,
`diagonalie`, `inCone`, `intersect` and `between` are therefore reachable
only through code the program does not run. The model states what they
would compute if called.

The model is functional, written in Dafny. The modules are:

- `Cyclic` (`cyclic.dfy`): one lemma about `%` on indices just outside
  `0 .. n - 1`.
- `Geometry` (`geometry.dfy`):
  - the signed area `Area2`;
  - the sidedness predicates `Left`, `LeftOn`, `Collinear` and `IsConvex`;
  - `Xor`, `IntersectionProp`, `Between` and `Intersect`;
  - the cone test `InCone`;
  - their algebra.
- `Visibility` (`visibility.dfy`):
  - `Diagonalie`, which is the scan over the chain edges;
  - `Diagonal` and `Ear`;
  - the two per-vertex diagnostics `VerifyAngle` and `EarVerify`, each
    returned as the sequence of verdicts it prints.
- `Orientation` (`orientation.dfy`): the anchor-fan orientation test and its
  agreement with the shoelace sum.
- `MeshBuilder` (`mesh.dfy`): the initial mesh, built as a fold of one edge
  step over the walk the orientation selects.
- `Scenarios` (`scenarios.dfy`): three collinear points, and the square with
  corners (-1, -1), (1, -1), (1, 1), (-1, 1) listed in both orders.

Choices made in the model:

- **Coordinates.** They are exact `real`s, and points are 2-D. The editor's
  third coordinate is always 0 and no predicate reads it. Comparing two
  `std::array<float,3>` points therefore compares their x and y.
- **Global state.** The editor's global point list is an explicit parameter.
- **Error paths.** An empty point list makes `points.size() - 1` wrap
  around, because it is unsigned. `diagonalie` and `createInitialPolygon`
  then index out of range. The model keeps those two operations to non-empty
  lists, with `requires |points| >= 1`. It models one and two points exactly
  as written: a self-loop and a doubled edge.
- **Mesh record.** It is a value holding four parts:
  - the vertex list;
  - an arena of half-edges, each storing the key of the vertex it leaves and
    the arena index of its twin;
  - the neighbour map;
  - the flag list, named `unvisited` after the editor's
    `unvisited_half_edge`; every entry starts false.
- **Edge primitive.** `createEdge` belongs to the mesh library, which is not
  part of this model. `MeshBuilder.CreateEdge` stands for it. For the pair
  created at arena position `2k`, half-edge `2k` leaves the edge's first
  vertex and half-edge `2k + 1` leaves its second. Each names the other as
  its twin by arena index. In the editor the twin link and the origin are
  pointers, and they point at heap objects and vertex records, not at the
  copies in `h`.

## Model

| member | source | states |
|---|---|---|
| `Geometry.Area2` | trabalho1/src/main.cpp:126-135 | The six-term sum is the cross product of the edge vectors b − a and c − a: twice the signed area of triangle abc. |
| `Geometry.Area2Symmetries` | trabalho1/src/main.cpp:126-135 | The signed area is unchanged by rotating its arguments, negated by swapping two of them, and zero when two of them coincide. |
| `Geometry.LeftIsNormalSide` | trabalho1/src/main.cpp:137-150 | `left`, `leftOn` and `collinear` test whether c lies strictly left of, left of or on, or exactly on the directed line a → b. Each is the sign of c − a projected on the left normal of b − a. |
| `Geometry.SidePredicateRelations` | trabalho1/src/main.cpp:137-150 | `left` implies `leftOn`. `leftOn(a,b,c)` holds exactly when `left(b,a,c)` fails. `collinear` is `leftOn` without `left`. |
| `Geometry.SideTrichotomy` | trabalho1/src/main.cpp:137-150 | Exactly one holds: c is left of a → b, c is on the line, or c is left of b → a. |
| `Geometry.IsConvexIsLeft` | trabalho1/src/main.cpp:247-251 | `isConvex(a,b,c)` is the same test as `left(a,b,c)`. |
| `Geometry.Xor` | trabalho1/src/main.cpp:152-155 | `!x ^ !y` is true exactly when the two booleans differ. |
| `Geometry.IntersectionProp` | trabalho1/src/main.cpp:157-168 | Proper intersection fails whenever any of the four triples is collinear. When it holds, c and d lie on opposite sides of ab, and a and b on opposite sides of cd. |
| `Geometry.IntersectionPropIsStraddle` | trabalho1/src/main.cpp:157-168 | Proper intersection holds exactly when both pairs of signed areas have a strictly negative product. |
| `Geometry.IntersectionPropSymmetric` | trabalho1/src/main.cpp:157-168 | Proper intersection is unchanged by exchanging the two segments or reversing the first one. |
| `Geometry.Between` | trabalho1/src/main.cpp:170-184 | `between` implies collinearity and holds at both endpoints of the segment. |
| `Geometry.BetweenIsOnSegment` | trabalho1/src/main.cpp:170-184 | For a ≠ b, `between(a,b,c)` holds exactly when c is on line ab and inside the closed segment: (c − a)·(c − b) ≤ 0. The choice of the x or the y extent does not matter. |
| `Geometry.BetweenDegenerateSegment` | trabalho1/src/main.cpp:170-184 | For a zero-length segment the test falls to its y branch: `between(a,a,c)` holds exactly when c has a's y, even when c is elsewhere. |
| `Geometry.BetweenSymmetric` | trabalho1/src/main.cpp:170-184 | `between` does not depend on the direction of the segment. |
| `Geometry.Intersect` | trabalho1/src/main.cpp:186-201 | Proper intersection implies `intersect`, and so does any shared endpoint. |
| `Geometry.IntersectSymmetric` | trabalho1/src/main.cpp:186-201 | `intersect` is unchanged by exchanging the segments or reversing the first one. |
| `Geometry.InConeHalfPlanes` | trabalho1/src/main.cpp:216-223 | At a convex vertex v, b is in the cone exactly when it is strictly left of both v0 → v and v → v1. At a reflex vertex, when it is strictly left of either. |
| `Geometry.InConeExcludesNeighbours` | trabalho1/src/main.cpp:216-223 | Neither the vertex nor either of its neighbours is in its cone. |
| `Visibility.ScanFrom` | trabalho1/src/main.cpp:205-213 | The scan from edge i succeeds exactly when none of the edges i .. n − 2 blocks the segment. |
| `Visibility.Diagonalie` | trabalho1/src/main.cpp:203-214 | `diagonalie(v1, v2)` fails exactly when some edge points[i] → points[i+1], 0 ≤ i ≤ n − 2, meets segment v1v2 and has neither endpoint equal to v1 or v2. |
| `Visibility.DiagonalieSymmetric` | trabalho1/src/main.cpp:203-214 | `diagonalie` does not depend on the order of its two points. |
| `Visibility.DiagonalieSkipsClosingEdge` | trabalho1/src/main.cpp:205 | The closing edge points[n−1] → points[0] is never examined. In a five-point polygon, a segment that properly crosses that edge still passes. |
| `Visibility.Diagonal` | trabalho1/src/main.cpp:225-228 | A diagonal's endpoints differ, and neither is the other's neighbour. Its segment passes `diagonalie`. |
| `Visibility.DiagonalSymmetric` | trabalho1/src/main.cpp:225-228 | Being a diagonal does not depend on which endpoint comes first. |
| `Visibility.Ear` | trabalho1/src/main.cpp:272-279 | `ear` fails without a strict left turn at v. Otherwise it holds exactly when each end of v0v1 lies in the cone at the other and `diagonalie(v0, v1)` holds. An ear's three points are distinct, and v1 ≠ v00, v0 ≠ v11. |
| `Visibility.VerifyAngle` | trabalho1/src/main.cpp:253-270 | No verdicts for fewer than 3 points. Otherwise one verdict per vertex, which is `isConvex(p[i−1], p[i], p[i+1])` with indices mod n. |
| `Visibility.EarVerify` | trabalho1/src/main.cpp:281-293 | No verdicts for fewer than 4 points, otherwise one verdict per vertex. |
| `Visibility.EarVerifyIsCyclic` | trabalho1/src/main.cpp:281-293 | The five hand-written cases compute `ear(p[i−1], p[i], p[i+1], p[i−2], p[i+2])` for every vertex i, with indices mod n. |
| `Orientation.FanChainTelescopes` | trabalho1/src/main.cpp:237-240 | After k steps of the loop, the anchor terms cancel. The running total is the cross-product sum of the first k edges plus two anchor terms at the chain's ends. |
| `Orientation.FanTotal` | trabalho1/src/main.cpp:234-241 | The anchor-fan total, closing edge included, equals the shoelace sum for every anchor. |
| `Orientation.IsCounterClockwise` | trabalho1/src/main.cpp:230-245 | False for fewer than 3 vertices. Otherwise true exactly when the shoelace sum is strictly positive, so a zero total counts as clockwise. |
| `Orientation.ShoelaceReverse` | trabalho1/src/main.cpp:237-241 | Listing the vertices in the opposite order negates the total. |
| `Orientation.ReverseFlipsOrientation` | trabalho1/src/main.cpp:230-245 | Reversing a polygon of non-zero area flips the classification. A polygon of zero area is clockwise in both orders. |
| `MeshBuilder.MakeVertices` | trabalho1/src/main.cpp:297-303 | Vertex i carries point i's coordinates, the colour (1, 1, 1) and key i. |
| `MeshBuilder.Walk` | trabalho1/src/main.cpp:306-356 | Either walk has exactly n edges, all between vertices 0 .. n − 1. |
| `MeshBuilder.AddEdgesArena` | trabalho1/src/main.cpp:314-316 | Walk edge k becomes half-edges 2k and 2k + 1. They leave the edge's first and second vertex, and each is the other's twin. |
| `MeshBuilder.AddEdgesFlags` | trabalho1/src/main.cpp:317-318 | Every edge appends two flags, all false. |
| `MeshBuilder.AddEdgesAdjacency` | trabalho1/src/main.cpp:312-313 | A vertex has a neighbour list exactly when some walk edge touches it. The list holds the walk's entries for it, in insertion order. |
| `MeshBuilder.WalkNeighboursSymmetric` | trabalho1/src/main.cpp:312-313 | Every step enters each endpoint into the other's list, so u is listed at v exactly when v is listed at u. |
| `MeshBuilder.ForwardNeighbours` | trabalho1/src/main.cpp:308-324 | The forward walk gives vertex v the list [v − 1, v + 1]. Vertex 0 gets [1, n − 1] and vertex n − 1 gets [n − 2, 0]. |
| `MeshBuilder.BackwardNeighbours` | trabalho1/src/main.cpp:333-350 | The backward walk gives vertex v the list [v + 1, v − 1]. Vertex 0 gets [1, n − 1] and vertex n − 1 gets [n − 2, 0]. |
| `MeshBuilder.WalkNeighboursCyclic` | trabalho1/src/main.cpp:306-356 | In either walk, vertex v's entries are the multiset {v + 1, v − 1} mod n, and keys outside 0 .. n − 1 get none. |
| `MeshBuilder.BuildWithShape` | trabalho1/src/main.cpp:306-356 | The mesh has 2n half-edges and 2n false flags. Forwards, pair k leaves vertex k towards k + 1. Backwards, it leaves n − 1 − k towards n − 2 − k. Indices are mod n. |
| `MeshBuilder.BuildWithAdjacency` | trabalho1/src/main.cpp:306-356 | Exactly vertices 0 .. n − 1 have lists, each holding the vertex's two cyclic neighbours. |
| `MeshBuilder.BuildWithSymmetric` | trabalho1/src/main.cpp:306-356 | In the built mesh, u is v's neighbour exactly when v is u's. |
| `MeshBuilder.BuildWithSides` | trabalho1/src/main.cpp:306-356 | The undirected edges of the pairs are exactly the polygon's n sides {i, i + 1 mod n}. |
| `MeshBuilder.BuildCounts` | trabalho1/src/main.cpp:295-358 | The result has n white vertices with keys 0 .. n − 1, 2n half-edges and 2n false flags. Every half-edge's twin is a different half-edge whose twin it is. |
| `MeshBuilder.BuildAdjacency` | trabalho1/src/main.cpp:295-358 | Every vertex has exactly two entries, namely its cyclic neighbours, and neighbourship is symmetric. |
| `MeshBuilder.BuildWalkOrder` | trabalho1/src/main.cpp:305-356 | Counter-clockwise points are walked (j, j+1) for j = 0 .. n − 2, then (n − 1, 0). Other points are walked (j, j − 1) for j = n − 1 down to 1, then (0, n − 1). |
| `MeshBuilder.BuildBoundaryCycle` | trabalho1/src/main.cpp:295-358 | The first half-edges of the pairs, in creation order, form one closed cycle: each twin leaves where the next pair's first half-edge leaves. |
| `MeshBuilder.CycleOriginsWith` | trabalho1/src/main.cpp:306-356 | The cycle leaves the points in their own order forwards and in reverse order backwards. |
| `MeshBuilder.BuildTracesCounterClockwise` | trabalho1/src/main.cpp:295-358 | The cycle the builder creates never winds clockwise. Its shoelace sum is never negative, and it is positive whenever the input's is non-zero. |
| `MeshBuilder.WalkDirectionsAgree` | trabalho1/src/main.cpp:306-356 | Both branches build the same undirected edge set, the same keys and the same neighbour multisets. |
| `Scenarios.CollinearPoints` | trabalho1/src/main.cpp:137-150 | For (0,0), (1,0), (2,0): `collinear` and `leftOn` hold and `left` does not. |
| `Scenarios.SquareIsConvexAndAllEars` | trabalho1/src/main.cpp:230-293 | The counter-clockwise square is classified counter-clockwise, and every corner is convex and an ear. |
| `Scenarios.SquareBuild` | trabalho1/src/main.cpp:295-358 | Building the square gives 8 half-edges and 8 flags. Vertex 0's list is [1, 3]. |
| `Scenarios.ReversedSquareBuild` | trabalho1/src/main.cpp:295-358 | The square listed clockwise is classified clockwise. Its build still has 8 half-edges, and vertex 0 still neighbours 1 and 3. |

## Left out

- Windowing, rendering, shaders and the GLUT callbacks (`display`, `reshape`, `keyboard`, `mouse`, `main`) are left out. They are I/O. So is the rendering flag `creating_initial_pol`, which `createInitialPolygon` clears at line 357.
- `Visibility.VerifyAngle`, `Visibility.EarVerify`: they model functions that the editor defines but never calls, because the calls at lines 366-367 are commented out. Their contracts state what the functions would compute if called.
- All console output is left out, including the printed labels of the diagnostics. `VerifyAngle` and `EarVerify` return the verdicts instead. The label `verifyAngle` prints for vertex 0 reads n − 1 (line 259), which the model does not reproduce.
- `createPoint`'s conversion from pixel to normalised coordinates is float arithmetic and is left out. Points enter the model as exact reals.
- `Geometry.Collinear`: the editor compares a `float` area with `== 0`, which rounding can defeat. The model's test is exact.
- `Orientation.IsCounterClockwise`: the anchor is the float 1.1f and the total accumulates in `float`. Exact arithmetic makes the total independent of the anchor. The orientation is computed on the vertex records, whose coordinates are the points'. The closing term's index `points.size() - 1` equals `vertex.size() - 1` for a single build.
- The `Vertex_t` overload of `area2` used by `polygonOrientation` is assumed to be the same formula on x and y. It and the rest of the mesh library (`dcel.hpp`: `createEdge`, `fillVertexTable`, `fillHalfEdgeTable`, `fillFaceTableInnerComponents`) are not part of this model.
- Heap allocation of half-edges with `new`, and the leaks it causes, are left out. The arena stores values.
- `MeshBuilder.BuildCounts`: its twin statement is about arena indices, and it holds in the model's arena by construction. In the editor, `createEdge` links the heap objects `*he` and `*twin`, and `h` receives copies of them (lines 310-316, 321-327, 336-342, 347-353). A copy's `twin` pointer leads to the heap object, not to the other copy in `h`. In `h`, twin(twin(e)) == e therefore holds only by value, never by identity. Origins likewise point at vertex records (read through `het.he->twin->orig` at line 99). The model replaces each such pointer with a key or an index.
- Accumulation of the global `vertex`, `h`, `adj` and flag containers across rebuilds is left out. The model is a single build from empty state.
- `inCone`'s `b0` and `b1` parameters are kept in the signature. The editor never reads them, so nothing is stated about them.
- An empty point list is outside the domain of `Diagonalie` and `CreateInitialPolygon`. The editor's behaviour there is undefined.
- `MeshBuilder.Walk`: for the backward closing edge, the editor appends to vertex n − 1's list before vertex 0's. The model appends in the edge's own order. The resulting lists are identical.
