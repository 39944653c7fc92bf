# Procedural racetrack pipeline, modelled in Dafny

This project models the combinatorial core of a Unity racetrack generator:

1. It scatters points and triangulates them with the Bowyer–Watson algorithm.
   There are two revisions of the triangulator:
   - `DelaunayTriangulationGenerator` uses each triangle's stored circumcircle as its in-circle test.
   - The earlier `Generator` uses the sign of a 4x4 lifted determinant.
2. It builds the dual graph: one node per triangle, linked to at most three triangles that share an edge with it.
3. It walks that graph at random, backtracking out of dead ends, to get a closed circuit of node positions.
4. It gives every circuit point a curvature.
5. It turns the points into a closed Bézier contour.

Beside the pipeline the project models:
- `Controller.CenterPath`, which moves a path so that its mean lands on a chosen point;
- the `Seed` property;
- `MeshGenerator.GenerateMesh`, which builds a triangle fan.

Modules and files:

| file | module | what it holds |
|---|---|---|
| `geometry.dfy` | `Geometry`, `Seqs`, `Wrappers` | exact-real vectors, `Mathf.Clamp`, `Utility.Modulo`, list helpers, `Option` |
| `data_structures.dfy` | `DataStructures` | `Triangle`, `Edge` with its equality and hash |
| `triangulation.dfy` | `Triangulation` | the shared insertion step on an in-place `TriangleList`, the super-triangle, the strip of triangles touching it |
| `delaunay_generator.dfy` | `DelaunayTriangulationGenerator` | the later revision |
| `legacy_generator.dfy` | `Generator` | the earlier revision and its determinant test |
| `mesh_generator.dfy` | `MeshGenerator` | `GenerateMesh` (both revisions carry the same copy) |
| `graph.dfy` | `Graphs` | `VoronoiGraph` and `GraphNode` |
| `voronoi.dfy` | `VoronoiDiagramGenerator` | the dual-graph builder |
| `pathing.dfy` | `Pathing` | the random circuit walk |
| `curvature.dfy` | `Curvature` | curvature points |
| `bezier.dfy` | `BezierCurve` | the Bézier contour |
| `controller.dfy` | `TrackController` | `Seed` and `CenterPath` |

Modelling choices:
- **Coordinates** are exact reals.
- **Float-only maths is supplied by the caller as a function:**
  - `CircumcircleFn` is the circumcenter and radius formula;
  - `Normalizer` is `Vector2.normalized`;
  - `tanDeg` is `Mathf.Tan(d * Mathf.Deg2Rad)`.
- **The legacy `Matrix4x4.determinant`** is computed exactly.
- **Random draws** are parameters:
  - `Draw` gives the integer `Random.Range` calls of the walk.
  - `samples` gives the float draw that `CalculateCurvature` makes for each point.
  - The generated points are inputs.
- **Object identity of triangles.** A `Triangle` is a reference type, and the legacy `struct Triangle` compares its `vertices` array reference. Either way a triangle is equal only to itself. The model gives every triangle an `id` that stands for that identity. `WellNumbered` says no identity occurs twice in a list.
- **Hash-set iteration order** is taken to be list order. `HashSet<Triangle>` is filled from the list in order. The boundary edges are pairwise unequal, which `BoundaryEdgesAreDistinct` proves, so under the model's exact point equality building the `HashSet<Edge>` drops none of them.
- **`Utility.Modulo`** is not part of this model; it is taken to be the remainder that is never negative. With a single point the modulus is 0; the source then divides by zero, and the model returns `None`.

## Model

| member | source | states |
|---|---|---|
| `Geometry.Clamp` | Assets/VectorGraphics/Curvature.cs:48 | the result lies in [lo, hi]; it is the value itself inside the range and the nearer bound outside it |
| `Geometry.Modulo` | Assets/VectorGraphics/Curvature.cs:40-41 | the remainder lies in [0, m); it is a itself for 0 <= a < m, wraps -1 to m - 1 and m + j to j |
| `Seqs.RemoveFirst` | Assets/VoronoiScripts/DelaunayTriangulationGenerator.cs:70 | `List.Remove`: an absent element leaves the list as it is; otherwise exactly the first occurrence (`FirstIndex`) is dropped and the rest keeps its order |
| `Seqs.WithoutMembership` | Assets/Pathing/Pathing.cs:24-25 | an element survives the removal of the set `drop` exactly when it was in the list and not in `drop` |
| `Seqs.RemoveFirstFromWithout` | Assets/Pathing/Pathing.cs:24-25 | on a list without repeats, removing elements one at a time in any order gives the list without the whole set |
| `DataStructures.AccessorsReturnConstructorArguments` | Assets/VoronoiScripts/DataStructures.cs:7-9 | `A`, `B` and `C` return the constructor's a, b and c |
| `DataStructures.Triangle.IsPointWithinCircumference` | Assets/VoronoiScripts/DataStructures.cs:13-16 | the later revision's in-circle test; its properties are stated by `WithinCircumferenceIsStrict` and `Generator.DeterminantTestAgreesWithCircumcircle` |
| `DataStructures.WithinCircumferenceIsStrict` | Assets/VoronoiScripts/DataStructures.cs:13-16 | a point at squared distance exactly Radius² from Center is not within the circumference |
| `DataStructures.Triangle.SharesAnyVertex` | Assets/VoronoiScripts/DataStructures.cs:35-46 | the nested vertex search; its properties are stated by the three `SharesAnyVertex…` lemmas below |
| `DataStructures.SharesAnyVertexIsReflexive` | Assets/VoronoiScripts/DataStructures.cs:35-46 | every triangle shares a vertex with itself |
| `DataStructures.SharesAnyVertexIsSymmetric` | Assets/VoronoiScripts/Generator.cs:29-40 | t shares a vertex with u exactly when u shares one with t (same search in both revisions) |
| `DataStructures.SharesAnyVertexIffCommonPoint` | Assets/VoronoiScripts/DataStructures.cs:37-45 | the search succeeds exactly when one of t's vertices is one of u's vertices |
| `DataStructures.Equals` | Assets/VoronoiScripts/DataStructures.cs:60-66 | `Equals` is false for null and for an object of another type |
| `DataStructures.SameEdgeIffSameEndpoints` | Assets/VoronoiScripts/DataStructures.cs:68-70 | two edges are equal exactly when they join the same two points, as a multiset |
| `DataStructures.ReversedEdgeIsEqual` | Assets/VoronoiScripts/Generator.cs:164-166 | `Edge(a, b)` equals `Edge(b, a)` (same code in both revisions) |
| `DataStructures.SameEdgeIsEquivalence` | Assets/VoronoiScripts/DataStructures.cs:60-71 | edge equality is reflexive, symmetric and transitive, as grouping needs |
| `DataStructures.XorBitsCommutes` | Assets/VoronoiScripts/DataStructures.cs:75 | bitwise exclusive or is commutative |
| `DataStructures.XorBitsAssociates` | Assets/VoronoiScripts/Generator.cs:171 | bitwise exclusive or is associative |
| `DataStructures.XorPairsCommute` | Assets/VoronoiScripts/DataStructures.cs:75 | xor-ing the four coordinates with the end points swapped gives the same bits |
| `DataStructures.GetHashCode` | Assets/VoronoiScripts/DataStructures.cs:73-77 | the xor of the four truncated coordinates; its property is stated by `EqualEdgesHashAlike` |
| `DataStructures.EqualEdgesHashAlike` | Assets/VoronoiScripts/DataStructures.cs:73-77 | equal edges have equal hash codes, in particular an edge and its reverse |
| `Triangulation.TriangleList.Add` | Assets/VoronoiScripts/DelaunayTriangulationGenerator.cs:83 | the triangle is appended at the end |
| `Triangulation.TriangleList.Remove` | Assets/VoronoiScripts/DelaunayTriangulationGenerator.cs:69-70 | removes the first occurrence, and reports whether there was one |
| `Triangulation.TriangleList.RemoveAt` | Assets/VoronoiScripts/DelaunayTriangulationGenerator.cs:23 | drops exactly position i, keeping the order of the rest |
| `Triangulation.WellNumberedIsDistinct` | Assets/VoronoiScripts/DataStructures.cs:3 | a list in which no identity repeats holds no triangle twice |
| `Triangulation.BadTrianglesMembership` | Assets/VoronoiScripts/DelaunayTriangulationGenerator.cs:53-58 | a triangle is bad exactly when it is in the list and the new point is inside its circumcircle |
| `Triangulation.SurvivorsMembership` | Assets/VoronoiScripts/DelaunayTriangulationGenerator.cs:69-70 | a triangle survives exactly when it is in the list and the point is not inside |
| `Triangulation.BadAndSurvivorsPartition` | Assets/VoronoiScripts/DelaunayTriangulationGenerator.cs:54-57 | the bad triangles and the survivors add up to the whole list |
| `Triangulation.BadTrianglesSnoc` | Assets/VoronoiScripts/DelaunayTriangulationGenerator.cs:54 | the scan handles the triangles one at a time, in list order |
| `Triangulation.WithoutBadIsSurvivors` | Assets/VoronoiScripts/Generator.cs:91-94 | removing exactly the bad triangles leaves the survivors, in order |
| `Triangulation.SurvivorsKeepNumbering` | Assets/VoronoiScripts/DelaunayTriangulationGenerator.cs:69-70 | removing triangles never duplicates an identity |
| `Triangulation.EdgesOfAt` | Assets/VoronoiScripts/DelaunayTriangulationGenerator.cs:62-67 | edge 3k + r of the collected list is edge r (AB, BC, CA) of bad triangle k |
| `Triangulation.BoundaryMembership` | Assets/VoronoiScripts/DelaunayTriangulationGenerator.cs:76 | an edge is on the boundary exactly when it was collected and its undirected group has one member |
| `Triangulation.CountRespectsSameEdge` | Assets/VoronoiScripts/Generator.cs:88 | edges equal as undirected edges have groups of the same size |
| `Triangulation.CountAtLeastTwo` | Assets/VoronoiScripts/DelaunayTriangulationGenerator.cs:61-67 | two positions holding edges equal to e give e's group at least two members |
| `Triangulation.CountAtLeastOne` | Assets/VoronoiScripts/DelaunayTriangulationGenerator.cs:64-66 | a position holding an edge equal to e gives e's group at least one member |
| `Triangulation.BoundaryCountAtMost` | Assets/VoronoiScripts/DelaunayTriangulationGenerator.cs:74-76 | filtering never adds copies of an edge |
| `Triangulation.CountAppend` | Assets/VoronoiScripts/Generator.cs:84-86 | group sizes add up over concatenated edge lists |
| `Triangulation.BoundaryEdgesAreDistinct` | Assets/VoronoiScripts/DelaunayTriangulationGenerator.cs:74-76 | no two boundary edges are equal, so the `HashSet<Edge>` keeps them all |
| `Triangulation.SharedEdgeIsDropped` | Assets/VoronoiScripts/DelaunayTriangulationGenerator.cs:61-76 | an edge that two different bad triangles both have is equal to no boundary edge |
| `Triangulation.SharedEdgeCountsTwice` | Assets/VoronoiScripts/Generator.cs:82-88 | an edge of two different bad triangles has a group of at least two |
| `Triangulation.FanAt` | Assets/VoronoiScripts/DelaunayTriangulationGenerator.cs:79-84 | new triangle k has boundary edge k's end points as A and B, the inserted point as C, and a fresh identity |
| `Triangulation.InsertPointReplacesBad` | Assets/VoronoiScripts/DelaunayTriangulationGenerator.cs:69-84 | after one insertion an old triangle is still present exactly when it was not bad |
| `Triangulation.InsertPointCount` | Assets/VoronoiScripts/DelaunayTriangulationGenerator.cs:69-84 | after one insertion the count is old - bad + boundary |
| `Triangulation.InsertPointShape` | Assets/VoronoiScripts/Generator.cs:91-102 | the survivors keep their order at the front, followed by exactly one new triangle per boundary edge |
| `Triangulation.InsertPointKeepsNumbering` | Assets/VoronoiScripts/DelaunayTriangulationGenerator.cs:82-83 | the new triangles are fresh objects, so no triangle is in the list twice |
| `Triangulation.InsertAllKeepsNumbering` | Assets/VoronoiScripts/DelaunayTriangulationGenerator.cs:50-85 | every insertion keeps the triangles distinct objects, and identities are only handed out forward |
| `Triangulation.CollectBadTriangles` | Assets/VoronoiScripts/DelaunayTriangulationGenerator.cs:53-58 | the loop collects exactly the bad triangles, in list order |
| `Triangulation.CollectEdges` | Assets/VoronoiScripts/DelaunayTriangulationGenerator.cs:61-67 | the loop collects the three edges of every bad triangle, in order |
| `Triangulation.RemoveBadTriangles` | Assets/VoronoiScripts/DelaunayTriangulationGenerator.cs:69-70 | the list, changed in place, becomes the old list without the bad triangles |
| `Triangulation.AddFan` | Assets/VoronoiScripts/DelaunayTriangulationGenerator.cs:79-84 | the list, changed in place, gains the fan triangles at its end |
| `Triangulation.InsertPoint` | Assets/VoronoiScripts/DelaunayTriangulationGenerator.cs:52-84 | one pass of the point loop changes the list into survivors + fan, whose properties the lemmas above give |
| `Triangulation.InsertPoints` | Assets/VoronoiScripts/DelaunayTriangulationGenerator.cs:50-85 | the loop inserts every point in order into the same list, which keeps its triangles distinct |
| `Triangulation.SuperTriangleAt` | Assets/VoronoiScripts/Generator.cs:135-143 | B is the origin, A lies on the y axis and C on the x axis |
| `Triangulation.SuperTriangleContainsBounds` | Assets/VoronoiScripts/DelaunayTriangulationGenerator.cs:90-104 | when the two tangents are positive with product 1, as for complementary angles, every point of the rectangle from the origin to the bounds lies in the triangle |
| `Triangulation.ApartFromMembership` | Assets/VoronoiScripts/DelaunayTriangulationGenerator.cs:19-24 | a triangle is kept exactly when it was present and shares no vertex with the super-triangle |
| `Triangulation.ApartFromAppend` | Assets/VoronoiScripts/Generator.cs:104-109 | the strip keeps the relative order of what it keeps |
| `Triangulation.StripLeavesNoSuperVertex` | Assets/VoronoiScripts/Generator.cs:104-111 | no triangle left shares a vertex with the super-triangle |
| `Triangulation.StripKeepsNumbering` | Assets/VoronoiScripts/DelaunayTriangulationGenerator.cs:19-26 | the strip keeps the triangles distinct objects |
| `Triangulation.RemoveTouching` | Assets/VoronoiScripts/DelaunayTriangulationGenerator.cs:19-24 | the backward `RemoveAt` loop leaves exactly the triangles apart from the super-triangle, in order |
| `DelaunayTriangulationGenerator.BowyerWatson` | Assets/VoronoiScripts/DelaunayTriangulationGenerator.cs:45-88 | returns the very list it was given, changed into the result of inserting every point in turn, its triangles distinct |
| `DelaunayTriangulationGenerator.GenerateSuperTriangle` | Assets/VoronoiScripts/DelaunayTriangulationGenerator.cs:95-105 | the angle is clamped to [0, 90]; B is the origin, A.x = 0 and C.y = 0 |
| `DelaunayTriangulationGenerator.GenerateDelaunayTriangulatedGraph` | Assets/VoronoiScripts/DelaunayTriangulationGenerator.cs:11-29 | a fresh list: the triangulation from the super-triangle with every triangle touching it removed, the rest distinct |
| `Generator.LiftOntoParaboloid` | Assets/VoronoiScripts/Generator.cs:201-209 | `GetCol` lifts (x, y) to (x, y, x² + y², 1), and `GetM3Operand` is never negative |
| `Generator.Determinant` | Assets/VoronoiScripts/Generator.cs:213 | `Matrix4x4.determinant`, expanded exactly; its properties are stated by the determinant lemmas below |
| `Generator.IsPointWithinCircumference` | Assets/VoronoiScripts/Generator.cs:211-214 | the legacy in-circle test, a positive determinant; its meaning is stated by `DeterminantMeasuresCircle`, `DeterminantTestAgreesWithCircumcircle` and `VertexIsNeverInside` |
| `Generator.DeterminantByDifferences` | Assets/VoronoiScripts/Generator.cs:203 | with a row of ones, the 4x4 determinant is a 3x3 determinant of column differences |
| `Generator.ShearKeepsDet3` | Assets/VoronoiScripts/Generator.cs:213 | adding multiples of the x and y rows to the z row keeps the determinant |
| `Generator.EqualHeightsFactor` | Assets/VoronoiScripts/Generator.cs:211-214 | with three columns at the same height, the determinant is the orientation times the height gap |
| `Generator.TranslatedDifference` | Assets/VoronoiScripts/Generator.cs:206-209 | translating two points shears the difference of their lifts |
| `Generator.TranslationKeepsDeterminant` | Assets/VoronoiScripts/Generator.cs:176-214 | translating all four points leaves the determinant unchanged |
| `Generator.OrientationIsTranslationInvariant` | Assets/VoronoiScripts/Generator.cs:180-186 | translating a triangle keeps its orientation |
| `Generator.DeterminantMeasuresCircle` | Assets/VoronoiScripts/Generator.cs:176-214 | for any circle through the vertices, the determinant is the orientation times (r² - squared distance of the point from the center) |
| `Generator.DeterminantTestAgreesWithCircumcircle` | Assets/VoronoiScripts/Generator.cs:73-74 | for a counter-clockwise triangle with an exact circumcircle, the determinant test says inside exactly when the later revision's test does |
| `Generator.VertexIsNeverInside` | Assets/VoronoiScripts/Generator.cs:211-214 | the test is strict: a vertex of the triangle is never inside |
| `Generator.SuperTriangleIsCounterClockwise` | Assets/VoronoiScripts/Generator.cs:135-143 | for positive bounds and non-negative tangents the super-triangle runs counter-clockwise |
| `Generator.BowyerWatson` | Assets/VoronoiScripts/Generator.cs:43-111 | the determinant-test triangulation from the unclamped super-triangle, stripped of every triangle touching it, its triangles distinct |
| `MeshGenerator.WriteTriangle` | Assets/VoronoiScripts/DelaunayTriangulationGenerator.cs:163-167 | pass i writes 0, i + 1, i + 2 to its three slots and nothing else |
| `MeshGenerator.GenerateMesh` | Assets/VoronoiScripts/DelaunayTriangulationGenerator.cs:133-179 | null exactly for no points; otherwise count + 1 vertices (origin first, then the points) and a fan of 3·count indices, each within [0, count] after the wrap write |
| `Pathing.Positions` | Assets/Pathing/Pathing.cs:54-55 | one position per path node, that node's position, in path order |
| `Pathing.RemoveIllegal` | Assets/Pathing/Pathing.cs:22-25 | the neighbour list without the illegal indices, in its original order, whatever order the set is walked in |
| `Pathing.AdvanceKeepsWalkState` | Assets/Pathing/Pathing.cs:42-49 | an advance keeps the walk's invariant: path simple and illegal, current node adjacent and off the path, longest path recorded |
| `Pathing.LeavingStart` | Assets/Pathing/Pathing.cs:28 | a neighbour of the start other than itself means the walk is not stuck there |
| `Pathing.NeighbourInRange` | Assets/Pathing/Pathing.cs:22 | every listed neighbour is a node of the graph |
| `Pathing.ExtendSimplePath` | Assets/Pathing/Pathing.cs:44 | pushing an adjacent node that is not yet on the path keeps it simple |
| `Pathing.HistoryGrows` | Assets/Pathing/Pathing.cs:46-47 | after an advance `longestPath` is a recorded path and no recorded path is longer |
| `Pathing.BacktrackKeepsWalkState` | Assets/Pathing/Pathing.cs:28-39 | backing out of a dead end keeps the invariant; the node backed onto is already illegal |
| `Pathing.BackOut` | Assets/Pathing/Pathing.cs:36-37 | the last node of the path is popped and becomes the current one, keeping the invariant |
| `Pathing.Advance` | Assets/Pathing/Pathing.cs:44-47 | the current node is pushed, `longestPath` becomes a copy of the path when that is longer, and the invariant holds at the new node |
| `Pathing.GiveUpReportsStuckStart` | Assets/Pathing/Pathing.cs:30-33 | giving up on an empty path, the longest path is empty exactly when the start has no neighbour but itself |
| `Pathing.PathMeansNotStuck` | Assets/Pathing/Pathing.cs:44 | a non-empty path means the walk has left the start |
| `Pathing.NodeSetBounded` | Assets/Pathing/Pathing.cs:19 | a set of node indices has at most as many members as the graph has nodes, which bounds the walk |
| `Pathing.Walk` | Assets/Pathing/Pathing.cs:19-52 | the loop terminates with a simple path of at most 16 nodes; it is empty exactly when the start is stuck; it is either full or the longest path reached |
| `Pathing.GenerateRandomCircuit` | Assets/Pathing/Pathing.cs:7-61 | None exactly where the source throws (empty graph, or a stuck start); otherwise a simple path's positions in order, closed by repeating the first |
| `Pathing.ClosedPositions` | Assets/Pathing/Pathing.cs:54-58 | path.Count + 1 positions with the last equal to the first; None for an empty path, where `pathPositions[0]` fails |
| `VoronoiDiagramGenerator.ScanIsCappedCandidates` | Assets/VoronoiScripts/VoronoiDiagramGenerator.cs:30-41 | the scan keeps exactly the first 3 - found edge-sharing triangles, in list order |
| `VoronoiDiagramGenerator.CandidatesMembership` | Assets/VoronoiScripts/VoronoiDiagramGenerator.cs:33-36 | a candidate is exactly another triangle, from j on, that shares an edge |
| `VoronoiDiagramGenerator.CandidatesIncrease` | Assets/VoronoiScripts/VoronoiDiagramGenerator.cs:30 | the scan meets candidates in strictly increasing index order |
| `VoronoiDiagramGenerator.NeighboursProperties` | Assets/VoronoiScripts/VoronoiDiagramGenerator.cs:29-41 | each node receives at most three neighbours, never itself, each an index in range that shares an edge, none twice |
| `VoronoiDiagramGenerator.NoSelfNeighbour` | Assets/VoronoiScripts/VoronoiDiagramGenerator.cs:33-34 | with distinct triangles no node is its own neighbour |
| `VoronoiDiagramGenerator.UncappedScanFindsAll` | Assets/VoronoiScripts/VoronoiDiagramGenerator.cs:28-30 | when a triangle has at most three edge-sharing triangles, the cap never cuts the scan short |
| `VoronoiDiagramGenerator.AdjacencyIsSymmetric` | Assets/VoronoiScripts/VoronoiDiagramGenerator.cs:26-42 | with a symmetric edge test and at most three edge-sharing triangles each, j lists i exactly when i lists j |
| `VoronoiDiagramGenerator.AllVerticesSnoc` | Assets/VoronoiScripts/VoronoiDiagramGenerator.cs:21-22 | adding a triangle adds exactly its three vertices to the point set |
| `VoronoiDiagramGenerator.CreateNodes` | Assets/VoronoiScripts/VoronoiDiagramGenerator.cs:14-23 | one node per triangle, in order, at its circumcenter and with no neighbours yet, and the set of all vertices |
| `VoronoiDiagramGenerator.ScanNeighbours` | Assets/VoronoiScripts/VoronoiDiagramGenerator.cs:29-41 | the `edgeCounter` loop appends exactly the capped scan's neighbours |
| `VoronoiDiagramGenerator.GenerateVoronoiFromDelaunay` | Assets/VoronoiScripts/VoronoiDiagramGenerator.cs:12-45 | node i sits at triangle i's circumcenter with the scan's neighbours, `allPoints` is every vertex, and the graph is valid for the walk |
| `Curvature.CalculateCurvature` | Assets/VectorGraphics/Curvature.cs:38-52 | the bonus is 0 when disabled and in [0, 1] when enabled, so with min <= max the result lies in [min, max + 1] |
| `Curvature.GenerateCurvaturePointSet` | Assets/VectorGraphics/Curvature.cs:26-33 | one point per input, in order, with the point copied and its curvature computed; None for a single point |
| `BezierCurve.CalculateControlPoint` | Assets/VectorGraphics/BezierCurve.cs:43-54 | the control point of a vertex; its properties are stated by `ControlPointOffset`, `ControlPointsMirror` and `DirectionIgnoresOwnPoint` |
| `BezierCurve.ControlPointOffset` | Assets/VectorGraphics/BezierCurve.cs:48-51 | a control point sits curveAmount along the direction from its point, ahead going forwards and behind going backwards |
| `BezierCurve.ControlPointsMirror` | Assets/VectorGraphics/BezierCurve.cs:43-54 | the forward and backward control points of a vertex sum to twice the vertex |
| `BezierCurve.SegmentsJoinSmoothly` | Assets/VectorGraphics/BezierCurve.cs:24-31 | path[i].P2 and path[next(i)].P1 mirror each other about the point where the segments meet |
| `BezierCurve.DirectionIgnoresOwnPoint` | Assets/VectorGraphics/BezierCurve.cs:45-48 | with three or more points the direction does not depend on the point itself |
| `BezierCurve.ConstructBezierCurve` | Assets/VectorGraphics/BezierCurve.cs:13-35 | one segment per point; segment i starts at point i, with i's forward control point and the next point's backward one; None for a single point |
| `BezierCurve.FillSegment` | Assets/VectorGraphics/BezierCurve.cs:21-31 | iteration i writes path[i] and nothing else, since `redo` is never set |
| `TrackController.CenteringKeepsShape` | Assets/Controller.cs:95-98 | every point is moved by the same offset: centering keeps the length and the difference between any two points |
| `TrackController.SumOfShifted` | Assets/Controller.cs:91-92 | shifting every point by d shifts the sum by count·d |
| `TrackController.CenteredSum` | Assets/Controller.cs:90-98 | the sum of the centered path, coordinate by coordinate |
| `TrackController.CenteredMean` | Assets/Controller.cs:90-98 | after centering a non-empty path, the mean of its points is the center point |
| `TrackController.CenteringIsIdempotent` | Assets/Controller.cs:94-98 | centering a centered path changes nothing |
| `TrackController.Controller.SetSeed` | Assets/Controller.cs:8-12 | reading `Seed` after setting it returns the value set |
| `TrackController.Controller.CenterPath` | Assets/Controller.cs:88-99 | the path, changed in place, becomes the centered path; an empty path is left as it is |

## Left out

- Rendering, editor UI, assets and prefab spawning are not part of this model. This covers the display scripts, `Test`, `ManualTrack`, the editor, and `Generator`'s gizmo and `OnValidate` code.
- `Controller.Refresh`, the wiring between components, is not part of this model. It calls signatures that the modelled files do not have.
- Floating-point geometry is supplied by the caller, not computed:
  - the circumcenter and radius formula, including its division by zero for collinear points;
  - `normalized`;
  - `Mathf.Tan` with `Deg2Rad`.
  Rounding, NaN and infinities are not modelled. The legacy determinant is exact here, unlike Unity's float determinant.
- `UnityEngine.Random` is not part of this model, and neither are `Random.InitState` and `GeneratePoints`. Draws are parameters. `preferredLength`, `maxLength` and `minLength` feed nothing.
- The `Mesh` object and the `_uv` and `_fullVertices` arrays are library objects and copies. Only the vertex and index arrays are modelled.
- The unused `HashSet<Vector2> p` and the unreachable `values` assignment in the legacy `BowyerWatson` are not modelled. Neither is the static `tempTriangles` cache.
- `Triangle.SharesAnyEdge` is not among the modelled files; the builder takes it as a parameter.
- `GraphNode.AddNeighbourPosition` records a position. The model records the neighbour's index, whose node holds that position.
- The order in which a `HashSet` is walked is taken to be insertion order. This fixes the order of the new fan triangles. For `illegalPoints` the order is shown not to matter.
- `Pathing.Walk` requires a graph whose neighbour lists hold no duplicates (`VoronoiGraph.Valid`). `List.Remove` drops only the first copy, and with a duplicate the source loop need not terminate. For example, node 0 lists neighbours [1, 1] and node 1 lists [0], with the walk starting at 0. The walk advances to 1, finds a dead end and backs out to 0, where the second copy of 1 is still legal, and it repeats this forever while `testCount` alternates between 1 and 0. The termination measure holds only under this requirement. `GenerateVoronoiFromDelaunay` proves that its output meets it.
- `Pathing.Walk`: "illegalPoints only grows" is not stated as an invariant. The loop only ever adds to the set, and the termination measure relies on that growth.
- The insertion step requires the triangles to be distinct objects (`WellNumbered`). Every list the two generators build satisfies that, and the model proves it stays so.
- `Generator.DeterminantTestAgreesWithCircumcircle` needs a counter-clockwise triangle. The model proves the super-triangle is counter-clockwise, but not that insertion keeps every later triangle so.
- `TrackController.Controller.CenterPath`: on an empty path the source computes `center /= 0` and then `centerOffset` from it. The loop at `Controller.cs:97-98` runs zero times, so no point is changed. The model leaves an empty path as it is and has no precondition that excludes it.
- `BezierCurve.ConstructBezierCurve`: the `redo` branch at `BezierCurve.cs:26-27` is dead, because `CalculateControlPoint` never sets its `ref` flag, so it is not modelled.
- `DataStructures.GetHashCode`: `(int)` of a float outside the `int` range is not modelled; the cast is taken as truncation toward zero. The hash is given as its 32-bit pattern read unsigned, not as a signed `int`.
- `DataStructures.SameEdgeIsEquivalence`, `DataStructures.EqualEdgesHashAlike`, `DataStructures.SharesAnyVertexIffCommonPoint` and `Triangulation.BoundaryEdgesAreDistinct` use exact point equality. Unity's `Vector2 ==` is a tolerance test that holds when the squared distance is below 1e-10. It is used at `DataStructures.cs:41` and `68-69` and at `Generator.cs:35` and `164-165`. Under that tolerance, edge equality is not transitive for points 0.6e-5 apart in a chain. Two edges that compare equal can also hash differently, for example with x = 0.9999999 and x = 1.0000001, which truncate to 0 and 1. The model does not cover these near-coincident points.
- `Utility.Modulo` is not part of this model; it is taken to be the never-negative remainder.
