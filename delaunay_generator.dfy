/**
 * The later triangulator revision: Bowyer-Watson with each triangle's own
 * circumcircle as the in-circle test, a super-triangle whose angle is clamped
 * to [0, 90] degrees, and the strip of every triangle touching it.
 */
module DelaunayTriangulationGenerator {
  import opened Geometry
  import opened DataStructures
  import opened Triangulation

  /** The angle `GenerateSuperTriangle` uses when none is given. */
  const DefaultAngle: real := 45.0

  /** The identity of the super-triangle; the triangles made later are numbered after it. */
  const SuperTriangleId: nat := 0

  /** This revision's test: strictly inside the triangle's stored circumcircle. */
  function WithinCircumference(circle: CircumcircleFn): InsideFn {
    (t: Triangle, point: Vec2) => t.IsPointWithinCircumference(point, circle)
  }

  /**
   * `BowyerWatson(mesh, points, bounds)`: inserts the points one by one into
   * the list it is given and returns that same list. `bounds` is not used.
   */
  method BowyerWatson(mesh: TriangleList, points: seq<Vec2>, bounds: Vec2, circle: CircumcircleFn, firstId: nat)
    returns (triangulation: TriangleList, nextId: nat)
    requires WellNumbered(mesh.items, firstId)
    modifies mesh
    ensures triangulation == mesh
    ensures (triangulation.items, nextId) == InsertAllSpec(old(mesh.items), points, WithinCircumference(circle), firstId)
    ensures WellNumbered(triangulation.items, nextId)
  {
    triangulation := mesh;
    nextId := InsertPoints(triangulation, points, WithinCircumference(circle), firstId);
  }

  /**
   * `GenerateSuperTriangle(innerBounds, angle)`: the angle is first clamped to
   * [0, 90]; B is the origin, A lies on the y axis and C on the x axis.
   */
  function GenerateSuperTriangle(id: nat, innerBounds: Vec2, angle: real, tanDeg: real -> real): (t: Triangle)
    ensures t.B() == Zero2 && t.A().x == 0.0 && t.C().y == 0.0
    ensures 0.0 <= angle <= 90.0 ==> t == SuperTriangleAt(id, innerBounds, angle, tanDeg)
    ensures angle < 0.0 ==> t == SuperTriangleAt(id, innerBounds, 0.0, tanDeg)
    ensures 90.0 < angle ==> t == SuperTriangleAt(id, innerBounds, 90.0, tanDeg)
  {
    SuperTriangleAt(id, innerBounds, Clamp(angle, 0.0, 90.0), tanDeg)
  }

  /** The triangulation that `GenerateDelaunayTriangulatedGraph` returns for `points`. */
  ghost function TriangulatedGraph(points: seq<Vec2>, bounds: Vec2, tanDeg: real -> real, circle: CircumcircleFn): seq<Triangle> {
    var superTriangle := GenerateSuperTriangle(SuperTriangleId, bounds, DefaultAngle, tanDeg);
    ApartFrom(InsertAllSpec([superTriangle], points, WithinCircumference(circle), SuperTriangleId + 1).0, superTriangle)
  }

  /**
   * `GenerateDelaunayTriangulatedGraph`, with the random points supplied:
   * triangulate from the super-triangle, then remove, walking backwards,
   * every triangle that shares a vertex with it.
   */
  method GenerateDelaunayTriangulatedGraph(points: seq<Vec2>, bounds: Vec2, tanDeg: real -> real, circle: CircumcircleFn)
    returns (triangulation: TriangleList)
    ensures fresh(triangulation)
    ensures triangulation.items == TriangulatedGraph(points, bounds, tanDeg, circle)
    ensures forall t | t in triangulation.items ::
              !t.SharesAnyVertex(GenerateSuperTriangle(SuperTriangleId, bounds, DefaultAngle, tanDeg))
    ensures WellNumbered(triangulation.items, InsertAllSpec([GenerateSuperTriangle(SuperTriangleId, bounds, DefaultAngle, tanDeg)],
                                                           points, WithinCircumference(circle), SuperTriangleId + 1).1)
  {
    var superTriangle := GenerateSuperTriangle(SuperTriangleId, bounds, DefaultAngle, tanDeg);
    var mesh := new TriangleList([superTriangle]);
    var nextId;
    triangulation, nextId := BowyerWatson(mesh, points, bounds, circle, SuperTriangleId + 1);
    ghost var full := triangulation.items;
    RemoveTouching(triangulation, superTriangle);
    StripLeavesNoSuperVertex(full, superTriangle);
    StripKeepsNumbering(full, superTriangle, nextId);
  }
}
