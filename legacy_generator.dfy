/**
 * The earlier triangulator revision (`Generator`). Its Bowyer-Watson loop is
 * the shared insertion step with a different in-circle test: the sign of the
 * 4x4 determinant whose columns lift the triangle's vertices and the new point
 * onto the paraboloid z = x^2 + y^2. For a counter-clockwise triangle that
 * sign says exactly whether the point is strictly inside the circumcircle, so
 * the two revisions agree there. Its super-triangle uses the angle unclamped.
 */
module Generator {
  import opened Geometry
  import opened DataStructures
  import opened Triangulation

  /** Unity's `Vector4`. */
  datatype Vec4 = Vec4(x: real, y: real, z: real, w: real) {
    function Minus(v: Vec4): Vec4 {
      Vec4(x - v.x, y - v.y, z - v.z, w - v.w)
    }
  }

  /** A `Matrix4x4` built from four columns. */
  datatype Matrix4x4 = Matrix4x4(column0: Vec4, column1: Vec4, column2: Vec4, column3: Vec4)

  /** The third coordinate of a lifted point: its squared distance from the origin. */
  function GetM3Operand(val: Vec2): real {
    val.x * val.x + val.y * val.y
  }

  /** A point lifted onto the paraboloid, with 1 as its fourth coordinate. */
  function GetCol(val: Vec2): Vec4 {
    Vec4(val.x, val.y, GetM3Operand(val), 1.0)
  }

  /** The lifted point lies on the paraboloid: its height is its squared length, never negative. */
  lemma LiftOntoParaboloid(val: Vec2)
    ensures GetCol(val) == Vec4(val.x, val.y, val.SqrMagnitude(), 1.0)
    ensures GetM3Operand(val) >= 0.0
  {
    SquareIsNonNegative(val.x);
    SquareIsNonNegative(val.y);
  }

  lemma SquareIsNonNegative(r: real)
    ensures r * r >= 0.0
  {
    if r < 0.0 {
      assert r * r == (-r) * (-r);
    }
  }

  function GetMatrixFromPoints(a: Vec2, b: Vec2, c: Vec2, point: Vec2): Matrix4x4 {
    Matrix4x4(GetCol(a), GetCol(b), GetCol(c), GetCol(point))
  }

  function GetMatrixFromTriangle(triangle: Triangle, point: Vec2): Matrix4x4 {
    GetMatrixFromPoints(triangle.Vertices()[0], triangle.Vertices()[1], triangle.Vertices()[2], point)
  }

  /** The 3x3 determinant of the x, y and z rows of three columns. */
  function Det3(a: Vec4, b: Vec4, c: Vec4): real {
    a.x * (b.y * c.z - b.z * c.y) - a.y * (b.x * c.z - b.z * c.x) + a.z * (b.x * c.y - b.y * c.x)
  }

  /** `Matrix4x4.determinant`, computed exactly, by expansion along the fourth row. */
  function Determinant(m: Matrix4x4): real {
    - m.column0.w * Det3(m.column1, m.column2, m.column3)
    + m.column1.w * Det3(m.column0, m.column2, m.column3)
    - m.column2.w * Det3(m.column0, m.column1, m.column3)
    + m.column3.w * Det3(m.column0, m.column1, m.column2)
  }

  /** The determinant test, strict: a zero determinant is not inside. */
  predicate IsPointWithinCircumference(m: Matrix4x4) {
    Determinant(m) > 0.0
  }

  /** This revision's in-circle test, as the insertion step uses it. */
  function DeterminantTest(): InsideFn {
    (t: Triangle, point: Vec2) => IsPointWithinCircumference(GetMatrixFromTriangle(t, point))
  }

  /** Twice the signed area of a, b, c: positive when they run counter-clockwise. */
  function Orientation(a: Vec2, b: Vec2, c: Vec2): real {
    (b.x - a.x) * (c.y - a.y) - (b.y - a.y) * (c.x - a.x)
  }

  /** With a fourth row of ones, the determinant is that of the first three columns minus the last. */
  lemma DeterminantByDifferences(m: Matrix4x4)
    requires m.column0.w == 1.0 && m.column1.w == 1.0 && m.column2.w == 1.0 && m.column3.w == 1.0
    ensures Determinant(m) == Det3(m.column0.Minus(m.column3), m.column1.Minus(m.column3), m.column2.Minus(m.column3))
  {
  }

  /** Adds `alpha` times the x coordinate and `beta` times the y coordinate to the z coordinate. */
  function Shear(v: Vec4, alpha: real, beta: real): Vec4 {
    v.(z := v.z + alpha * v.x + beta * v.y)
  }

  /** Adding a combination of the x and y rows to the z row leaves a 3x3 determinant unchanged. */
  lemma ShearKeepsDet3(a: Vec4, b: Vec4, c: Vec4, alpha: real, beta: real)
    ensures Det3(Shear(a, alpha, beta), Shear(b, alpha, beta), Shear(c, alpha, beta)) == Det3(a, b, c)
  {
  }

  /** With a, b and c lifted to the same height, the determinant factors through the orientation. */
  lemma EqualHeightsFactor(a: Vec2, b: Vec2, c: Vec2, p: Vec2, r2: real, zp: real)
    ensures Determinant(Matrix4x4(Vec4(a.x, a.y, r2, 1.0), Vec4(b.x, b.y, r2, 1.0), Vec4(c.x, c.y, r2, 1.0), Vec4(p.x, p.y, zp, 1.0)))
         == Orientation(a, b, c) * (r2 - zp)
  {
  }

  /** Lifting the difference of two points after a translation by `o` is a shear of lifting it before. */
  lemma TranslatedDifference(v: Vec2, p: Vec2, o: Vec2)
    ensures GetCol(v.Minus(o)).Minus(GetCol(p.Minus(o))) == Shear(GetCol(v).Minus(GetCol(p)), -2.0 * o.x, -2.0 * o.y)
  {
    TranslatedHeights(v.x, v.y, p.x, p.y, o.x, o.y);
  }

  lemma TranslatedHeights(vx: real, vy: real, px: real, py: real, ox: real, oy: real)
    ensures ((vx - ox) * (vx - ox) + (vy - oy) * (vy - oy)) - ((px - ox) * (px - ox) + (py - oy) * (py - oy))
         == ((vx * vx + vy * vy) - (px * px + py * py)) + (-2.0 * ox) * (vx - px) + (-2.0 * oy) * (vy - py)
  {
  }

  /** Translating all four points by the same offset leaves the determinant unchanged. */
  lemma TranslationKeepsDeterminant(a: Vec2, b: Vec2, c: Vec2, p: Vec2, o: Vec2)
    ensures Determinant(GetMatrixFromPoints(a, b, c, p))
         == Determinant(GetMatrixFromPoints(a.Minus(o), b.Minus(o), c.Minus(o), p.Minus(o)))
  {
    var da, db, dc := GetCol(a).Minus(GetCol(p)), GetCol(b).Minus(GetCol(p)), GetCol(c).Minus(GetCol(p));
    DeterminantByDifferences(GetMatrixFromPoints(a, b, c, p));
    DeterminantByDifferences(GetMatrixFromPoints(a.Minus(o), b.Minus(o), c.Minus(o), p.Minus(o)));
    TranslatedDifference(a, p, o);
    TranslatedDifference(b, p, o);
    TranslatedDifference(c, p, o);
    ShearKeepsDet3(da, db, dc, -2.0 * o.x, -2.0 * o.y);
  }

  lemma OrientationIsTranslationInvariant(a: Vec2, b: Vec2, c: Vec2, o: Vec2)
    ensures Orientation(a.Minus(o), b.Minus(o), c.Minus(o)) == Orientation(a, b, c)
  {
  }

  /**
   * For any circle through a, b and c, with center `o` and squared radius
   * `r2`, the determinant is the orientation of the triangle times how far
   * the point's squared distance from `o` falls below `r2`.
   */
  lemma DeterminantMeasuresCircle(a: Vec2, b: Vec2, c: Vec2, p: Vec2, o: Vec2, r2: real)
    requires a.Minus(o).SqrMagnitude() == r2 && b.Minus(o).SqrMagnitude() == r2 && c.Minus(o).SqrMagnitude() == r2
    ensures Determinant(GetMatrixFromPoints(a, b, c, p)) == Orientation(a, b, c) * (r2 - p.Minus(o).SqrMagnitude())
  {
    var a', b', c', p' := a.Minus(o), b.Minus(o), c.Minus(o), p.Minus(o);
    TranslationKeepsDeterminant(a, b, c, p, o);
    assert GetMatrixFromPoints(a', b', c', p')
        == Matrix4x4(Vec4(a'.x, a'.y, r2, 1.0), Vec4(b'.x, b'.y, r2, 1.0), Vec4(c'.x, c'.y, r2, 1.0),
                     Vec4(p'.x, p'.y, p'.SqrMagnitude(), 1.0));
    EqualHeightsFactor(a', b', c', p', r2, p'.SqrMagnitude());
    OrientationIsTranslationInvariant(a, b, c, o);
  }

  /**
   * For a counter-clockwise triangle whose circumcircle is computed exactly,
   * the determinant test and the later revision's circumcircle test agree.
   */
  lemma DeterminantTestAgreesWithCircumcircle(t: Triangle, point: Vec2, circle: CircumcircleFn)
    requires Orientation(t.a, t.b, t.c) > 0.0
    requires var r2 := t.Radius(circle) * t.Radius(circle);
             && t.a.Minus(t.Center(circle)).SqrMagnitude() == r2
             && t.b.Minus(t.Center(circle)).SqrMagnitude() == r2
             && t.c.Minus(t.Center(circle)).SqrMagnitude() == r2
    ensures DeterminantTest()(t, point) == t.IsPointWithinCircumference(point, circle)
  {
    var r2 := t.Radius(circle) * t.Radius(circle);
    DeterminantMeasuresCircle(t.a, t.b, t.c, point, t.Center(circle), r2);
    var o := Orientation(t.a, t.b, t.c);
    var gap := r2 - point.Minus(t.Center(circle)).SqrMagnitude();
    assert o * gap > 0.0 <==> gap > 0.0 by {
      if gap > 0.0 {
        assert o * gap > 0.0;
      } else {
        assert o * gap <= 0.0;
      }
    }
  }

  /** A vertex of the triangle is never strictly inside: the determinant has two equal columns. */
  lemma VertexIsNeverInside(t: Triangle, r: nat)
    requires r < 3
    ensures !DeterminantTest()(t, t.Vertices()[r])
  {
    DeterminantByDifferences(GetMatrixFromTriangle(t, t.Vertices()[r]));
  }

  /** The super-triangle runs counter-clockwise when the bounds and both tangents are positive. */
  lemma SuperTriangleIsCounterClockwise(id: nat, bounds: Vec2, angle: real, tanDeg: real -> real)
    requires bounds.x > 0.0 && bounds.y > 0.0 && tanDeg(angle) >= 0.0 && tanDeg(90.0 - angle) >= 0.0
    ensures var t := SuperTriangleAt(id, bounds, angle, tanDeg);
            Orientation(t.a, t.b, t.c) > 0.0
  {
    var t := SuperTriangleAt(id, bounds, angle, tanDeg);
    assert Orientation(t.a, t.b, t.c) == t.a.y * t.c.x;
    assert t.a.y > 0.0 && t.c.x > 0.0;
  }

  /**
   * `BowyerWatson(points)`: start from the super-triangle built from
   * `tempBounds` and `tempAngle`, insert every point with the determinant
   * test, then remove every triangle sharing a vertex with the super-triangle.
   */
  method BowyerWatson(points: seq<Vec2>, tempBounds: Vec2, tempAngle: real, tanDeg: real -> real)
    returns (triangulation: TriangleList)
    ensures fresh(triangulation)
    ensures var superTriangle := SuperTriangleAt(0, tempBounds, tempAngle, tanDeg);
            triangulation.items == ApartFrom(InsertAllSpec([superTriangle], points, DeterminantTest(), 1).0, superTriangle)
    ensures forall t | t in triangulation.items :: !t.SharesAnyVertex(SuperTriangleAt(0, tempBounds, tempAngle, tanDeg))
    ensures WellNumbered(triangulation.items, InsertAllSpec([SuperTriangleAt(0, tempBounds, tempAngle, tanDeg)], points, DeterminantTest(), 1).1)
  {
    var superTriangle := SuperTriangleAt(0, tempBounds, tempAngle, tanDeg);
    triangulation := new TriangleList([superTriangle]);
    var nextId := InsertPoints(triangulation, points, DeterminantTest(), 1);
    ghost var full := triangulation.items;
    RemoveTouching(triangulation, superTriangle);
    StripLeavesNoSuperVertex(full, superTriangle);
    StripKeepsNumbering(full, superTriangle, nextId);
  }
}
