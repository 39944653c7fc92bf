/**
 * The geometric primitives of the triangulator: triangles with their
 * circumcircle test, and undirected edges with value equality and a hash
 * that ignores the order of the end points.
 */
module DataStructures {
  import opened Geometry

  /** The circle a triangle computes once, in its constructor. */
  datatype Circle = Circle(center: Vec2, radius: real)

  /**
   * The circumcenter/circumradius formula. It is float-only maths (square
   * roots, and a division by zero for collinear vertices), so the caller
   * supplies it; a triangle's center and radius are this function of its
   * three vertices, since they are computed from them at construction and
   * never change.
   */
  type CircumcircleFn = (Vec2, Vec2, Vec2) -> Circle

  /**
   * A triangle. `Triangle` is a reference type without an `Equals` override,
   * so two triangles are the same only when they are the same object: `id`
   * stands for that object identity, and every `new Triangle` gets a fresh one.
   */
  datatype Triangle = Triangle(id: nat, a: Vec2, b: Vec2, c: Vec2) {

    /** The `vertices` array, in constructor order. */
    function Vertices(): seq<Vec2> {
      [a, b, c]
    }

    function A(): Vec2 { Vertices()[0] }
    function B(): Vec2 { Vertices()[1] }
    function C(): Vec2 { Vertices()[2] }

    function Center(circle: CircumcircleFn): Vec2 {
      circle(a, b, c).center
    }

    function Radius(circle: CircumcircleFn): real {
      circle(a, b, c).radius
    }

    /** Open containment: the squared distance to the center is below the squared radius. */
    predicate IsPointWithinCircumference(point: Vec2, circle: CircumcircleFn) {
      point.Minus(Center(circle)).SqrMagnitude() < Radius(circle) * Radius(circle)
    }

    /** The nested search over both vertex arrays, returning on the first equal pair. */
    predicate SharesAnyVertex(other: Triangle) {
      exists i, j | 0 <= i < 3 && 0 <= j < 3 :: Vertices()[i] == other.Vertices()[j]
    }
  }

  lemma AccessorsReturnConstructorArguments(id: nat, a: Vec2, b: Vec2, c: Vec2)
    ensures Triangle(id, a, b, c).A() == a
    ensures Triangle(id, a, b, c).B() == b
    ensures Triangle(id, a, b, c).C() == c
  {
  }

  /** A point exactly on the circumcircle is not within it: the test is strict. */
  lemma WithinCircumferenceIsStrict(t: Triangle, point: Vec2, circle: CircumcircleFn)
    requires point.Minus(t.Center(circle)).SqrMagnitude() == t.Radius(circle) * t.Radius(circle)
    ensures !t.IsPointWithinCircumference(point, circle)
  {
  }

  lemma SharesAnyVertexIsReflexive(t: Triangle)
    ensures t.SharesAnyVertex(t)
  {
    assert t.Vertices()[0] == t.Vertices()[0];
  }

  lemma SharesAnyVertexIsSymmetric(t: Triangle, u: Triangle)
    ensures t.SharesAnyVertex(u) <==> u.SharesAnyVertex(t)
  {
    if t.SharesAnyVertex(u) {
      var i, j :| 0 <= i < 3 && 0 <= j < 3 && t.Vertices()[i] == u.Vertices()[j];
      assert u.Vertices()[j] == t.Vertices()[i];
    }
    if u.SharesAnyVertex(t) {
      var i, j :| 0 <= i < 3 && 0 <= j < 3 && u.Vertices()[i] == t.Vertices()[j];
      assert t.Vertices()[j] == u.Vertices()[i];
    }
  }

  /** Sharing a vertex means some named vertex of one equals some named vertex of the other. */
  lemma SharesAnyVertexIffCommonPoint(t: Triangle, u: Triangle)
    ensures t.SharesAnyVertex(u) <==> (t.a in {u.a, u.b, u.c} || t.b in {u.a, u.b, u.c} || t.c in {u.a, u.b, u.c})
  {
    if t.a == u.a { assert t.Vertices()[0] == u.Vertices()[0]; }
    if t.a == u.b { assert t.Vertices()[0] == u.Vertices()[1]; }
    if t.a == u.c { assert t.Vertices()[0] == u.Vertices()[2]; }
    if t.b == u.a { assert t.Vertices()[1] == u.Vertices()[0]; }
    if t.b == u.b { assert t.Vertices()[1] == u.Vertices()[1]; }
    if t.b == u.c { assert t.Vertices()[1] == u.Vertices()[2]; }
    if t.c == u.a { assert t.Vertices()[2] == u.Vertices()[0]; }
    if t.c == u.b { assert t.Vertices()[2] == u.Vertices()[1]; }
    if t.c == u.c { assert t.Vertices()[2] == u.Vertices()[2]; }
  }

  /** An edge between two points; the order of the points is kept but ignored by equality. */
  datatype Edge = Edge(point1: Vec2, point2: Vec2)

  /** What `Equals(object obj)` can be handed: null, an edge, or an object of another type. */
  datatype Obj = Null | EdgeObject(edge: Edge) | OtherObject

  function Equals(e: Edge, obj: Obj): (r: bool)
    ensures obj == Null ==> !r
    ensures obj == OtherObject ==> !r
  {
    match obj
    case Null => false
    case OtherObject => false
    case EdgeObject(other) =>
      var samePoints := e.point1 == other.point1 && e.point2 == other.point2;
      var samePointsReversed := e.point1 == other.point2 && e.point2 == other.point1;
      samePoints || samePointsReversed
  }

  /** Undirected edge equality, as `GroupBy` and `HashSet<Edge>` see it. */
  predicate SameEdge(e: Edge, f: Edge) {
    Equals(e, EdgeObject(f))
  }

  /** Two edges are equal exactly when they join the same two points, counted with multiplicity. */
  lemma {:induction false} SameEdgeIffSameEndpoints(e: Edge, f: Edge)
    ensures SameEdge(e, f) <==> multiset{e.point1, e.point2} == multiset{f.point1, f.point2}
  {
    var me := multiset{e.point1, e.point2};
    var mf := multiset{f.point1, f.point2};
    if me == mf {
      assert e.point1 in mf;
      if e.point1 == f.point1 {
        assert me - multiset{e.point1} == multiset{e.point2};
        assert mf - multiset{f.point1} == multiset{f.point2};
      } else {
        assert e.point1 == f.point2;
        assert me - multiset{e.point1} == multiset{e.point2};
        assert mf - multiset{f.point2} == multiset{f.point1};
      }
    }
  }

  lemma ReversedEdgeIsEqual(a: Vec2, b: Vec2)
    ensures Equals(Edge(a, b), EdgeObject(Edge(b, a)))
  {
  }

  /** Undirected edge equality is an equivalence, as grouping by it requires. */
  lemma SameEdgeIsEquivalence(e: Edge, f: Edge, g: Edge)
    ensures SameEdge(e, e)
    ensures SameEdge(e, f) ==> SameEdge(f, e)
    ensures SameEdge(e, f) && SameEdge(f, g) ==> SameEdge(e, g)
  {
  }

  /** C#'s `(int)` cast of a float truncates toward zero. */
  function Truncate(r: real): int {
    if r >= 0.0 then r.Floor else -((-r).Floor)
  }

  const Two32 := 0x1_0000_0000

  /** The 32-bit two's-complement pattern of an integer, read as an unsigned number. */
  function Int32Bits(i: int): nat {
    i % Two32
  }

  /** One bit of an exclusive or. */
  function XorBit(x: nat, y: nat): nat {
    if x == y then 0 else 1
  }

  /** The bitwise exclusive or of the low `k` bits of `a` and `b`. */
  function XorBits(a: nat, b: nat, k: nat): nat
    decreases k
  {
    if k == 0 then 0 else XorBit(a % 2, b % 2) + 2 * XorBits(a / 2, b / 2, k - 1)
  }

  /** C#'s `^` on two `int`s, on their bit patterns. */
  function Xor32(a: nat, b: nat): nat {
    XorBits(a, b, 32)
  }

  /**
   * `GetHashCode`: the four truncated coordinates xor-ed together, from left
   * to right; an `int`'s own hash code is the `int` itself. The result is
   * given as its bit pattern.
   */
  function GetHashCode(e: Edge): nat {
    Xor32(Xor32(Xor32(Int32Bits(Truncate(e.point1.x)), Int32Bits(Truncate(e.point1.y))),
                Int32Bits(Truncate(e.point2.x))),
          Int32Bits(Truncate(e.point2.y)))
  }

  lemma LowestBit(bit: nat, rest: nat)
    requires bit < 2
    ensures (bit + 2 * rest) % 2 == bit && (bit + 2 * rest) / 2 == rest
  {
  }

  lemma {:induction false} XorBitsCommutes(a: nat, b: nat, k: nat)
    ensures XorBits(a, b, k) == XorBits(b, a, k)
    decreases k
  {
    if k > 0 {
      XorBitsCommutes(a / 2, b / 2, k - 1);
    }
  }

  lemma XorBitAssociates(x: nat, y: nat, z: nat)
    requires x < 2 && y < 2 && z < 2
    ensures XorBit(XorBit(x, y), z) == XorBit(x, XorBit(y, z))
  {
  }

  lemma {:induction false} XorBitsAssociates(a: nat, b: nat, c: nat, k: nat)
    ensures XorBits(XorBits(a, b, k), c, k) == XorBits(a, XorBits(b, c, k), k)
    decreases k
  {
    if k > 0 {
      var ab, bc := XorBits(a, b, k), XorBits(b, c, k);
      var abRest, bcRest := XorBits(a / 2, b / 2, k - 1), XorBits(b / 2, c / 2, k - 1);
      LowestBit(XorBit(a % 2, b % 2), abRest);
      LowestBit(XorBit(b % 2, c % 2), bcRest);
      assert ab % 2 == XorBit(a % 2, b % 2) && ab / 2 == abRest;
      assert bc % 2 == XorBit(b % 2, c % 2) && bc / 2 == bcRest;
      XorBitsAssociates(a / 2, b / 2, c / 2, k - 1);
      XorBitAssociates(a % 2, b % 2, c % 2);
    }
  }

  /** Xor-ing the first pair and then the second gives what xor-ing the second pair and then the first does. */
  lemma XorPairsCommute(p: nat, q: nat, r: nat, s: nat)
    ensures Xor32(Xor32(Xor32(p, q), r), s) == Xor32(Xor32(Xor32(r, s), p), q)
  {
    XorBitsAssociates(p, q, r, 32);
    XorBitsAssociates(p, Xor32(q, r), s, 32);
    XorBitsAssociates(q, r, s, 32);
    XorBitsCommutes(p, Xor32(Xor32(q, r), s), 32);
    XorBitsCommutes(q, Xor32(r, s), 32);
    XorBitsAssociates(Xor32(r, s), q, p, 32);
    XorBitsCommutes(q, p, 32);
    XorBitsAssociates(Xor32(r, s), p, q, 32);
  }

  /** Swapping the end points leaves the hash unchanged, so equal edges hash alike. */
  lemma EqualEdgesHashAlike(e: Edge, f: Edge)
    requires SameEdge(e, f)
    ensures GetHashCode(e) == GetHashCode(f)
  {
    if e.point1 != f.point1 || e.point2 != f.point2 {
      assert e.point1 == f.point2 && e.point2 == f.point1;
      XorPairsCommute(Int32Bits(Truncate(e.point1.x)), Int32Bits(Truncate(e.point1.y)),
                      Int32Bits(Truncate(e.point2.x)), Int32Bits(Truncate(e.point2.y)));
    }
  }
}
