/**
 * The Bowyer-Watson insertion step shared by both revisions of the
 * triangulator, the super-triangle they seed it with, and the final pass that
 * strips every triangle touching the super-triangle.
 *
 * Both revisions hold the triangulation in a `List<Triangle>` that they
 * change in place; `TriangleList` models that list. The two revisions differ
 * only in the in-circumcircle test, which is a parameter here.
 */
module Triangulation {
  import opened Geometry
  import opened Seqs
  import opened DataStructures

  /** The in-circumcircle test a revision uses to find the triangles a new point invalidates. */
  type InsideFn = (Triangle, Vec2) -> bool

  /** A `List<Triangle>`, changed in place by `Add`, `Remove` and `RemoveAt`. */
  class TriangleList {
    var items: seq<Triangle>

    constructor (init: seq<Triangle>)
      ensures items == init
    {
      items := init;
    }

    method Add(t: Triangle)
      modifies this
      ensures items == old(items) + [t]
    {
      items := items + [t];
    }

    method Remove(t: Triangle) returns (removed: bool)
      modifies this
      ensures removed == (t in old(items))
      ensures items == RemoveFirst(old(items), t)
    {
      removed := t in items;
      items := RemoveFirst(items, t);
    }

    method RemoveAt(i: nat)
      requires i < |items|
      modifies this
      ensures items == old(items)[..i] + old(items)[i + 1..]
    {
      items := items[..i] + items[i + 1..];
    }
  }

  /**
   * Every triangle in the list is a distinct object, and every identity in it
   * was handed out before `next`.
   */
  ghost predicate WellNumbered(tris: seq<Triangle>, next: nat) {
    && (forall i, j | 0 <= i < j < |tris| :: tris[i].id != tris[j].id)
    && (forall t | t in tris :: t.id < next)
  }

  lemma WellNumberedIsDistinct(tris: seq<Triangle>, next: nat)
    requires WellNumbered(tris, next)
    ensures Distinct(tris)
  {
  }

  function Elems(s: seq<Triangle>): set<Triangle> {
    set t | t in s
  }

  // ---------------------------------------------------------------------
  // Selecting the bad triangles

  /** The triangles whose circumcircle holds `point`, in list order. */
  function BadTriangles(tris: seq<Triangle>, point: Vec2, inside: InsideFn): (r: seq<Triangle>)
    ensures |r| <= |tris|
  {
    if tris == [] then []
    else (if inside(tris[0], point) then [tris[0]] else []) + BadTriangles(tris[1..], point, inside)
  }

  /** The triangles that keep their place: those whose circumcircle does not hold `point`. */
  function Survivors(tris: seq<Triangle>, point: Vec2, inside: InsideFn): (r: seq<Triangle>)
    ensures |r| <= |tris|
  {
    if tris == [] then []
    else (if inside(tris[0], point) then [] else [tris[0]]) + Survivors(tris[1..], point, inside)
  }

  /** A triangle is bad exactly when the new point is inside its circumcircle. */
  lemma {:induction false} BadTrianglesMembership(tris: seq<Triangle>, point: Vec2, inside: InsideFn, t: Triangle)
    ensures t in BadTriangles(tris, point, inside) <==> t in tris && inside(t, point)
  {
    if tris != [] {
      BadTrianglesMembership(tris[1..], point, inside, t);
      assert tris == [tris[0]] + tris[1..];
    }
  }

  lemma {:induction false} SurvivorsMembership(tris: seq<Triangle>, point: Vec2, inside: InsideFn, t: Triangle)
    ensures t in Survivors(tris, point, inside) <==> t in tris && !inside(t, point)
  {
    if tris != [] {
      SurvivorsMembership(tris[1..], point, inside, t);
      assert tris == [tris[0]] + tris[1..];
    }
  }

  /** Every triangle is either bad or a survivor. */
  lemma {:induction false} BadAndSurvivorsPartition(tris: seq<Triangle>, point: Vec2, inside: InsideFn)
    ensures |BadTriangles(tris, point, inside)| + |Survivors(tris, point, inside)| == |tris|
  {
    if tris != [] {
      BadAndSurvivorsPartition(tris[1..], point, inside);
    }
  }

  lemma {:induction false} BadTrianglesSnoc(tris: seq<Triangle>, t: Triangle, point: Vec2, inside: InsideFn)
    ensures BadTriangles(tris + [t], point, inside)
         == BadTriangles(tris, point, inside) + (if inside(t, point) then [t] else [])
  {
    if tris == [] {
      assert [t][1..] == [];
    } else {
      assert (tris + [t])[1..] == tris[1..] + [t];
      BadTrianglesSnoc(tris[1..], t, point, inside);
    }
  }

  /** Removing exactly the bad triangles from the list leaves the survivors. */
  lemma {:induction false} WithoutBadIsSurvivors(tris: seq<Triangle>, drop: set<Triangle>, point: Vec2, inside: InsideFn)
    requires forall t | t in tris :: t in drop <==> inside(t, point)
    ensures Without(tris, drop) == Survivors(tris, point, inside)
  {
    if tris != [] {
      WithoutBadIsSurvivors(tris[1..], drop, point, inside);
    }
  }

  lemma {:induction false} SurvivorsKeepNumbering(tris: seq<Triangle>, point: Vec2, inside: InsideFn, next: nat)
    requires WellNumbered(tris, next)
    ensures WellNumbered(Survivors(tris, point, inside), next)
  {
    if tris != [] {
      SurvivorsKeepNumbering(tris[1..], point, inside, next);
      forall t | t in Survivors(tris[1..], point, inside)
        ensures t.id != tris[0].id
      {
        SurvivorsMembership(tris[1..], point, inside, t);
      }
      forall t | t in Survivors(tris, point, inside)
        ensures t in tris
      {
        SurvivorsMembership(tris, point, inside, t);
      }
    }
  }

  // ---------------------------------------------------------------------
  // The cavity boundary

  /** The three edges `BowyerWatson` collects from a bad triangle. */
  function TriangleEdges(t: Triangle): seq<Edge> {
    [Edge(t.A(), t.B()), Edge(t.B(), t.C()), Edge(t.C(), t.A())]
  }

  /** All edges of the bad triangles, three per triangle, in order. */
  function EdgesOf(ts: seq<Triangle>): (r: seq<Edge>)
    ensures |r| == 3 * |ts|
    decreases |ts|
  {
    if ts == [] then [] else EdgesOf(ts[..|ts| - 1]) + TriangleEdges(ts[|ts| - 1])
  }

  lemma {:induction false} EdgesOfAt(ts: seq<Triangle>, k: nat, r: nat)
    requires k < |ts| && r < 3
    ensures |EdgesOf(ts)| == 3 * |ts|
    ensures EdgesOf(ts)[3 * k + r] == TriangleEdges(ts[k])[r]
    decreases |ts|
  {
    var init := ts[..|ts| - 1];
    if k < |ts| - 1 {
      EdgesOfAt(init, k, r);
    } else if init != [] {
      EdgesOfAt(init, 0, 0);
    }
  }

  /** How many of `es` are equal to `e` as undirected edges: the size of `e`'s group. */
  function Count(es: seq<Edge>, e: Edge): (n: nat)
    ensures n <= |es|
  {
    if es == [] then 0
    else (if SameEdge(es[0], e) then 1 else 0) + Count(es[1..], e)
  }

  /** The edges of `es` whose group in `all` has exactly one member, in order. */
  function Boundary(es: seq<Edge>, all: seq<Edge>): (r: seq<Edge>)
    ensures |r| <= |es|
  {
    if es == [] then []
    else (if Count(all, es[0]) == 1 then [es[0]] else []) + Boundary(es[1..], all)
  }

  /** The cavity's boundary when `point` is inserted into `tris`. */
  function CavityBoundary(tris: seq<Triangle>, point: Vec2, inside: InsideFn): seq<Edge> {
    var edges := EdgesOf(BadTriangles(tris, point, inside));
    Boundary(edges, edges)
  }

  /** The boundary is exactly the edges that occur once among the bad triangles' edges. */
  lemma {:induction false} BoundaryMembership(es: seq<Edge>, all: seq<Edge>, f: Edge)
    ensures f in Boundary(es, all) <==> f in es && Count(all, f) == 1
  {
    if es != [] {
      BoundaryMembership(es[1..], all, f);
      assert es == [es[0]] + es[1..];
    }
  }

  /** Equal edges fall in the same group. */
  lemma {:induction false} CountRespectsSameEdge(es: seq<Edge>, e: Edge, f: Edge)
    requires SameEdge(e, f)
    ensures Count(es, e) == Count(es, f)
  {
    if es != [] {
      CountRespectsSameEdge(es[1..], e, f);
      SameEdgeIsEquivalence(es[0], e, f);
      SameEdgeIsEquivalence(es[0], f, e);
      SameEdgeIsEquivalence(e, f, e);
    }
  }

  /** Two different positions holding edges equal to `e` make its group at least two strong. */
  lemma {:induction false} CountAtLeastTwo(es: seq<Edge>, e: Edge, i: nat, j: nat)
    requires i < j < |es|
    requires SameEdge(es[i], e) && SameEdge(es[j], e)
    ensures Count(es, e) >= 2
  {
    if i > 0 {
      CountAtLeastTwo(es[1..], e, i - 1, j - 1);
    } else {
      CountAtLeastOne(es[1..], e, j - 1);
    }
  }

  lemma {:induction false} CountAtLeastOne(es: seq<Edge>, e: Edge, j: nat)
    requires j < |es|
    requires SameEdge(es[j], e)
    ensures Count(es, e) >= 1
  {
    if j > 0 {
      CountAtLeastOne(es[1..], e, j - 1);
    }
  }

  lemma {:induction false} BoundaryCountAtMost(es: seq<Edge>, all: seq<Edge>, e: Edge)
    ensures Count(Boundary(es, all), e) <= Count(es, e)
  {
    if es != [] {
      BoundaryCountAtMost(es[1..], all, e);
      var head := if Count(all, es[0]) == 1 then [es[0]] else [];
      CountAppend(head, Boundary(es[1..], all), e);
    }
  }

  lemma {:induction false} CountAppend(s: seq<Edge>, t: seq<Edge>, e: Edge)
    ensures Count(s + t, e) == Count(s, e) + Count(t, e)
  {
    if s == [] {
      assert s + t == t;
    } else {
      assert (s + t)[1..] == s[1..] + t;
      CountAppend(s[1..], t, e);
    }
  }

  /**
   * No two boundary edges are equal, so building the `HashSet<Edge>` from
   * them drops none.
   */
  lemma BoundaryEdgesAreDistinct(edges: seq<Edge>)
    ensures forall i, j | 0 <= i < j < |Boundary(edges, edges)| ::
              !SameEdge(Boundary(edges, edges)[i], Boundary(edges, edges)[j])
  {
    var b := Boundary(edges, edges);
    forall i, j | 0 <= i < j < |b|
      ensures !SameEdge(b[i], b[j])
    {
      if SameEdge(b[i], b[j]) {
        SameEdgeIsEquivalence(b[j], b[j], b[j]);
        CountAtLeastTwo(b, b[j], i, j);
        BoundaryCountAtMost(edges, edges, b[j]);
        BoundaryMembership(edges, edges, b[j]);
        assert false;
      }
    }
  }

  /**
   * An edge that two different bad triangles both have is not on the
   * boundary: no boundary edge equals it.
   */
  lemma SharedEdgeIsDropped(bad: seq<Triangle>, e: Edge, k1: nat, r1: nat, k2: nat, r2: nat)
    requires k1 < k2 < |bad| && r1 < 3 && r2 < 3
    requires SameEdge(TriangleEdges(bad[k1])[r1], e) && SameEdge(TriangleEdges(bad[k2])[r2], e)
    ensures forall f | f in Boundary(EdgesOf(bad), EdgesOf(bad)) :: !SameEdge(f, e)
  {
    var edges := EdgesOf(bad);
    SharedEdgeCountsTwice(bad, e, k1, r1, k2, r2);
    forall f | f in Boundary(edges, edges)
      ensures !SameEdge(f, e)
    {
      BoundaryMembership(edges, edges, f);
      if SameEdge(f, e) {
        CountRespectsSameEdge(edges, f, e);
      }
    }
  }

  lemma SharedEdgeCountsTwice(bad: seq<Triangle>, e: Edge, k1: nat, r1: nat, k2: nat, r2: nat)
    requires k1 < k2 < |bad| && r1 < 3 && r2 < 3
    requires SameEdge(TriangleEdges(bad[k1])[r1], e) && SameEdge(TriangleEdges(bad[k2])[r2], e)
    ensures Count(EdgesOf(bad), e) >= 2
  {
    EdgesOfAt(bad, k1, r1);
    EdgesOfAt(bad, k2, r2);
    CountAtLeastTwo(EdgesOf(bad), e, 3 * k1 + r1, 3 * k2 + r2);
  }

  // ---------------------------------------------------------------------
  // Fanning the new triangles and the insertion step

  /** One new triangle per boundary edge: the edge's end points, then the inserted point. */
  function Fan(boundary: seq<Edge>, point: Vec2, firstId: nat): (r: seq<Triangle>)
    ensures |r| == |boundary|
    decreases |boundary|
  {
    if boundary == [] then []
    else
      var n := |boundary| - 1;
      Fan(boundary[..n], point, firstId) + [Triangle(firstId + n, boundary[n].point1, boundary[n].point2, point)]
  }

  lemma {:induction false} FanAt(boundary: seq<Edge>, point: Vec2, firstId: nat, k: nat)
    requires k < |boundary|
    ensures |Fan(boundary, point, firstId)| == |boundary|
    ensures Fan(boundary, point, firstId)[k] == Triangle(firstId + k, boundary[k].point1, boundary[k].point2, point)
    decreases |boundary|
  {
    var n := |boundary| - 1;
    if k < n {
      FanAt(boundary[..n], point, firstId, k);
    } else if n > 0 {
      FanAt(boundary[..n], point, firstId, 0);
    }
  }

  /** The triangulation after inserting one point, and the next free identity. */
  function InsertPointSpec(tris: seq<Triangle>, point: Vec2, inside: InsideFn, firstId: nat): (seq<Triangle>, nat) {
    var boundary := CavityBoundary(tris, point, inside);
    (Survivors(tris, point, inside) + Fan(boundary, point, firstId), firstId + |boundary|)
  }

  /** The triangulation after inserting the points one by one, in order. */
  function InsertAllSpec(tris: seq<Triangle>, points: seq<Vec2>, inside: InsideFn, firstId: nat): (seq<Triangle>, nat)
    decreases |points|
  {
    if points == [] then (tris, firstId)
    else
      var (next, nextId) := InsertPointSpec(tris, points[0], inside, firstId);
      InsertAllSpec(next, points[1..], inside, nextId)
  }

  /** After one insertion the bad triangles are gone and every other triangle is still there. */
  lemma InsertPointReplacesBad(tris: seq<Triangle>, point: Vec2, inside: InsideFn, firstId: nat)
    requires WellNumbered(tris, firstId)
    ensures forall t | t in tris :: t in InsertPointSpec(tris, point, inside, firstId).0 <==> !inside(t, point)
  {
    var boundary := CavityBoundary(tris, point, inside);
    var fan := Fan(boundary, point, firstId);
    forall t | t in tris
      ensures t in Survivors(tris, point, inside) + fan <==> !inside(t, point)
    {
      SurvivorsMembership(tris, point, inside, t);
      if t in fan {
        var k :| 0 <= k < |fan| && fan[k] == t;
        FanAt(boundary, point, firstId, k);
      }
    }
  }

  /** One insertion changes the count by |boundary| - |bad|. */
  lemma InsertPointCount(tris: seq<Triangle>, point: Vec2, inside: InsideFn, firstId: nat)
    ensures |InsertPointSpec(tris, point, inside, firstId).0|
         == |tris| - |BadTriangles(tris, point, inside)| + |CavityBoundary(tris, point, inside)|
  {
    BadAndSurvivorsPartition(tris, point, inside);
  }

  /**
   * The survivors keep their order at the front; after them comes one new
   * triangle per boundary edge, with the edge's end points as A and B and the
   * inserted point as C.
   */
  lemma InsertPointShape(tris: seq<Triangle>, point: Vec2, inside: InsideFn, firstId: nat)
    ensures var next := InsertPointSpec(tris, point, inside, firstId).0;
            var boundary := CavityBoundary(tris, point, inside);
            var kept := Survivors(tris, point, inside);
            && |next| == |kept| + |boundary|
            && next[..|kept|] == kept
            && forall k | 0 <= k < |boundary| ::
                 next[|kept| + k] == Triangle(firstId + k, boundary[k].point1, boundary[k].point2, point)
  {
    var boundary := CavityBoundary(tris, point, inside);
    var kept := Survivors(tris, point, inside);
    var fan := Fan(boundary, point, firstId);
    var next := kept + fan;
    assert next == InsertPointSpec(tris, point, inside, firstId).0;
    assert next[..|kept|] == kept;
    forall k | 0 <= k < |boundary|
      ensures next[|kept| + k] == Triangle(firstId + k, boundary[k].point1, boundary[k].point2, point)
    {
      FanAt(boundary, point, firstId, k);
      assert next[|kept| + k] == fan[k];
    }
  }

  /** The new triangles are fresh objects, so the list still holds no object twice. */
  lemma InsertPointKeepsNumbering(tris: seq<Triangle>, point: Vec2, inside: InsideFn, firstId: nat)
    requires WellNumbered(tris, firstId)
    ensures WellNumbered(InsertPointSpec(tris, point, inside, firstId).0, InsertPointSpec(tris, point, inside, firstId).1)
  {
    var boundary := CavityBoundary(tris, point, inside);
    var kept := Survivors(tris, point, inside);
    var fan := Fan(boundary, point, firstId);
    var next := kept + fan;
    SurvivorsKeepNumbering(tris, point, inside, firstId);
    forall k | 0 <= k < |fan|
      ensures fan[k].id == firstId + k
    {
      FanAt(boundary, point, firstId, k);
    }
    forall t | t in next
      ensures t.id < firstId + |boundary|
    {
      if t in fan {
        var k :| 0 <= k < |fan| && fan[k] == t;
      }
    }
    forall i, j | 0 <= i < j < |next|
      ensures next[i].id != next[j].id
    {
      if j >= |kept| && i < |kept| {
        assert next[i] in kept;
      }
    }
  }

  /** Insertion keeps every triangle a distinct object. */
  lemma {:induction false} InsertAllKeepsNumbering(tris: seq<Triangle>, points: seq<Vec2>, inside: InsideFn, firstId: nat)
    requires WellNumbered(tris, firstId)
    ensures WellNumbered(InsertAllSpec(tris, points, inside, firstId).0, InsertAllSpec(tris, points, inside, firstId).1)
    ensures InsertAllSpec(tris, points, inside, firstId).1 >= firstId
    decreases |points|
  {
    if points != [] {
      InsertPointKeepsNumbering(tris, points[0], inside, firstId);
      var (next, nextId) := InsertPointSpec(tris, points[0], inside, firstId);
      InsertAllKeepsNumbering(next, points[1..], inside, nextId);
    }
  }

  // ---------------------------------------------------------------------
  // The insertion loop, in place

  /** The `badTriangles` loop: every triangle whose circumcircle holds the point, in list order. */
  method CollectBadTriangles(tris: seq<Triangle>, point: Vec2, inside: InsideFn) returns (badTriangles: seq<Triangle>)
    ensures badTriangles == BadTriangles(tris, point, inside)
  {
    badTriangles := [];
    for i := 0 to |tris|
      invariant badTriangles == BadTriangles(tris[..i], point, inside)
    {
      var triangle := tris[i];
      assert tris[..i + 1] == tris[..i] + [triangle];
      BadTrianglesSnoc(tris[..i], triangle, point, inside);
      if inside(triangle, point) {
        badTriangles := badTriangles + [triangle];
      }
    }
    assert tris[..|tris|] == tris;
  }

  /** The `edges` loop: the three edges of each bad triangle. */
  method CollectEdges(badTriangles: seq<Triangle>) returns (edges: seq<Edge>)
    ensures edges == EdgesOf(badTriangles)
  {
    edges := [];
    for k := 0 to |badTriangles|
      invariant edges == EdgesOf(badTriangles[..k])
    {
      var triangle := badTriangles[k];
      assert badTriangles[..k + 1][..k] == badTriangles[..k];
      edges := edges + [Edge(triangle.A(), triangle.B()), Edge(triangle.B(), triangle.C()), Edge(triangle.C(), triangle.A())];
    }
    assert badTriangles[..|badTriangles|] == badTriangles;
  }

  /** `triangulation.Remove(triangle)` for every bad triangle. */
  method RemoveBadTriangles(triangulation: TriangleList, badTriangles: seq<Triangle>)
    requires Distinct(triangulation.items)
    modifies triangulation
    ensures triangulation.items == Without(old(triangulation.items), Elems(badTriangles))
  {
    ghost var orig := triangulation.items;
    WithoutNothing(orig);
    assert Elems(badTriangles[..0]) == {};
    for k := 0 to |badTriangles|
      invariant triangulation.items == Without(orig, Elems(badTriangles[..k]))
    {
      RemoveFirstFromWithout(orig, Elems(badTriangles[..k]), badTriangles[k]);
      assert Elems(badTriangles[..k + 1]) == Elems(badTriangles[..k]) + {badTriangles[k]} by {
        assert badTriangles[..k + 1] == badTriangles[..k] + [badTriangles[k]];
      }
      var _ := triangulation.Remove(badTriangles[k]);
    }
    assert badTriangles[..|badTriangles|] == badTriangles;
  }

  /** The `boundry` loop: one new triangle per boundary edge, numbered from `firstId`. */
  method AddFan(triangulation: TriangleList, boundary: seq<Edge>, point: Vec2, firstId: nat) returns (nextId: nat)
    modifies triangulation
    ensures triangulation.items == old(triangulation.items) + Fan(boundary, point, firstId)
    ensures nextId == firstId + |boundary|
  {
    ghost var orig := triangulation.items;
    nextId := firstId;
    for k := 0 to |boundary|
      invariant triangulation.items == orig + Fan(boundary[..k], point, firstId)
      invariant nextId == firstId + k
    {
      var edge := boundary[k];
      assert boundary[..k + 1][..k] == boundary[..k];
      triangulation.Add(Triangle(nextId, edge.point1, edge.point2, point));
      nextId := nextId + 1;
    }
    assert boundary[..|boundary|] == boundary;
  }

  /**
   * One pass of the `foreach (point in points)` body: collect the bad
   * triangles, collect their edges, remove the bad triangles, keep the edges
   * that occur once, and add one fan triangle per such edge.
   */
  method InsertPoint(triangulation: TriangleList, point: Vec2, inside: InsideFn, firstId: nat) returns (nextId: nat)
    requires WellNumbered(triangulation.items, firstId)
    modifies triangulation
    ensures (triangulation.items, nextId) == InsertPointSpec(old(triangulation.items), point, inside, firstId)
  {
    ghost var orig := triangulation.items;
    var badTriangles := CollectBadTriangles(triangulation.items, point, inside);
    var edges := CollectEdges(badTriangles);
    WellNumberedIsDistinct(orig, firstId);
    RemoveBadTriangles(triangulation, badTriangles);
    forall t | t in orig
      ensures t in Elems(badTriangles) <==> inside(t, point)
    {
      BadTrianglesMembership(orig, point, inside, t);
    }
    WithoutBadIsSurvivors(orig, Elems(badTriangles), point, inside);
    var boundary := Boundary(edges, edges);
    nextId := AddFan(triangulation, boundary, point, firstId);
  }

  /** The `foreach (point in points)` loop: every point is inserted in order, into the same list. */
  method InsertPoints(triangulation: TriangleList, points: seq<Vec2>, inside: InsideFn, firstId: nat) returns (nextId: nat)
    requires WellNumbered(triangulation.items, firstId)
    modifies triangulation
    ensures (triangulation.items, nextId) == InsertAllSpec(old(triangulation.items), points, inside, firstId)
    ensures WellNumbered(triangulation.items, nextId)
  {
    ghost var orig := triangulation.items;
    nextId := firstId;
    for i := 0 to |points|
      invariant WellNumbered(triangulation.items, nextId)
      invariant InsertAllSpec(orig, points, inside, firstId) == InsertAllSpec(triangulation.items, points[i..], inside, nextId)
    {
      assert points[i..][1..] == points[i + 1..];
      InsertPointKeepsNumbering(triangulation.items, points[i], inside, nextId);
      nextId := InsertPoint(triangulation, points[i], inside, nextId);
    }
    assert points[|points|..] == [];
  }

  // ---------------------------------------------------------------------
  // The super-triangle

  /**
   * The right triangle with the right angle at the origin that encloses the
   * rectangle from the origin to `bounds`: A on the y axis, B the origin, C on
   * the x axis. `tanDeg(d)` stands for `Mathf.Tan(d * Mathf.Deg2Rad)`.
   */
  function SuperTriangleAt(id: nat, bounds: Vec2, angle: real, tanDeg: real -> real): (t: Triangle)
    ensures t.A().x == 0.0 && t.B() == Zero2 && t.C().y == 0.0
  {
    var angleA := angle;
    var angleB := 90.0 - angle;
    var pointA := Vec2(0.0, bounds.y + bounds.x * tanDeg(angleA));
    var pointB := Zero2;
    var pointC := Vec2(bounds.x + bounds.y * tanDeg(angleB), 0.0);
    Triangle(id, pointA, pointB, pointC)
  }

  /** `q` lies in the closed triangle with corners (0, h), the origin and (w, 0). */
  predicate InRightTriangle(q: Vec2, h: real, w: real) {
    q.x >= 0.0 && q.y >= 0.0 && q.x * h + q.y * w <= w * h
  }

  /**
   * For an angle strictly between 0 and 90 degrees, the super-triangle holds
   * the whole rectangle: its hypotenuse passes exactly through the corner
   * `bounds`, since tan(a) * tan(90 - a) = 1.
   */
  lemma SuperTriangleContainsBounds(id: nat, bounds: Vec2, angle: real, tanDeg: real -> real, q: Vec2)
    requires tanDeg(angle) > 0.0 && tanDeg(90.0 - angle) > 0.0
    requires tanDeg(angle) * tanDeg(90.0 - angle) == 1.0
    requires 0.0 <= q.x <= bounds.x && 0.0 <= q.y <= bounds.y
    ensures var t := SuperTriangleAt(id, bounds, angle, tanDeg);
            InRightTriangle(q, t.A().y, t.C().x)
  {
    var tA, tB := tanDeg(angle), tanDeg(90.0 - angle);
    var h := bounds.y + bounds.x * tA;
    var w := bounds.x + bounds.y * tB;
    assert h >= 0.0 && w >= 0.0;
    assert q.x * h <= bounds.x * h;
    assert q.y * w <= bounds.y * w;
    assert w * h == bounds.x * bounds.y + bounds.x * bounds.x * tA + bounds.y * bounds.y * tB + bounds.x * bounds.y * (tA * tB);
    assert bounds.x * h + bounds.y * w == w * h;
  }

  // ---------------------------------------------------------------------
  // Stripping the super-triangle

  /** The triangles that share no vertex with `superTriangle`, in their original order. */
  function ApartFrom(tris: seq<Triangle>, superTriangle: Triangle): (r: seq<Triangle>)
    ensures |r| <= |tris|
  {
    if tris == [] then []
    else (if tris[0].SharesAnyVertex(superTriangle) then [] else [tris[0]]) + ApartFrom(tris[1..], superTriangle)
  }

  /** What the strip keeps: exactly the triangles touching no super-triangle vertex. */
  lemma {:induction false} ApartFromMembership(tris: seq<Triangle>, superTriangle: Triangle, t: Triangle)
    ensures t in ApartFrom(tris, superTriangle) <==> t in tris && !t.SharesAnyVertex(superTriangle)
  {
    if tris != [] {
      ApartFromMembership(tris[1..], superTriangle, t);
      assert tris == [tris[0]] + tris[1..];
    }
  }

  /** The strip keeps the survivors in their relative order: it distributes over concatenation. */
  lemma {:induction false} ApartFromAppend(s: seq<Triangle>, t: seq<Triangle>, superTriangle: Triangle)
    ensures ApartFrom(s + t, superTriangle) == ApartFrom(s, superTriangle) + ApartFrom(t, superTriangle)
  {
    if s == [] {
      assert s + t == t;
    } else {
      assert (s + t)[1..] == s[1..] + t;
      ApartFromAppend(s[1..], t, superTriangle);
    }
  }

  /** After the strip no triangle shares a vertex with the super-triangle. */
  lemma StripLeavesNoSuperVertex(tris: seq<Triangle>, superTriangle: Triangle)
    ensures forall t | t in ApartFrom(tris, superTriangle) :: t in tris && !t.SharesAnyVertex(superTriangle)
  {
    forall t | t in ApartFrom(tris, superTriangle)
      ensures t in tris && !t.SharesAnyVertex(superTriangle)
    {
      ApartFromMembership(tris, superTriangle, t);
    }
  }

  /** The strip removes objects and adds none, so the list still holds each object once. */
  lemma {:induction false} StripKeepsNumbering(tris: seq<Triangle>, superTriangle: Triangle, next: nat)
    requires WellNumbered(tris, next)
    ensures WellNumbered(ApartFrom(tris, superTriangle), next)
  {
    if tris != [] {
      StripKeepsNumbering(tris[1..], superTriangle, next);
      var rest := ApartFrom(tris[1..], superTriangle);
      forall t | t in rest
        ensures t.id != tris[0].id
      {
        ApartFromMembership(tris[1..], superTriangle, t);
      }
    }
  }

  /** The backward `RemoveAt` loop over the list. */
  method RemoveTouching(triangulation: TriangleList, superTriangle: Triangle)
    modifies triangulation
    ensures triangulation.items == ApartFrom(old(triangulation.items), superTriangle)
  {
    ghost var orig := triangulation.items;
    var i := |triangulation.items|;
    while i > 0
      invariant 0 <= i <= |orig|
      invariant triangulation.items == orig[..i] + ApartFrom(orig[i..], superTriangle)
    {
      i := i - 1;
      assert orig[i..] == [orig[i]] + orig[i + 1..];
      assert orig[..i + 1] == orig[..i] + [orig[i]];
      var triangle := triangulation.items[i];
      if triangle.SharesAnyVertex(superTriangle) {
        triangulation.RemoveAt(i);
      }
    }
  }
}
