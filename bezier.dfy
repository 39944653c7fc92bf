/**
 * `BezierCurve.ConstructBezierCurve`: one cubic segment per point of a closed
 * point list. Segment i starts at point i; its first control point leaves
 * point i along the direction from the previous to the next point, and its
 * second control point enters the next point along the same kind of direction,
 * reversed. The two control points at a point are therefore mirror images
 * about it, which makes consecutive segments join without a kink.
 */
module BezierCurve {
  import opened Geometry
  import opened Wrappers
  import opened Curvature

  /** Unity's `BezierPathSegment`: the start point and the two control points. */
  datatype BezierPathSegment = BezierPathSegment(P0: Vec2, P1: Vec2, P2: Vec2)

  /** The index before `i` in a closed list of `n` points. */
  function Previous(i: int, n: nat): nat
    requires 2 <= n
  {
    Modulo(i - 1, n - 1)
  }

  /** The index after `i` in a closed list of `n` points. */
  function Next(i: int, n: nat): nat
    requires 2 <= n
  {
    Modulo(i + 1, n - 1)
  }

  /** The unit direction from the previous point to the next one. */
  function Direction(pointIndex: nat, points: seq<CurvaturePoint>, normalize: Normalizer): Vec2
    requires 2 <= |points|
  {
    var n := |points|;
    normalize(points[Next(pointIndex, n)].point.Minus(points[Previous(pointIndex, n)].point))
  }

  /**
   * `CalculateControlPoint`: the point moved by `curveAmount` along the
   * direction, forwards or backwards. Its `ref bool redoLast` is never
   * assigned, so it is not part of the model.
   */
  function CalculateControlPoint(pointIndex: nat, forward: bool, curveAmount: real,
                                 points: seq<CurvaturePoint>, normalize: Normalizer): Vec2
    requires 2 <= |points| && pointIndex < |points|
  {
    var direction := Direction(pointIndex, points, normalize).Times(if forward then 1.0 else -1.0);
    points[pointIndex].point.Plus(direction.Times(curveAmount))
  }

  /**
   * A control point sits `curveAmount` away from its point along the
   * direction: ahead of it going forwards, behind it going backwards.
   */
  lemma ControlPointOffset(pointIndex: nat, forward: bool, curveAmount: real, points: seq<CurvaturePoint>, normalize: Normalizer)
    requires 2 <= |points| && pointIndex < |points|
    ensures CalculateControlPoint(pointIndex, forward, curveAmount, points, normalize).Minus(points[pointIndex].point)
         == Direction(pointIndex, points, normalize).Times(if forward then curveAmount else -curveAmount)
  {
  }

  /** The outgoing and the incoming control point of a point are mirror images about it. */
  lemma ControlPointsMirror(pointIndex: nat, curveAmount: real, points: seq<CurvaturePoint>, normalize: Normalizer)
    requires 2 <= |points| && pointIndex < |points|
    ensures CalculateControlPoint(pointIndex, true, curveAmount, points, normalize)
              .Plus(CalculateControlPoint(pointIndex, false, curveAmount, points, normalize))
         == points[pointIndex].point.Times(2.0)
  {
  }

  /** Segment i as the loop leaves it. */
  function Segment(points: seq<CurvaturePoint>, i: nat, normalize: Normalizer): BezierPathSegment
    requires 2 <= |points| && i < |points|
  {
    var next := Next(i, |points|);
    BezierPathSegment(
      points[i].point,
      CalculateControlPoint(i, true, points[i].curveAmount, points, normalize),
      CalculateControlPoint(next, false, points[next].curveAmount, points, normalize))
  }

  /**
   * Segment i ends where segment `Next(i)` starts, and the control points on
   * either side of that joint mirror each other about it: the curve is
   * tangent-continuous there.
   */
  lemma SegmentsJoinSmoothly(points: seq<CurvaturePoint>, i: nat, normalize: Normalizer)
    requires 2 <= |points| && i < |points|
    ensures var next := Next(i, |points|);
            && Segment(points, i, normalize).P2.Plus(Segment(points, next, normalize).P1) == points[next].point.Times(2.0)
            && Segment(points, next, normalize).P0 == points[next].point
  {
    ControlPointsMirror(Next(i, |points|), points[Next(i, |points|)].curveAmount, points, normalize);
  }

  /**
   * With at least three points the previous and next indices both differ from
   * the point's own, so the direction does not depend on the point itself.
   */
  lemma DirectionIgnoresOwnPoint(pointIndex: nat, points: seq<CurvaturePoint>, normalize: Normalizer, moved: Vec2)
    requires 3 <= |points| && pointIndex < |points|
    ensures Direction(pointIndex, points, normalize)
         == Direction(pointIndex, points[pointIndex := points[pointIndex].(point := moved)], normalize)
  {
    var n := |points|;
    assert Previous(pointIndex, n) != pointIndex;
    assert Next(pointIndex, n) != pointIndex;
  }

  /**
   * The loop that fills the `path` array. A single point makes the modulus 0,
   * where `Utility.Modulo` divides by zero: the result is then `None`.
   */
  method ConstructBezierCurve(points: seq<CurvaturePoint>, normalize: Normalizer)
    returns (path: Option<seq<BezierPathSegment>>)
    ensures path.None? <==> |points| == 1
    ensures path.Some? ==>
              && |path.value| == |points|
              && forall i | 0 <= i < |points| :: path.value[i] == Segment(points, i, normalize)
  {
    var n := |points|;
    if n == 1 {
      return None;
    }
    var segments := new BezierPathSegment[n](_ => BezierPathSegment(Zero2, Zero2, Zero2));
    for i := 0 to n
      invariant forall k | 0 <= k < i :: segments[k] == Segment(points, k, normalize)
    {
      FillSegment(segments, i, points, normalize);
    }
    path := Some(segments[..]);
  }

  /** One iteration of the loop: the three fields of `path[i]`, one after the other. */
  method FillSegment(segments: array<BezierPathSegment>, i: nat, points: seq<CurvaturePoint>, normalize: Normalizer)
    requires 2 <= |points| == segments.Length && i < |points|
    modifies segments
    ensures segments[i] == Segment(points, i, normalize)
    ensures forall k | 0 <= k < segments.Length && k != i :: segments[k] == old(segments[k])
  {
    var n := |points|;
    segments[i] := segments[i].(P0 := points[i].point);
    segments[i] := segments[i].(P1 := CalculateControlPoint(i, true, points[i].curveAmount, points, normalize));
    var nextPointIndex := Next(i, n);
    segments[i] := segments[i].(P2 := CalculateControlPoint(nextPointIndex, false, points[nextPointIndex].curveAmount, points, normalize));
  }
}
