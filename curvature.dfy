/**
 * `Curvature`: one `CurvaturePoint` per point of a closed point list, each
 * carrying a random curve amount plus, optionally, a bonus for sharp corners:
 * the dot product of the unit vectors towards the previous and the next
 * point, clamped to [0, 1].
 */
module Curvature {
  import opened Geometry
  import opened Wrappers

  /** A point of the track and how much the curve should bend there. */
  datatype CurvaturePoint = CurvaturePoint(point: Vec2, curveAmount: real)

  /** `Random.Range(min, max)` on floats: a value between the two bounds, in either order. */
  predicate InRange(sample: real, min: real, max: real) {
    if min <= max then min <= sample <= max else max <= sample <= min
  }

  /**
   * `CalculateCurvature` for point `pointIndex`, with `sample` the draw of
   * `Random.Range(min, max)`. Neighbours are found modulo `|points| - 1`: the
   * list is closed, its last point repeating its first.
   */
  function CalculateCurvature(min: real, max: real, pointIndex: nat, autoCurveSharpCorners: bool,
                              points: seq<Vec2>, normalize: Normalizer, sample: real): (r: real)
    requires 2 <= |points| && pointIndex < |points|
    ensures !autoCurveSharpCorners ==> r == sample
    ensures autoCurveSharpCorners ==> sample <= r <= sample + 1.0
    ensures min <= max && InRange(sample, min, max) ==> min <= r <= max + 1.0
    ensures !autoCurveSharpCorners && InRange(sample, min, max) && min <= max ==> min <= r <= max
  {
    var n := |points|;
    var entryVector := normalize(points[Modulo(pointIndex - 1, n - 1)].Minus(points[pointIndex]));
    var exitVector := normalize(points[Modulo(pointIndex + 1, n - 1)].Minus(points[pointIndex]));
    var dotValue := if autoCurveSharpCorners then Clamp(entryVector.Dot(exitVector), 0.0, 1.0) else 0.0;
    sample + dotValue
  }

  /** The entry `GenerateCurvaturePointSet` writes for point `i`. */
  function PointAt(graphPoints: seq<Vec2>, minCurvature: real, maxCurvature: real, autoCurveSharpCorners: bool,
                   normalize: Normalizer, samples: seq<real>, i: nat): CurvaturePoint
    requires 2 <= |graphPoints| && |samples| == |graphPoints| && i < |graphPoints|
  {
    CurvaturePoint(graphPoints[i],
      CalculateCurvature(minCurvature, maxCurvature, i, autoCurveSharpCorners, graphPoints, normalize, samples[i]))
  }

  /**
   * `GenerateCurvaturePointSet`, with `samples[i]` the draw made for point i.
   * A single point makes the modulus 0, where `Utility.Modulo` divides by
   * zero: the result is then `None`.
   */
  method GenerateCurvaturePointSet(graphPoints: seq<Vec2>, minCurvature: real, maxCurvature: real,
                                   autoCurveSharpCorners: bool, normalize: Normalizer, samples: seq<real>)
    returns (curvaturePoints: Option<seq<CurvaturePoint>>)
    requires |samples| == |graphPoints|
    ensures curvaturePoints.None? <==> |graphPoints| == 1
    ensures curvaturePoints.Some? ==>
              && |curvaturePoints.value| == |graphPoints|
              && forall i | 0 <= i < |graphPoints| ::
                   && curvaturePoints.value[i].point == graphPoints[i]
                   && curvaturePoints.value[i].curveAmount
                      == CalculateCurvature(minCurvature, maxCurvature, i, autoCurveSharpCorners, graphPoints, normalize, samples[i])
                   && curvaturePoints.value[i]
                      == PointAt(graphPoints, minCurvature, maxCurvature, autoCurveSharpCorners, normalize, samples, i)
  {
    if |graphPoints| == 1 {
      return None;
    }
    var result := new CurvaturePoint[|graphPoints|];
    for i := 0 to |graphPoints|
      invariant forall k | 0 <= k < i ::
                  result[k] == PointAt(graphPoints, minCurvature, maxCurvature, autoCurveSharpCorners, normalize, samples, k)
    {
      result[i] := CurvaturePoint(graphPoints[i],
        CalculateCurvature(minCurvature, maxCurvature, i, autoCurveSharpCorners, graphPoints, normalize, samples[i]));
    }
    curvaturePoints := Some(result[..]);
  }
}
