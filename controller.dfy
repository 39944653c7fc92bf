/**
 * The parts of `Controller` that hold logic of their own: the `Seed`
 * property, and `CenterPath`, which translates a path so that the mean of its
 * points lands on a given center point.
 */
module TrackController {
  import opened Geometry

  /** The sum of the points, accumulated front to back. */
  function Sum(s: seq<Vec2>): Vec2
    decreases |s|
  {
    if s == [] then Zero2 else Sum(s[..|s| - 1]).Plus(s[|s| - 1])
  }

  /** `center /= path.Count`: the mean of a non-empty path. */
  function Mean(s: seq<Vec2>): Vec2
    requires s != []
  {
    var n := |s| as real;
    Vec2(Sum(s).x / n, Sum(s).y / n)
  }

  /** Every point moved back by `d`. */
  function Shifted(s: seq<Vec2>, d: Vec2): (r: seq<Vec2>)
    ensures |r| == |s|
    ensures forall i | 0 <= i < |s| :: r[i] == s[i].Minus(d)
  {
    seq(|s|, i requires 0 <= i < |s| => s[i].Minus(d))
  }

  /** The path moved by the offset from `centerPoint` to its mean. */
  function Centered(s: seq<Vec2>, centerPoint: Vec2): seq<Vec2>
    requires s != []
  {
    Shifted(s, Mean(s).Minus(centerPoint))
  }

  /** Centering keeps the length of the path and the difference between any two of its points. */
  lemma CenteringKeepsShape(s: seq<Vec2>, centerPoint: Vec2, i: nat, j: nat)
    requires i < |s| && j < |s|
    ensures |Centered(s, centerPoint)| == |s|
    ensures Centered(s, centerPoint)[i].Minus(Centered(s, centerPoint)[j]) == s[i].Minus(s[j])
  {
  }

  lemma ScaleByNext(v: Vec2, k: real)
    ensures v.Times(k + 1.0) == v.Times(k).Plus(v)
  {
  }

  /** Moving every point by `d` moves the sum by `|s|` times `d`. */
  lemma {:induction false} SumOfShifted(s: seq<Vec2>, d: Vec2)
    ensures Sum(Shifted(s, d)) == Sum(s).Minus(d.Times(|s| as real))
    decreases |s|
  {
    if s != [] {
      var n := |s| - 1;
      var shifted := Shifted(s, d);
      assert shifted[..n] == Shifted(s[..n], d);
      SumOfShifted(s[..n], d);
      assert Sum(shifted) == Sum(s[..n]).Minus(d.Times(n as real)).Plus(s[n].Minus(d));
      ScaleByNext(d, n as real);
      assert |s| as real == n as real + 1.0;
    }
  }

  /** One coordinate of the mean after the shift. */
  lemma ShiftedMeanCoordinate(shifted: real, sum: real, n: real, offset: real, center: real)
    requires n > 0.0 && offset == sum / n - center && shifted == sum - n * offset
    ensures shifted / n == center
  {
    assert n * offset == sum - n * center;
  }

  /** The sum of the centered path, coordinate by coordinate. */
  lemma CenteredSum(s: seq<Vec2>, centerPoint: Vec2)
    requires s != []
    ensures var d, n := Mean(s).Minus(centerPoint), |s| as real;
            Sum(Centered(s, centerPoint)) == Vec2(Sum(s).x - n * d.x, Sum(s).y - n * d.y)
  {
    SumOfShifted(s, Mean(s).Minus(centerPoint));
  }

  /** After centering, the mean of the path is the center point. */
  lemma CenteredMean(s: seq<Vec2>, centerPoint: Vec2)
    requires s != []
    ensures Mean(Centered(s, centerPoint)) == centerPoint
  {
    var d, n := Mean(s).Minus(centerPoint), |s| as real;
    var c := Centered(s, centerPoint);
    CenteredSum(s, centerPoint);
    var sum, shiftedSum := Sum(s), Sum(c);
    assert Mean(c) == Vec2(shiftedSum.x / n, shiftedSum.y / n);
    ShiftedMeanCoordinate(shiftedSum.x, sum.x, n, d.x, centerPoint.x);
    ShiftedMeanCoordinate(shiftedSum.y, sum.y, n, d.y, centerPoint.y);
  }

  /** Centering a centered path changes nothing. */
  lemma CenteringIsIdempotent(s: seq<Vec2>, centerPoint: Vec2)
    requires s != []
    ensures Centered(Centered(s, centerPoint), centerPoint) == Centered(s, centerPoint)
  {
    CenteredMean(s, centerPoint);
    var c := Centered(s, centerPoint);
    assert Mean(c).Minus(centerPoint) == Zero2;
  }

  class Controller {
    var seed: int

    constructor (seed: int)
      ensures this.seed == seed
    {
      this.seed := seed;
    }

    /** The `Seed` getter. */
    function Seed(): int
      reads this
    {
      seed
    }

    /** The `Seed` setter: the getter then returns what was set. */
    method SetSeed(value: int)
      modifies this
      ensures Seed() == value
    {
      seed := value;
    }

    /**
     * `CenterPath(centerPoint, ref path)`: sum the points, divide by their
     * count, and subtract the offset from the center point from every point.
     * With no points the offset is never used, so nothing changes.
     */
    method CenterPath(centerPoint: Vec2, path: array<Vec2>)
      modifies path
      ensures path.Length == 0 || path[..] == Centered(old(path[..]), centerPoint)
    {
      if path.Length == 0 {
        return;
      }
      var center := Zero2;
      for i := 0 to path.Length
        invariant center == Sum(path[..i])
      {
        assert path[..i + 1][..i] == path[..i];
        center := center.Plus(path[i]);
      }
      assert path[..path.Length] == path[..];
      var n := path.Length as real;
      center := Vec2(center.x / n, center.y / n);
      var centerOffset := center.Minus(centerPoint);
      ghost var original := path[..];
      for i := 0 to path.Length
        invariant forall k | 0 <= k < i :: path[k] == original[k].Minus(centerOffset)
        invariant forall k | i <= k < path.Length :: path[k] == original[k]
      {
        path[i] := path[i].Minus(centerOffset);
      }
    }
  }
}
