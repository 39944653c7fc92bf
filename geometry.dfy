/**
 * Plane vectors with exact real coordinates. Unity's `Vector2` and `Vector3`
 * are single-precision; rounding, NaN and infinities are not modelled.
 */
module Geometry {

  datatype Vec2 = Vec2(x: real, y: real) {

    function Plus(v: Vec2): Vec2 {
      Vec2(x + v.x, y + v.y)
    }

    function Minus(v: Vec2): Vec2 {
      Vec2(x - v.x, y - v.y)
    }

    function Times(k: real): Vec2 {
      Vec2(k * x, k * y)
    }

    function Dot(v: Vec2): real {
      x * v.x + y * v.y
    }

    function SqrMagnitude(): real {
      x * x + y * y
    }
  }

  const Zero2 := Vec2(0.0, 0.0)

  /** Unity's implicit `Vector2` to `Vector3` conversion puts the point in the z = 0 plane. */
  datatype Vec3 = Vec3(x: real, y: real, z: real)

  function ToVec3(v: Vec2): Vec3 {
    Vec3(v.x, v.y, 0.0)
  }

  const Zero3 := Vec3(0.0, 0.0, 0.0)

  /** `Vector2.normalized`: float-only maths, supplied by the caller. */
  type Normalizer = Vec2 -> Vec2

  /** `Mathf.Clamp(value, lo, hi)`. */
  function Clamp(value: real, lo: real, hi: real): (r: real)
    requires lo <= hi
    ensures lo <= r <= hi
    ensures lo <= value <= hi ==> r == value
    ensures value < lo ==> r == lo
    ensures hi < value ==> r == hi
  {
    if value < lo then lo else if hi < value then hi else value
  }

  /** `Utility.Modulo`, taken to be the remainder that is never negative. */
  function Modulo(a: int, m: int): (r: nat)
    requires m > 0
    ensures r < m
    ensures 0 <= a < m ==> r == a
    ensures a == -1 ==> r == m - 1
    ensures m <= a < 2 * m ==> r == a - m
  {
    a % m
  }
}

/** Sequence helpers shared by the list-manipulating parts of the model. */
module Seqs {

  /** No element occurs twice. */
  predicate Distinct<T(==)>(s: seq<T>) {
    forall i, j | 0 <= i < j < |s| :: s[i] != s[j]
  }

  /** The position of the first occurrence of `x`. */
  function FirstIndex<T(==)>(s: seq<T>, x: T): (k: nat)
    requires x in s
    ensures k < |s| && s[k] == x && x !in s[..k]
  {
    if s[0] == x then 0 else 1 + FirstIndex(s[1..], x)
  }

  /** `List<T>.Remove(x)`: drops the first occurrence of `x`, if any, keeping the order of the rest. */
  function RemoveFirst<T(==)>(s: seq<T>, x: T): (r: seq<T>)
    ensures x !in s ==> r == s
    ensures x in s ==> |r| == |s| - 1
    ensures x in s ==> r == s[..FirstIndex(s, x)] + s[FirstIndex(s, x) + 1..]
  {
    if s == [] then []
    else if s[0] == x then s[1..]
    else
      var rest := RemoveFirst(s[1..], x);
      if x in s[1..] then
        PutBackHead(s, FirstIndex(s[1..], x), rest);
        [s[0]] + rest
      else
        [s[0]] + rest
  }

  /** Removing position k of the tail and putting the head back removes position k + 1. */
  lemma PutBackHead<T>(s: seq<T>, k: nat, rest: seq<T>)
    requires k + 1 < |s|
    requires rest == s[1..][..k] + s[1..][k + 1..]
    ensures [s[0]] + rest == s[..k + 1] + s[k + 2..]
  {
    assert s[..k + 1] == [s[0]] + s[1..][..k];
    assert s[k + 2..] == s[1..][k + 1..];
  }

  /** The elements of `s` not in `drop`, in their original order. */
  function Without<T(==)>(s: seq<T>, drop: set<T>): (r: seq<T>)
    ensures |r| <= |s|
  {
    if s == [] then []
    else if s[0] in drop then Without(s[1..], drop)
    else [s[0]] + Without(s[1..], drop)
  }

  lemma {:induction false} WithoutMembership<T>(s: seq<T>, drop: set<T>, x: T)
    ensures x in Without(s, drop) <==> x in s && x !in drop
  {
    if s != [] {
      WithoutMembership(s[1..], drop, x);
      assert s == [s[0]] + s[1..];
    }
  }

  lemma {:induction false} WithoutIgnoresAbsent<T>(s: seq<T>, drop: set<T>, x: T)
    requires x !in s
    ensures Without(s, drop + {x}) == Without(s, drop)
  {
    if s != [] {
      WithoutIgnoresAbsent(s[1..], drop, x);
    }
  }

  lemma {:induction false} WithoutKeepsDistinct<T>(s: seq<T>, drop: set<T>)
    requires Distinct(s)
    ensures Distinct(Without(s, drop))
  {
    if s != [] {
      WithoutKeepsDistinct(s[1..], drop);
      WithoutMembership(s[1..], drop, s[0]);
    }
  }

  /**
   * On a list without repeats, removing the first occurrence of `x` from what
   * is left after dropping `drop` is the same as dropping `drop + {x}`: the
   * order in which the elements are removed does not matter.
   */
  lemma {:induction false} RemoveFirstFromWithout<T>(s: seq<T>, drop: set<T>, x: T)
    requires Distinct(s)
    ensures RemoveFirst(Without(s, drop), x) == Without(s, drop + {x})
  {
    if s != [] {
      assert Distinct(s[1..]);
      RemoveFirstFromWithout(s[1..], drop, x);
      if s[0] !in drop && s[0] == x {
        assert x !in s[1..];
        WithoutIgnoresAbsent(s[1..], drop, x);
      }
    }
  }

  /** Dropping nothing leaves the list as it is. */
  lemma {:induction false} WithoutNothing<T>(s: seq<T>)
    ensures Without(s, {}) == s
  {
    if s != [] {
      WithoutNothing(s[1..]);
      assert s == [s[0]] + s[1..];
    }
  }
}

/** The result of an operation that the source can fail with an exception or a `null`. */
module Wrappers {
  datatype Option<T> = None | Some(value: T)
}
