/**
  Ground-plane points, the "closer than the safe distance" test, and the
  per-point safe/unsafe classifier of the frame processing module.
 */
module Proximity {

  /** A point in ground-plane coordinates. */
  datatype Point = Point(x: real, y: real)

  function SquaredDistance(p: Point, q: Point): (d: real)
    ensures d >= 0.0
  {
    (p.x - q.x) * (p.x - q.x) + (p.y - q.y) * (p.y - q.y)
  }

  /**
    p and q are strictly closer than r. The source compares a Euclidean norm
    with r; squaring both sides keeps the test exact over the reals.
   */
  predicate Close(p: Point, q: Point, r: real) {
    r > 0.0 && SquaredDistance(p, q) < r * r
  }

  /** Close agrees with "norm(p - q) < r" for the norm d of p - q. */
  lemma CloseIsNormBelow(p: Point, q: Point, r: real, d: real)
    requires d >= 0.0 && d * d == SquaredDistance(p, q)
    ensures Close(p, q, r) <==> d < r
  {
    var dd, dr, rr := d * d, d * r, r * r;
    if d < r {
      assert dd <= dr;
      assert dr < rr;
    } else if r > 0.0 {
      assert rr <= dr;
      assert dr <= dd;
    }
  }

  lemma CloseSymmetric(p: Point, q: Point, r: real)
    ensures Close(p, q, r) <==> Close(q, p, r)
  {
  }

  datatype Option<T> = None | Some(value: T)

  /** The first index j < i whose point is close to point i, if any. */
  function FirstCloseBefore(points: seq<Point>, i: nat, radius: real): (j: Option<nat>)
    requires i < |points|
    ensures j.Some? ==> j.value < i && Close(points[i], points[j.value], radius)
    ensures j.Some? ==> forall k :: 0 <= k < j.value ==> !Close(points[i], points[k], radius)
    ensures j.None? ==> forall k :: 0 <= k < i ==> !Close(points[i], points[k], radius)
  {
    FirstCloseFrom(points, i, radius, 0)
  }

  function FirstCloseFrom(points: seq<Point>, i: nat, radius: real, j: nat): (r: Option<nat>)
    requires i < |points| && j <= i
    ensures r.Some? ==> j <= r.value < i && Close(points[i], points[r.value], radius)
    ensures r.Some? ==> forall k :: j <= k < r.value ==> !Close(points[i], points[k], radius)
    ensures r.None? ==> forall k :: j <= k < i ==> !Close(points[i], points[k], radius)
    decreases i - j
  {
    if j == i then None
    else if Close(points[i], points[j], radius) then Some(j)
    else FirstCloseFrom(points, i, radius, j + 1)
  }

  /**
    The flags after the classifier's outer loop has handled points 0 .. k-1:
    all start safe, and point i together with the FIRST earlier point close
    to it (only that one) is marked unsafe.
   */
  function Classified(points: seq<Point>, radius: real, k: nat): (flags: seq<bool>)
    requires k <= |points|
    ensures |flags| == |points|
    ensures forall m :: k <= m < |points| ==> flags[m]
  {
    if k == 0 then seq(|points|, _ => true)
    else
      var prev := Classified(points, radius, k - 1);
      match FirstCloseBefore(points, k - 1, radius)
      case None => prev
      case Some(j) => prev[k - 1 := false][j := false]
  }

  /** The safety flags of the whole list. */
  function Classification(points: seq<Point>, radius: real): (flags: seq<bool>)
    ensures |flags| == |points|
  {
    Classified(points, radius, |points|)
  }

  /**
    The classifier as the source runs it: a list of flags updated in place
    by a nested scan that stops at the first earlier point within the radius.
   */
  method ClassifySafeUnsafe(points: seq<Point>, radius: real) returns (isSafe: seq<bool>)
    ensures isSafe == Classification(points, radius)
  {
    var flags := new bool[|points|](_ => true);
    assert flags[..] == Classified(points, radius, 0);
    var i := 0;
    while i < |points|
      invariant 0 <= i <= |points|
      invariant flags[..] == Classified(points, radius, i)
    {
      var j := 0;
      while j < |points|
        invariant 0 <= j <= i
        invariant forall k :: 0 <= k < j ==> !Close(points[i], points[k], radius)
        invariant flags[..] == Classified(points, radius, i)
      {
        if j >= i {
          break;
        }
        if Close(points[i], points[j], radius) {
          flags[i] := false;
          flags[j] := false;
          break;
        }
        j := j + 1;
      }
      assert flags[..] == Classified(points, radius, i + 1);
      i := i + 1;
    }
    isSafe := flags[..];
  }

  /** A flag, once cleared by the outer loop, stays cleared. */
  lemma {:induction false} ClassifiedKeepsUnsafe(points: seq<Point>, radius: real, k: nat, k': nat, m: nat)
    requires k <= k' <= |points| && m < |points|
    requires !Classified(points, radius, k)[m]
    ensures !Classified(points, radius, k')[m]
    decreases k' - k
  {
    if k < k' {
      ClassifiedKeepsUnsafe(points, radius, k, k' - 1, m);
    }
  }

  lemma {:induction false} ClassifiedSound(points: seq<Point>, radius: real, k: nat, m: nat)
    requires k <= |points| && m < |points|
    requires !Classified(points, radius, k)[m]
    ensures exists q :: 0 <= q < |points| && q != m && Close(points[m], points[q], radius)
  {
    if k > 0 {
      var prev := Classified(points, radius, k - 1);
      match FirstCloseBefore(points, k - 1, radius)
      case None =>
        ClassifiedSound(points, radius, k - 1, m);
      case Some(j) =>
        if m == k - 1 {
          assert Close(points[m], points[j], radius);
        } else if m == j {
          CloseSymmetric(points[k - 1], points[j], radius);
          assert Close(points[m], points[k - 1], radius);
        } else {
          ClassifiedSound(points, radius, k - 1, m);
        }
    }
  }

  /**
    Soundness: a point flagged unsafe has some other point strictly closer
    than the radius. Equivalently, a point with no such neighbour stays safe.
   */
  lemma UnsafeHasCloseNeighbour(points: seq<Point>, radius: real, m: nat)
    requires m < |points|
    ensures !Classification(points, radius)[m] ==>
      exists q :: 0 <= q < |points| && q != m && Close(points[m], points[q], radius)
  {
    if !Classification(points, radius)[m] {
      ClassifiedSound(points, radius, |points|, m);
    }
  }

  /** With a radius that is not positive nothing is close, so every flag stays safe. */
  lemma NonPositiveRadiusAllSafe(points: seq<Point>, radius: real)
    requires radius <= 0.0
    ensures forall m :: 0 <= m < |points| ==> Classification(points, radius)[m]
  {
    forall m | 0 <= m < |points|
      ensures Classification(points, radius)[m]
    {
      UnsafeHasCloseNeighbour(points, radius, m);
    }
  }

  /**
    Completeness towards earlier points: if some earlier point is close to
    point i, the scan for i finds one and point i ends up unsafe.
   */
  lemma EarlierCloseMarksUnsafe(points: seq<Point>, radius: real, i: nat, j: nat)
    requires j < i < |points| && Close(points[i], points[j], radius)
    ensures !Classification(points, radius)[i]
  {
    assert !Classified(points, radius, i + 1)[i];
    ClassifiedKeepsUnsafe(points, radius, i + 1, |points|, i);
  }

  /**
    The scan for point i stops at its first close earlier point, so a point
    that is close only to LATER points may stay safe: here point 1 is within
    the radius of point 2, yet only points 0 and 2 are flagged.
   */
  lemma ClassifierIsOneSided()
    ensures var points := [Point(0.0, 0.0), Point(3.0, 0.0), Point(1.5, 0.0)];
      Close(points[1], points[2], 2.0) && Classification(points, 2.0) == [false, true, false]
  {
    var points := [Point(0.0, 0.0), Point(3.0, 0.0), Point(1.5, 0.0)];
    assert !Close(points[1], points[0], 2.0);
    assert Close(points[2], points[0], 2.0);
    assert FirstCloseBefore(points, 1, 2.0) == None;
    assert FirstCloseBefore(points, 2, 2.0) == Some(0);
    assert Classified(points, 2.0, 1) == [true, true, true];
    assert Classified(points, 2.0, 2) == [true, true, true];
  }
}
