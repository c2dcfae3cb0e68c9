/** Angle arithmetic (CommonMini.cpp, lines 212-285): normalisation of an
    angle in radians into [0, 2π) or [-π, π], signed and unsigned
    differences, sums and the "facing forward" test. */
module Angles {
  import opened Numeric

  /** `a` and `b` denote the same direction: they differ by a whole number
      of turns. */
  predicate SameAngle(a: real, b: real) {
    IsInteger((a - b) / TWO_PI)
  }

  lemma SameAngleByTurns(a: real, b: real, k: int)
    requires a - b == k as real * TWO_PI
    ensures SameAngle(a, b)
  {
    MulDivCancel(k as real, TWO_PI);
    assert (k as real).Floor == k;
  }

  lemma TurnsBetween(a: real, b: real) returns (k: int)
    requires SameAngle(a, b)
    ensures a - b == k as real * TWO_PI
  {
    k := ((a - b) / TWO_PI).Floor;
  }

  lemma SameAngleSymmetric(a: real, b: real)
    requires SameAngle(a, b)
    ensures SameAngle(b, a)
  {
    var k := TurnsBetween(a, b);
    SameAngleByTurns(b, a, -k);
  }

  lemma SameAngleTransitive(a: real, b: real, c: real)
    requires SameAngle(a, b) && SameAngle(b, c)
    ensures SameAngle(a, c)
  {
    var k1 := TurnsBetween(a, b);
    var k2 := TurnsBetween(b, c);
    SameAngleByTurns(a, c, k1 + k2);
  }

  /** Moving a direction by whole turns, or reflecting it, keeps the
      relation with the (reflected) original. */
  lemma SameAngleShift(x: real, d: real, j: int)
    requires SameAngle(x, d)
    ensures SameAngle(d + j as real * TWO_PI, x)
    ensures SameAngle(j as real * TWO_PI - d, -x)
  {
    var k := TurnsBetween(x, d);
    SameAngleByTurns(d + j as real * TWO_PI, x, j - k);
    SameAngleByTurns(j as real * TWO_PI - d, -x, j + k);
  }

  /** Two values less than a turn apart that denote the same direction are
      equal. */
  lemma SameAngleWithinATurn(a: real, b: real)
    requires -TWO_PI < a - b < TWO_PI
    requires SameAngle(a, b)
    ensures a == b
  {
    var k := TurnsBetween(a, b);
    WholeTurns(k, a - b);
  }

  /** A non-zero whole number of turns is at least a full turn. */
  lemma WholeTurns(k: int, x: real)
    requires x == k as real * TWO_PI
    ensures x == 0.0 || x >= TWO_PI || x <= -TWO_PI
  {
    if k >= 1 {
      MulMono(1.0, k as real, TWO_PI);
    } else if k <= -1 {
      MulMono(k as real, -1.0, TWO_PI);
    }
  }

  /** `GetAngleInInterval2PI`: the representative of `angle` in [0, 2π).
      (The source's extra branch for a remainder of -0 has no effect on
      reals.) */
  function GetAngleInInterval2PI(angle: real): (r: real)
    ensures 0.0 <= r < TWO_PI
    ensures SameAngle(r, angle)
  {
    var a2 := Fmod(angle, TWO_PI);
    SameAngleShift(angle, a2, 0);
    SameAngleShift(angle, a2, 1);
    if a2 < 0.0 then a2 + TWO_PI else a2
  }

  /** `GetAngleInIntervalMinusPIPlusPI`: a representative of `angle` in
      [-π, π]. The bounds are both reachable: -π is returned for -π. */
  function GetAngleInIntervalMinusPIPlusPI(angle: real): (r: real)
    ensures -PI <= r <= PI
    ensures SameAngle(r, angle)
  {
    var a2 := Fmod(angle, TWO_PI);
    SameAngleShift(angle, a2, 0);
    SameAngleShift(angle, a2, 1);
    SameAngleShift(angle, a2, -1);
    if a2 < -PI then a2 + TWO_PI else if a2 > PI then a2 - TWO_PI else a2
  }

  /** `GetAngleDifference`: the signed rotation from `angle2` to `angle1`,
      in [-π, π]. */
  function GetAngleDifference(angle1: real, angle2: real): (r: real)
    ensures -PI <= r <= PI
    ensures SameAngle(r, angle1 - angle2)
  {
    var diff := Fmod(angle1 - angle2, TWO_PI);
    SameAngleShift(angle1 - angle2, diff, 0);
    SameAngleShift(angle1 - angle2, diff, 1);
    SameAngleShift(angle1 - angle2, diff, -1);
    if diff < -PI then diff + TWO_PI else if diff > PI then diff - TWO_PI else diff
  }

  /** `GetAbsAngleDifference`: the unsigned separation of two headings, in
      [0, π]; it is the difference in one direction or the other. */
  function GetAbsAngleDifference(angle1: real, angle2: real): (r: real)
    ensures 0.0 <= r <= PI
    ensures SameAngle(r, angle1 - angle2) || SameAngle(r, angle2 - angle1)
  {
    var d0 := Fmod(angle1 - angle2, TWO_PI);
    var d1 := if d0 < 0.0 then d0 + TWO_PI else d0;
    var diff := if d1 > PI then TWO_PI - d1 else d1;
    SameAngleShift(angle1 - angle2, d0, 0);
    SameAngleShift(angle1 - angle2, d0, 1);
    assert angle2 - angle1 == -(angle1 - angle2);
    GetAngleInInterval2PIFixed(diff);
    GetAngleInInterval2PI(diff)
  }

  /** `IsAngleForward`: false exactly when the heading lies strictly between
      π/2 and 3π/2. */
  predicate IsAngleForward(teta: real) {
    !(teta > HALF_PI && teta < 3.0 * HALF_PI)
  }

  /** `GetAngleSum`: the sum of two angles, normalised into [0, 2π). */
  function GetAngleSum(angle1: real, angle2: real): (r: real)
    ensures 0.0 <= r < TWO_PI
    ensures SameAngle(r, angle1 + angle2)
  {
    GetAngleInInterval2PI(angle1 + angle2)
  }

  /** [0, 2π) normalisation is the identity on [0, 2π). */
  lemma GetAngleInInterval2PIFixed(x: real)
    requires 0.0 <= x < TWO_PI
    ensures GetAngleInInterval2PI(x) == x
  {
    GetAngleInInterval2PIUnique(x, x);
  }

  /** The [0, 2π) normalisation of `angle` is the only value in [0, 2π)
      denoting the same direction. */
  lemma GetAngleInInterval2PIUnique(angle: real, x: real)
    requires 0.0 <= x < TWO_PI
    requires SameAngle(x, angle)
    ensures GetAngleInInterval2PI(angle) == x
  {
    var r := GetAngleInInterval2PI(angle);
    SameAngleSymmetric(x, angle);
    SameAngleTransitive(r, angle, x);
    SameAngleWithinATurn(r, x);
  }

  /** Away from ±π, [-π, π] normalisation returns the only value in (-π, π)
      that denotes the same direction. */
  lemma GetAngleInIntervalMinusPIPlusPIUnique(angle: real, x: real)
    requires -PI < x < PI
    requires SameAngle(x, angle)
    ensures GetAngleInIntervalMinusPIPlusPI(angle) == x
  {
    var r := GetAngleInIntervalMinusPIPlusPI(angle);
    SameAngleSymmetric(x, angle);
    SameAngleTransitive(r, angle, x);
    SameAngleWithinATurn(r, x);
  }

  /** The lower bound -π is reachable: it is kept as it is rather than
      mapped to π. */
  lemma MinusPIIsKept()
    ensures GetAngleInIntervalMinusPIPlusPI(-PI) == -PI
  {
    assert -PI / TWO_PI == -0.5;
    assert Trunc(-0.5) == 0;
  }

  /** The signed difference is the [-π, π] normalisation of `a - b`. */
  lemma AngleDifferenceIsNormalisedDifference(angle1: real, angle2: real)
    ensures GetAngleDifference(angle1, angle2) == GetAngleInIntervalMinusPIPlusPI(angle1 - angle2)
  {
  }

  /** Swapping the arguments negates the signed difference, including at
      the ±π boundary. */
  lemma AngleDifferenceAntisymmetric(angle1: real, angle2: real)
    ensures GetAngleDifference(angle2, angle1) == -GetAngleDifference(angle1, angle2)
  {
    assert angle2 - angle1 == -(angle1 - angle2);
    FmodOdd(angle1 - angle2, TWO_PI);
  }

  /** The unsigned difference is the magnitude of the signed one. */
  lemma AbsAngleDifferenceIsAbsOfDifference(angle1: real, angle2: real)
    ensures GetAbsAngleDifference(angle1, angle2) == Abs(GetAngleDifference(angle1, angle2))
  {
    var d0 := Fmod(angle1 - angle2, TWO_PI);
    var d1 := if d0 < 0.0 then d0 + TWO_PI else d0;
    var diff := if d1 > PI then TWO_PI - d1 else d1;
    GetAngleInInterval2PIFixed(diff);
  }

  /** The unsigned difference does not depend on the argument order. */
  lemma AbsAngleDifferenceSymmetric(angle1: real, angle2: real)
    ensures GetAbsAngleDifference(angle1, angle2) == GetAbsAngleDifference(angle2, angle1)
  {
    AbsAngleDifferenceIsAbsOfDifference(angle1, angle2);
    AbsAngleDifferenceIsAbsOfDifference(angle2, angle1);
    AngleDifferenceAntisymmetric(angle1, angle2);
  }

  /** Normalised sums may be regrouped. */
  lemma AngleSumAssociative(a: real, b: real, c: real)
    ensures GetAngleSum(GetAngleSum(a, b), c) == GetAngleSum(a, GetAngleSum(b, c))
  {
    var ab := GetAngleSum(a, b);
    var bc := GetAngleSum(b, c);
    var left := GetAngleSum(ab, c);
    RegroupTurns(a, b, c, ab, bc, left);
    GetAngleInInterval2PIUnique(a + bc, left);
  }

  lemma RegroupTurns(a: real, b: real, c: real, ab: real, bc: real, left: real)
    requires SameAngle(ab, a + b) && SameAngle(bc, b + c) && SameAngle(left, ab + c)
    ensures SameAngle(left, a + bc)
  {
    var k1 := TurnsBetween(ab, a + b);
    var k2 := TurnsBetween(bc, b + c);
    var k3 := TurnsBetween(left, ab + c);
    var k := k1 + k3 - k2;
    assert k as real * TWO_PI == k1 as real * TWO_PI + k3 as real * TWO_PI - k2 as real * TWO_PI;
    SameAngleByTurns(left, a + bc, k);
  }

  /** Turning a normalised heading half a turn flips the forward test,
      except on the two boundary headings π/2 and 3π/2, which count as
      forward either way. */
  lemma ReverseHeadingFlipsForward(teta: real)
    requires 0.0 <= teta < TWO_PI
    requires teta != HALF_PI && teta != 3.0 * HALF_PI
    ensures IsAngleForward(GetAngleSum(teta, PI)) == !IsAngleForward(teta)
  {
    var turned := if teta < PI then teta + PI else teta - PI;
    SameAngleByTurns(turned, teta + PI, if teta < PI then 0 else -1);
    GetAngleInInterval2PIUnique(teta + PI, turned);
  }
}
