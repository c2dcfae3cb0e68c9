/** Scalar primitives shared by the geometry code: the constants of the
    common header, C's truncating `fmod`, the `SIGN` macro and the C math
    library (`sin`, `cos`, `sqrt`).

    Doubles are modelled as `real`; rounding is not modelled. */
module Numeric {

  /** Positive reals. */
  type PositiveReal = r: real | r > 0.0 witness 1.0

  /** A positive threshold no larger than 10^-3. */
  type SmallPositive = r: real | 0.0 < r <= 0.001 witness 0.001

  /** The two values `SIGN` can return. */
  type UnitSign = s: int | s == -1 || s == 1 witness 1

  /** `M_PI`. Only its positivity is used by the proofs. */
  const M_PI: PositiveReal

  const PI: real := M_PI

  /** `SMALL_NUMBER`, the single "effectively zero" threshold. Its exact
      value lives in a header that is not part of this model; it is only
      known to be positive and small. */
  const SMALL_NUMBER_VALUE: SmallPositive

  const SMALL_NUMBER: real := SMALL_NUMBER_VALUE

  /** What `SIGN` yields at exactly zero; left open. */
  const SIGN_OF_ZERO: UnitSign

  const TWO_PI: real := 2.0 * PI

  /** `M_PI_2`. */
  const HALF_PI: real := PI / 2.0

  function Abs(x: real): (r: real)
    ensures r >= 0.0
    ensures r == x || r == -x
  {
    if x < 0.0 then -x else x
  }

  function Max(a: real, b: real): (r: real)
    ensures r >= a && r >= b
    ensures r == a || r == b
  {
    if a > b then a else b
  }

  function Min(a: real, b: real): (r: real)
    ensures r <= a && r <= b
    ensures r == a || r == b
  {
    if a < b then a else b
  }

  /** The `SIGN` macro: -1 below zero, +1 above, unspecified at zero. */
  function Sign(x: real): (s: UnitSign)
    ensures x > 0.0 ==> s == 1
    ensures x < 0.0 ==> s == -1
    ensures x == 0.0 ==> s == SIGN_OF_ZERO
  {
    if x < 0.0 then -1 else if x > 0.0 then 1 else SIGN_OF_ZERO
  }

  predicate IsInteger(q: real) {
    q.Floor as real == q
  }

  /** Conversion of a real to an integer, rounding toward zero. */
  function Trunc(q: real): (n: int)
    ensures q >= 0.0 ==> 0 <= n && n as real <= q < n as real + 1.0
    ensures q <= 0.0 ==> n <= 0 && n as real - 1.0 < q <= n as real
  {
    if q >= 0.0 then q.Floor else -((-q).Floor)
  }

  lemma MulMono(a: real, b: real, y: real)
    requires y > 0.0
    ensures a <= b ==> y * a <= y * b
    ensures a < b ==> y * a < y * b
  {
    assert y * b - y * a == y * (b - a);
  }

  lemma ProductSign(a: real, b: real)
    ensures (a > 0.0 && b > 0.0) || (a < 0.0 && b < 0.0) ==> a * b > 0.0
    ensures a == 0.0 || b == 0.0 ==> a * b == 0.0
  {
    if a > 0.0 && b > 0.0 {
      MulMono(0.0, b, a);
    } else if a < 0.0 && b < 0.0 {
      MulMono(b, 0.0, -a);
      assert (-a) * b == -(a * b);
    }
  }

  /** `a * b` under a name of its own. The solver simplifies a comparison
      of a literal `t * t` with zero into one about `t` and then loses
      what it knew about the square; facts stated about `Product(t, t)`
      are kept. */
  function Product(a: real, b: real): (r: real)
    ensures (a > 0.0 && b > 0.0) || (a < 0.0 && b < 0.0) ==> r > 0.0
    ensures a == 0.0 || b == 0.0 ==> r == 0.0
  {
    ProductSign(a, b);
    a * b
  }

  /** `x * x`: never negative, and zero only at zero. */
  function Square(x: real): (r: real)
    ensures r >= 0.0
    ensures x != 0.0 ==> r > 0.0
    ensures x == 0.0 ==> r == 0.0
  {
    Product(x, x)
  }

  /** With `x == y * q`, the remainder `x - y * m` is in `[0, y)` or
      `(-y, 0]` when `m` is `q` rounded down or up to the nearest integer. */
  lemma RemainderBounds(x: real, y: real, q: real, m: real)
    requires y > 0.0 && x == y * q
    ensures m <= q < m + 1.0 ==> 0.0 <= x - y * m < y
    ensures m - 1.0 < q <= m ==> -y < x - y * m <= 0.0
  {
    var f := q - m;
    assert x - y * m == y * f;
    if m <= q < m + 1.0 {
      assert 0.0 <= f < 1.0;
      MulMono(0.0, f, y);
      MulMono(f, 1.0, y);
      assert y * f < y * 1.0;
    }
    if m - 1.0 < q <= m {
      assert -1.0 < f <= 0.0;
      MulMono(-1.0, f, y);
      MulMono(f, 0.0, y);
      assert y * (-1.0) == -y;
      assert y * 0.0 == 0.0;
    }
  }

  /** Dividing by a positive number keeps the sign. */
  lemma DivSign(a: real, b: real)
    requires b > 0.0
    ensures a >= 0.0 <==> a / b >= 0.0
    ensures a <= 0.0 <==> a / b <= 0.0
  {
    MulMono(a / b, 0.0, b);
    MulMono(0.0, a / b, b);
  }

  lemma MulDivCancel(m: real, y: real)
    requires y != 0.0
    ensures (y * m) / y == m
  {
  }

  /** C's `fmod` for a positive divisor (the code only divides by 2π): the
      remainder of `x / y` truncated toward zero, so it carries the sign of
      `x`, is smaller than `y` in magnitude and differs from `x` by a whole
      multiple of `y`. */
  function Fmod(x: real, y: real): (r: real)
    requires y > 0.0
    ensures x >= 0.0 ==> 0.0 <= r < y
    ensures x <= 0.0 ==> -y < r <= 0.0
    ensures IsInteger((x - r) / y)
  {
    var q := x / y;
    var m := Trunc(q) as real;
    DivSign(x, y);
    RemainderBounds(x, y, q, m);
    MulDivCancel(m, y);
    assert x - (x - y * m) == y * m;
    x - y * m
  }

  /** `fmod` is odd in its first argument. */
  lemma FmodOdd(x: real, y: real)
    requires y > 0.0
    ensures Fmod(-x, y) == -Fmod(x, y)
  {
    var q := x / y;
    assert (-x) / y == -q;
    TruncOdd(q);
    var n := Trunc(q) as real;
    assert Fmod(-x, y) == -x - y * (-n);
    assert -x - y * (-n) == -(x - y * n);
  }

  lemma TruncOdd(q: real)
    ensures Trunc(-q) == -Trunc(q)
  {
  }

  /** The C math library as used by the code: `sin`, `cos` and `sqrt`.
      They are supplied by the caller; `Valid` states the identities the
      proofs rely on. */
  datatype MathLib = MathLib(sin: real -> real, cos: real -> real, sqrt: real -> real) {

    ghost predicate Valid() {
      && (forall a: real :: sin(a) * sin(a) + cos(a) * cos(a) == 1.0)
      && (forall a: real, b: real :: a + b == 0.0 ==> sin(b) == -sin(a))
      && (forall a: real, b: real :: a + b == 0.0 ==> cos(b) == cos(a))
      && cos(0.0) == 1.0
      && (forall x: real :: x >= 0.0 ==> sqrt(x) >= 0.0 && sqrt(x) * sqrt(x) == x)
    }
  }

  /** `sqrt` is the unique non-negative square root. */
  lemma SqrtUnique(lib: MathLib, x: real, y: real)
    requires lib.Valid()
    requires y >= 0.0 && y * y == x
    ensures lib.sqrt(x) == y
  {
    var s := lib.sqrt(x);
    ProductSign(y, y);
    assert s >= 0.0 && s * s == x;
    assert (s - y) * (s + y) == s * s - y * y;
    ZeroProduct(s - y, s + y);
  }

  lemma ZeroProduct(a: real, b: real)
    requires a * b == 0.0
    ensures a == 0.0 || b == 0.0
  {
    if a != 0.0 {
      assert b == (a * b) / a;
    }
  }

  lemma SqrtMonotone(lib: MathLib, a: real, b: real)
    requires lib.Valid()
    requires 0.0 <= a <= b
    ensures lib.sqrt(a) <= lib.sqrt(b)
  {
    var sa, sb := lib.sqrt(a), lib.sqrt(b);
    assert sa >= 0.0 && sa * sa == a;
    assert sb >= 0.0 && sb * sb == b;
    assert (sa - sb) * (sa + sb) == a - b;
    if sa + sb > 0.0 {
      assert sa - sb == (a - b) / (sa + sb);
      DivSign(a - b, sa + sb);
    }
  }

  lemma SqrtZeroIff(lib: MathLib, x: real)
    requires lib.Valid()
    requires x >= 0.0
    ensures lib.sqrt(x) == 0.0 <==> x == 0.0
  {
    assert lib.sqrt(x) * lib.sqrt(x) == x;
    if x == 0.0 {
      SqrtUnique(lib, 0.0, 0.0);
    }
  }

  /** What a valid `sqrt` gives on a non-negative argument, stated so that
      it can be used whether or not the library is valid. */
  lemma SqrtWhenValid(lib: MathLib, x: real)
    requires x >= 0.0
    ensures lib.Valid() ==> lib.sqrt(x) >= 0.0 && lib.sqrt(x) * lib.sqrt(x) == x
    ensures lib.Valid() ==> (lib.sqrt(x) == 0.0 <==> x == 0.0)
  {
    if lib.Valid() {
      SqrtZeroIff(lib, x);
    }
  }

  /** The (sin, cos) pair of the zero angle. */
  lemma TrigAtZero(lib: MathLib)
    requires lib.Valid()
    ensures lib.sin(0.0) == 0.0 && lib.cos(0.0) == 1.0
  {
    assert lib.sin(-0.0) == -lib.sin(0.0);
  }
}
