/** Planar geometry of CommonMini.cpp: cross and dot products, distances,
    projection of a point on a line, the "between the endpoints" test,
    distances to lines and edges, line intersection, side-of-line tests
    and the sector test.

    The source passes points as separate x and y doubles and returns
    results through reference parameters; here a point is a `Point` value
    and results that travel together are returned in a small datatype. */
module Geometry {
  import opened Numeric

  datatype Point = Point(x: real, y: real)

  /** The vector from `b` to `a`. */
  function Minus(a: Point, b: Point): Point {
    Point(a.x - b.x, a.y - b.y)
  }

  function Scale(k: real, v: Point): Point {
    Point(k * v.x, k * v.y)
  }

  /** `GetCrossProduct2D(x1, y1, x2, y2)`: the z component of the cross
      product of (x1, y1) and (x2, y2). */
  function GetCrossProduct2D(x1: real, y1: real, x2: real, y2: real): real {
    x1 * y2 - x2 * y1
  }

  /** `GetDotProduct2D(x1, y1, x2, y2)`. */
  function GetDotProduct2D(x1: real, y1: real, x2: real, y2: real): real {
    x1 * x2 + y1 * y2
  }

  function Cross(u: Point, v: Point): real {
    GetCrossProduct2D(u.x, u.y, v.x, v.y)
  }

  function Dot(u: Point, v: Point): real {
    GetDotProduct2D(u.x, u.y, v.x, v.y)
  }

  /** The squared length of a vector. */
  function Norm2(v: Point): real {
    Square(v.x) + Square(v.y)
  }

  /** Cross and dot products of the same pair together give the lengths:
      cross² + dot² = |u|²·|v|². The cross product changes sign with the
      order of its arguments; the dot product does not. */
  lemma CrossDotLagrange(u: Point, v: Point)
    ensures Square(Cross(u, v)) + Square(Dot(u, v)) == Norm2(u) * Norm2(v)
    ensures Cross(v, u) == -Cross(u, v)
    ensures Dot(v, u) == Dot(u, v)
  {
  }

  lemma CrossSwap(u: Point, v: Point)
    ensures Cross(v, u) == -Cross(u, v)
  {
  }

  /** `q` lies on the infinite line through `a` and `b`. */
  predicate OnLine(q: Point, a: Point, b: Point) {
    Cross(Minus(b, a), Minus(q, a)) == 0.0
  }

  /** `q` lies on the closed segment from `a` to `b`: on the line, and not
      beyond either endpoint. */
  predicate OnSegment(q: Point, a: Point, b: Point) {
    && OnLine(q, a, b)
    && Dot(Minus(q, a), Minus(b, a)) >= 0.0
    && Dot(Minus(q, b), Minus(a, b)) >= 0.0
  }

  /** The segment is too short in both coordinates to define a direction
      (the source's `fabs(dx) < SMALL_NUMBER && fabs(dy) < SMALL_NUMBER`). */
  predicate Degenerate(a: Point, b: Point) {
    Abs(b.x - a.x) < SMALL_NUMBER && Abs(b.y - a.y) < SMALL_NUMBER
  }

  lemma NonDegenerateHasLength(a: Point, b: Point)
    requires !Degenerate(a, b)
    ensures Norm2(Minus(b, a)) > 0.0
    ensures a != b
  {
    if Abs(b.x - a.x) >= SMALL_NUMBER {
      assert b.x - a.x != 0.0;
    } else {
      assert b.y - a.y != 0.0;
    }
  }

  /** `PointSquareDistance2D`: never negative, zero exactly for equal
      points. */
  function PointSquareDistance2D(p0: Point, p1: Point): (r: real)
    ensures r >= 0.0
    ensures r == 0.0 <==> p0 == p1
  {
    Square(p1.x - p0.x) + Square(p1.y - p0.y)
  }

  /** `PointHeadingDistance2D`: the heading argument is ignored and the
      result is the squared distance. */
  function PointHeadingDistance2D(p0: Point, h: real, p1: Point): (r: real)
    ensures r == PointSquareDistance2D(p0, p1)
  {
    (p1.x - p0.x) * (p1.x - p0.x) + (p1.y - p0.y) * (p1.y - p0.y)
  }

  /** `PointDistance2D`: the Euclidean distance, through the library's
      `sqrt`. */
  function PointDistance2D(lib: MathLib, p0: Point, p1: Point): (r: real)
    ensures lib.Valid() ==> r >= 0.0 && r * r == PointSquareDistance2D(p0, p1)
    ensures lib.Valid() ==> (r == 0.0 <==> p0 == p1)
  {
    var sq := PointSquareDistance2D(p0, p1);
    SqrtWhenValid(lib, sq);
    lib.sqrt(sq)
  }

  /** A shorter squared distance is a shorter distance. */
  lemma DistanceMonotone(lib: MathLib, p: Point, q0: Point, q1: Point)
    requires lib.Valid()
    requires PointSquareDistance2D(p, q0) <= PointSquareDistance2D(p, q1)
    ensures PointDistance2D(lib, p, q0) <= PointDistance2D(lib, p, q1)
  {
    SqrtMonotone(lib, PointSquareDistance2D(p, q0), PointSquareDistance2D(p, q1));
  }

  /** `GetLengthOfLine2D`: the length of a segment is the distance between
      its endpoints. */
  function GetLengthOfLine2D(lib: MathLib, p1: Point, p2: Point): (r: real)
    ensures r == PointDistance2D(lib, p1, p2)
    ensures lib.Valid() ==> r >= 0.0
  {
    assert (p2.x - p1.x) * (p2.x - p1.x) + (p2.y - p1.y) * (p2.y - p1.y) == PointSquareDistance2D(p1, p2);
    lib.sqrt((p2.x - p1.x) * (p2.x - p1.x) + (p2.y - p1.y) * (p2.y - p1.y))
  }

  /** `GetLengthOfVector2D`. */
  function GetLengthOfVector2D(lib: MathLib, v: Point): (r: real)
    ensures lib.Valid() ==> r >= 0.0 && r * r == Norm2(v)
    ensures r == PointDistance2D(lib, Point(0.0, 0.0), v)
  {
    assert v.x * v.x + v.y * v.y == Norm2(v) == PointSquareDistance2D(Point(0.0, 0.0), v);
    SqrtWhenValid(lib, Norm2(v));
    lib.sqrt(v.x * v.x + v.y * v.y)
  }

  /** `GetLengthOfVector3D`: zero exactly for the zero vector. */
  function GetLengthOfVector3D(lib: MathLib, x: real, y: real, z: real): (r: real)
    ensures lib.Valid() ==> r >= 0.0 && r * r == Square(x) + Square(y) + Square(z)
    ensures lib.Valid() ==> (r == 0.0 <==> x == 0.0 && y == 0.0 && z == 0.0)
  {
    var sq := Square(x) + Square(y) + Square(z);
    assert x * x + y * y + z * z == sq;
    SqrtWhenValid(lib, sq);
    lib.sqrt(x * x + y * y + z * z)
  }

  /** `NormalizeVec2D`: a vector pointing the same way as `v`; of unit
      length when `v` is at least `SMALL_NUMBER` long. The length used for
      the division is clamped to `SMALL_NUMBER`, so a shorter `v` gives a
      result shorter than one. */
  function NormalizeVec2D(lib: MathLib, v: Point): (r: Point)
    ensures Cross(v, r) == 0.0 && Dot(v, r) >= 0.0
    ensures lib.Valid() && Norm2(v) >= Square(SMALL_NUMBER) ==> Norm2(r) == 1.0
    ensures lib.Valid() && Norm2(v) < Square(SMALL_NUMBER) ==> Norm2(r) < 1.0
  {
    var len0 := lib.sqrt(v.x * v.x + v.y * v.y);
    var len := if len0 < SMALL_NUMBER then SMALL_NUMBER else len0;
    NormalizeFacts(lib, v, len0, len);
    Point(v.x / len, v.y / len)
  }

  lemma SquareOfQuotient(a: real, l: real)
    requires l != 0.0
    ensures Square(a / l) == Square(a) / Square(l)
  {
    var q := a / l;
    assert a == q * l;
    assert Square(a) == Square(q) * Square(l);
  }

  lemma TimesQuotient(a: real, l: real)
    requires l != 0.0
    ensures a * (a / l) == Square(a) / l
  {
    var q := a / l;
    assert a == q * l;
    assert Square(a) == (a * q) * l;
  }

  lemma NormalizeFacts(lib: MathLib, v: Point, len0: real, len: real)
    requires len0 == lib.sqrt(v.x * v.x + v.y * v.y)
    requires len == if len0 < SMALL_NUMBER then SMALL_NUMBER else len0
    ensures len > 0.0
    ensures Cross(v, Point(v.x / len, v.y / len)) == 0.0
    ensures Dot(v, Point(v.x / len, v.y / len)) >= 0.0
    ensures lib.Valid() && Norm2(v) >= Square(SMALL_NUMBER) ==> Norm2(Point(v.x / len, v.y / len)) == 1.0
    ensures lib.Valid() && Norm2(v) < Square(SMALL_NUMBER) ==> Norm2(Point(v.x / len, v.y / len)) < 1.0
  {
    ScaledDown(v, len);
    if lib.Valid() {
      assert v.x * v.x + v.y * v.y == Norm2(v);
      ClampedLength(lib, Norm2(v), len0, len);
      QuotientAgainstOne(Norm2(v), Square(len));
    }
  }

  /** Dividing a vector by a positive length keeps its direction and
      divides its squared length by the length squared. */
  lemma ScaledDown(v: Point, len: real)
    requires len > 0.0
    ensures Cross(v, Point(v.x / len, v.y / len)) == 0.0
    ensures Dot(v, Point(v.x / len, v.y / len)) >= 0.0
    ensures Norm2(Point(v.x / len, v.y / len)) == Norm2(v) / Square(len)
  {
    ScaledDownDirection(v, len);
    SquareOfQuotient(v.x, len);
    SquareOfQuotient(v.y, len);
    SumOfQuotients(Square(v.x), Square(v.y), Square(len));
  }

  lemma ScaledDownDirection(v: Point, len: real)
    requires len > 0.0
    ensures Cross(v, Point(v.x / len, v.y / len)) == 0.0
    ensures Dot(v, Point(v.x / len, v.y / len)) >= 0.0
  {
    var n := Point(v.x / len, v.y / len);
    assert Cross(v, n) == (v.x * v.y - v.y * v.x) / len;
    TimesQuotient(v.x, len);
    TimesQuotient(v.y, len);
    SumOfQuotients(Square(v.x), Square(v.y), len);
    DivSign(Norm2(v), len);
  }

  lemma SumOfQuotients(a: real, b: real, l: real)
    requires l != 0.0
    ensures a / l + b / l == (a + b) / l
  {
  }

  /** The clamped length squared equals the squared length when that is
      at least `SMALL_NUMBER²`, and exceeds it otherwise. */
  lemma ClampedLength(lib: MathLib, sq: real, len0: real, len: real)
    requires lib.Valid() && sq >= 0.0
    requires len0 == lib.sqrt(sq)
    requires len == if len0 < SMALL_NUMBER then SMALL_NUMBER else len0
    ensures sq >= Square(SMALL_NUMBER) ==> Square(len) == sq
    ensures sq < Square(SMALL_NUMBER) ==> Square(len) > sq
  {
    assert len0 >= 0.0 && len0 * len0 == sq;
    SqrtUnique(lib, Square(SMALL_NUMBER), SMALL_NUMBER);
    if sq >= Square(SMALL_NUMBER) {
      SqrtMonotone(lib, Square(SMALL_NUMBER), sq);
      assert len == len0;
    } else {
      SqrtMonotone(lib, sq, Square(SMALL_NUMBER));
      assert len == SMALL_NUMBER;
    }
  }

  lemma QuotientAgainstOne(a: real, b: real)
    requires a > 0.0 || b > a
    requires b > 0.0
    ensures b == a ==> a / b == 1.0
    ensures b > a ==> a / b < 1.0
  {
    if b > a {
      MulMono(a / b, 1.0, b);
    }
  }

  /** `ProjectPointOnVector2D`: the foot of the perpendicular from `p` to
      the line through `v1` and `v2`; `v1` itself when the two points are
      too close to define a line. */
  function ProjectPointOnVector2D(p: Point, v1: Point, v2: Point): (r: Point)
    ensures Degenerate(v1, v2) ==> r == v1
    ensures !Degenerate(v1, v2) ==> OnLine(r, v1, v2)
    ensures !Degenerate(v1, v2) ==> Dot(Minus(p, r), Minus(v2, v1)) == 0.0
    ensures !Degenerate(v1, v2) && OnLine(p, v1, v2) ==> r == p
  {
    if Degenerate(v1, v2) then
      v1
    else
      FootFacts(p, v1, v2);
      Foot(p, v1, v2)
  }

  /** The source's formula for the foot of the perpendicular: `p` moved
      by `k` times the line's normal (-dy, dx). */
  function Foot(p: Point, v1: Point, v2: Point): Point
    requires !Degenerate(v1, v2)
  {
    var dx := v2.x - v1.x;
    var dy := v2.y - v1.y;
    NonDegenerateHasLength(v1, v2);
    Norm2Expanded(Minus(v2, v1));
    var k := NormalOffset(p.x - v1.x, p.y - v1.y, dx, dy);
    Point(p.x - k * dy, p.y + k * dx)
  }

  /** The factor `k` of the source: the cross product of the offset of `p`
      and the line, over the squared length of the line. */
  function NormalOffset(px: real, py: real, dx: real, dy: real): real
    requires dy * dy + dx * dx != 0.0
  {
    (dy * px - dx * py) / (dy * dy + dx * dx)
  }

  lemma Norm2Expanded(v: Point)
    ensures Norm2(v) == v.y * v.y + v.x * v.x
  {
  }

  function Plus(a: Point, b: Point): Point {
    Point(a.x + b.x, a.y + b.y)
  }

  /** The direction `v` turned a quarter to the left. */
  function Normal(v: Point): Point {
    Point(-v.y, v.x)
  }

  /** In vector form the foot is `p + k·Normal(v2 - v1)`, where `k` times
      the squared length of the line is the cross product of `p - v1` with
      the line, negated. */
  lemma FootVector(p: Point, v1: Point, v2: Point)
    requires !Degenerate(v1, v2)
    ensures var d := Minus(v2, v1);
            Norm2(d) > 0.0
            && Foot(p, v1, v2) == Plus(p, Scale(NormalOffset(p.x - v1.x, p.y - v1.y, d.x, d.y), Normal(d)))
            && NormalOffset(p.x - v1.x, p.y - v1.y, d.x, d.y) * Norm2(d) == -Cross(d, Minus(p, v1))
  {
    var d, w := Minus(v2, v1), Minus(p, v1);
    NonDegenerateHasLength(v1, v2);
    Norm2Expanded(d);
    var k := NormalOffset(w.x, w.y, d.x, d.y);
    assert Foot(p, v1, v2) == Point(p.x - k * d.y, p.y + k * d.x);
    NormalOffsetTimes(w, d);
  }

  lemma NormalOffsetTimes(w: Point, d: Point)
    requires d.y * d.y + d.x * d.x != 0.0
    ensures NormalOffset(w.x, w.y, d.x, d.y) * (d.y * d.y + d.x * d.x) == -Cross(d, w)
  {
  }

  /** The cross product is linear in its second argument. */
  lemma CrossAddScaled(u: Point, a: Point, k: real, b: Point)
    ensures Cross(u, Plus(a, Scale(k, b))) == Cross(u, a) + k * Cross(u, b)
  {
  }

  lemma NormalFacts(u: Point)
    ensures Cross(u, Normal(u)) == Norm2(u)
    ensures Dot(Normal(u), u) == 0.0
  {
  }

  lemma FootFacts(p: Point, v1: Point, v2: Point)
    requires !Degenerate(v1, v2)
    ensures OnLine(Foot(p, v1, v2), v1, v2)
    ensures Dot(Minus(p, Foot(p, v1, v2)), Minus(v2, v1)) == 0.0
    ensures OnLine(p, v1, v2) ==> Foot(p, v1, v2) == p
  {
    var d := Minus(v2, v1);
    FootVector(p, v1, v2);
    Norm2Expanded(d);
    PerpendicularMove(p, v1, Foot(p, v1, v2), d, NormalOffset(p.x - v1.x, p.y - v1.y, d.x, d.y));
  }

  /** Moving `p` along the normal of direction `d` by the factor that
      cancels its cross product with `d` lands on the line through `o`;
      the move is perpendicular to `d`, and it is no move at all when `p`
      is already on the line. */
  lemma PerpendicularMove(p: Point, o: Point, f: Point, d: Point, k: real)
    requires Norm2(d) > 0.0
    requires f == Plus(p, Scale(k, Normal(d)))
    requires k * Norm2(d) == -Cross(d, Minus(p, o))
    ensures Cross(d, Minus(f, o)) == 0.0
    ensures Dot(Minus(p, f), d) == 0.0
    ensures Cross(d, Minus(p, o)) == 0.0 ==> f == p
  {
    var w, n := Minus(p, o), Normal(d);
    assert Minus(f, o) == Plus(w, Scale(k, n));
    CrossAddScaled(d, w, k, n);
    NormalFacts(d);
    assert Minus(p, f) == Scale(-k, n);
    DotScaled(-k, n, d);
    if Cross(d, w) == 0.0 {
      CancelFactor(k, 0.0, Norm2(d));
      assert Scale(k, n) == Point(0.0, 0.0);
    }
  }

  lemma DotScaled(k: real, a: Point, b: Point)
    ensures Dot(Scale(k, a), b) == k * Dot(a, b)
  {
  }

  /** `p` is strictly to the left of the directed line from `a` to `b`. */
  predicate LeftOf(p: Point, a: Point, b: Point) {
    Cross(Minus(b, a), Minus(p, a)) > 0.0
  }

  /** `p` is strictly to the right of the directed line from `a` to `b`. */
  predicate RightOf(p: Point, a: Point, b: Point) {
    Cross(Minus(b, a), Minus(p, a)) < 0.0
  }

  /** `PointSideOfVec`: +1 when `p` is to the left of the directed line
      from `v1` to `v2`, -1 when it is to the right, and whatever `SIGN`
      gives for zero when it is on the line. The coordinates reach
      `GetCrossProduct2D` in an unusual order that still yields the cross
      product of `v2 - v1` and `p - v1`. */
  function PointSideOfVec(p: Point, v1: Point, v2: Point): (r: int)
    ensures r == 1 || r == -1
    ensures LeftOf(p, v1, v2) ==> r == 1
    ensures RightOf(p, v1, v2) ==> r == -1
    ensures OnLine(p, v1, v2) ==> r == SIGN_OF_ZERO
  {
    Sign(GetCrossProduct2D(v2.x - v1.x, p.x - v1.x, v2.y - v1.y, p.y - v1.y))
  }

  /** Reversing the line's direction swaps left and right. */
  lemma PointSideOfVecReversed(p: Point, v1: Point, v2: Point)
    requires !OnLine(p, v1, v2)
    ensures PointSideOfVec(p, v2, v1) == -PointSideOfVec(p, v1, v2)
  {
    assert Cross(Minus(v1, v2), Minus(p, v2)) == -Cross(Minus(v2, v1), Minus(p, v1));
  }

  /** The side does not depend on where the origin is or on the unit of
      length: moving all three points by `t` and scaling them by `c > 0`
      leaves it unchanged. */
  lemma PointSideOfVecSimilarity(p: Point, v1: Point, v2: Point, t: Point, c: real)
    requires c > 0.0
    ensures
      var f := (q: Point) => Point(c * q.x + t.x, c * q.y + t.y);
      PointSideOfVec(f(p), f(v1), f(v2)) == PointSideOfVec(p, v1, v2)
  {
    var f := (q: Point) => Point(c * q.x + t.x, c * q.y + t.y);
    var k := Cross(Minus(v2, v1), Minus(p, v1));
    assert Cross(Minus(f(v2), f(v1)), Minus(f(p), f(v1))) == Product(c, c) * k;
    ProductSign(Product(c, c), k);
  }

  /** `PointToLineDistance2DSigned`: the distance from `p` to the line
      through `l0` and `l1`, positive on the left and negative on the right.
      The source divides by the line's length without a guard, so the line
      must have one. */
  function PointToLineDistance2DSigned(lib: MathLib, p: Point, l0: Point, l1: Point): (r: real)
    requires lib.Valid() && l0 != l1
    ensures r > 0.0 <==> LeftOf(p, l0, l1)
    ensures r < 0.0 <==> RightOf(p, l0, l1)
    ensures r == 0.0 <==> OnLine(p, l0, l1)
    ensures Square(r) * Norm2(Minus(l1, l0)) == Square(Cross(Minus(l1, l0), Minus(p, l0)))
  {
    var l0x := l1.x - l0.x;
    var l0y := l1.y - l0.y;
    var cp := GetCrossProduct2D(l1.x - l0.x, l1.y - l0.y, p.x - l0.x, p.y - l0.y);
    var sq := l0x * l0x + l0y * l0y;
    var len := lib.sqrt(sq);
    SignedDistanceFacts(lib, p, l0, l1, cp, sq, len);
    cp / len
  }

  lemma SignedDistanceFacts(lib: MathLib, p: Point, l0: Point, l1: Point, cp: real, sq: real, len: real)
    requires lib.Valid() && l0 != l1
    requires cp == Cross(Minus(l1, l0), Minus(p, l0))
    requires sq == Norm2(Minus(l1, l0))
    requires len == lib.sqrt(sq)
    ensures len > 0.0
    ensures cp / len > 0.0 <==> cp > 0.0
    ensures cp / len < 0.0 <==> cp < 0.0
    ensures Square(cp / len) * Norm2(Minus(l1, l0)) == Square(cp)
  {
    var n2 := Norm2(Minus(l1, l0));
    assert n2 == PointSquareDistance2D(l0, l1);
    SqrtWhenValid(lib, n2);
    DivSign(cp, len);
    QuotientSquare(cp, len, n2);
  }

  lemma QuotientSquare(a: real, l: real, n: real)
    requires l != 0.0 && l * l == n
    ensures Square(a / l) * n == Square(a)
  {
    var q := a / l;
    assert a == q * l;
    assert Square(a) == (q * q) * (l * l);
  }

  /** A point and a distance to it, returned together by the distance
      functions (the source writes the point through optional pointers). */
  datatype Closest = Closest(dist: real, at: Point)

  /** `DistanceFromPointToLine2D`: the distance from `p` to its projection
      on the line through `p1` and `p2`, and that projection. */
  function DistanceFromPointToLine2D(lib: MathLib, p: Point, p1: Point, p2: Point): (r: Closest)
    ensures r.dist == PointDistance2D(lib, p, r.at)
    ensures Degenerate(p1, p2) ==> r.at == p1
    ensures !Degenerate(p1, p2) ==> OnLine(r.at, p1, p2) && Dot(Minus(p, r.at), Minus(p2, p1)) == 0.0
  {
    var at := ProjectPointOnVector2D(p, p1, p2);
    Closest(PointDistance2D(lib, p, at), at)
  }

  /** Pythagoras along a line: for `f` the foot of the perpendicular from
      `p` and `q` another point of the line, |p - q|² = |p - f|² + |f - q|². */
  lemma Pythagoras(p: Point, f: Point, q: Point, d: Point, u: real)
    requires Dot(Minus(p, f), d) == 0.0
    requires Minus(q, f) == Scale(u, d)
    ensures PointSquareDistance2D(p, q) == PointSquareDistance2D(p, f) + Square(u) * Norm2(d)
  {
    var w := Minus(p, f);
    assert Minus(q, p) == Point(u * d.x - w.x, u * d.y - w.y);
    PythagorasScalars(w.x, w.y, d.x, d.y, u);
  }

  lemma PythagorasScalars(wx: real, wy: real, dx: real, dy: real, u: real)
    requires wx * dx + wy * dy == 0.0
    ensures Square(u * dx - wx) + Square(u * dy - wy) == Square(wx) + Square(wy) + Square(u) * (Square(dx) + Square(dy))
  {
    var a, b := u * dx, u * dy;
    SquareOfDifference(a, wx);
    SquareOfDifference(b, wy);
    SquareOfProduct(u, dx);
    SquareOfProduct(u, dy);
    Distribute(u, wx * dx, wy * dy);
    assert a * wx == u * (wx * dx) && b * wy == u * (wy * dy);
    Distribute(Square(u), Square(dx), Square(dy));
  }

  lemma Distribute(k: real, x: real, y: real)
    ensures k * (x + y) == k * x + k * y
  {
  }

  lemma SquareOfDifference(a: real, b: real)
    ensures Square(a - b) == Square(a) - 2.0 * (a * b) + Square(b)
  {
  }

  lemma SquareOfProduct(a: real, b: real)
    ensures Square(a * b) == Square(a) * Square(b)
  {
  }

  /** The projection is the point of the line nearest to `p`. */
  lemma LineDistanceIsMinimal(lib: MathLib, p: Point, p1: Point, p2: Point, q: Point)
    requires lib.Valid() && !Degenerate(p1, p2)
    requires OnLine(q, p1, p2)
    ensures DistanceFromPointToLine2D(lib, p, p1, p2).dist <= PointDistance2D(lib, p, q)
  {
    var f := ProjectPointOnVector2D(p, p1, p2);
    var d := Minus(p2, p1);
    var tf := LinePosition(f, p1, p2);
    var tq := LinePosition(q, p1, p2);
    PositionDifference(q, f, p1, d, tq, tf);
    Pythagoras(p, f, q, d, tq - tf);
    ProductSign(Square(tq - tf), Norm2(d));
    DistanceMonotone(lib, p, f, q);
  }

  lemma PositionDifference(q: Point, f: Point, o: Point, d: Point, tq: real, tf: real)
    requires Minus(q, o) == Scale(tq, d) && Minus(f, o) == Scale(tf, d)
    ensures Minus(q, f) == Scale(tq - tf, d)
  {
    assert q.x - f.x == tq * d.x - tf * d.x;
    assert q.y - f.y == tq * d.y - tf * d.y;
  }

  /** The magnitude of the signed distance is the distance to the line,
      once the line is long enough for the projection to be made. */
  lemma SignedDistanceMagnitude(lib: MathLib, p: Point, l0: Point, l1: Point)
    requires lib.Valid() && !Degenerate(l0, l1)
    ensures l0 != l1
    ensures Abs(PointToLineDistance2DSigned(lib, p, l0, l1)) == DistanceFromPointToLine2D(lib, p, l0, l1).dist
  {
    NonDegenerateHasLength(l0, l1);
    var r := PointToLineDistance2DSigned(lib, p, l0, l1);
    var f := ProjectPointOnVector2D(p, l0, l1);
    var d := Minus(l1, l0);
    var c := Square(Cross(d, Minus(p, l0)));
    FootDistanceSquared(p, l0, d, f);
    RootOfQuotient(lib, r, PointSquareDistance2D(p, f), Norm2(d), c);
  }

  /** |cross(d, p - l0)|² = |d|²·|p - f|² for the foot `f` of the
      perpendicular from `p` to the line through `l0` with direction `d`. */
  lemma FootDistanceSquared(p: Point, l0: Point, d: Point, f: Point)
    requires Cross(d, Minus(f, l0)) == 0.0
    requires Dot(Minus(p, f), d) == 0.0
    ensures Square(Cross(d, Minus(p, l0))) == Norm2(d) * PointSquareDistance2D(p, f)
  {
    var w := Minus(f, p);
    CrossSplit(d, p, f, l0);
    DotNegated(Minus(p, f), w, d);
    CrossDotLagrange(d, w);
    SquareOfNegation(Cross(d, w));
    assert Norm2(w) == PointSquareDistance2D(p, f);
  }

  lemma CrossSplit(d: Point, p: Point, f: Point, o: Point)
    ensures Cross(d, Minus(p, o)) == -Cross(d, Minus(f, p)) + Cross(d, Minus(f, o))
  {
  }

  lemma DotNegated(u: Point, w: Point, d: Point)
    requires w == Point(-u.x, -u.y)
    ensures Dot(d, w) == -Dot(u, d)
  {
  }

  lemma SquareOfNegation(a: real)
    ensures Square(-a) == Square(a)
  {
  }

  lemma RootOfQuotient(lib: MathLib, r: real, s: real, n: real, c: real)
    requires lib.Valid() && n > 0.0 && s >= 0.0
    requires Square(r) * n == c && c == n * s
    ensures Abs(r) == lib.sqrt(s)
  {
    CancelFactor(Square(r), s, n);
    assert Abs(r) * Abs(r) == s;
    SqrtUnique(lib, s, Abs(r));
  }

  lemma CancelFactor(a: real, b: real, c: real)
    requires c != 0.0 && c * a == c * b
    ensures a == b
  {
    var m := if c > 0.0 then c else -c;
    assert m * a == m * b;
    if a < b {
      MulMono(a, b, m);
    } else if a > b {
      MulMono(b, a, m);
    }
  }

  /** A steep segment is more vertical than horizontal; the between test
      then compares y coordinates, otherwise x coordinates. */
  predicate Steep(a: Point, b: Point) {
    Abs(b.x - a.x) < Abs(b.y - a.y)
  }

  /** The coordinate the between test uses. */
  function Along(p: Point, steep: bool): real {
    if steep then p.y else p.x
  }

  /** On a segment that is not degenerate, the coordinate the between test
      uses differs between the endpoints by at least `SMALL_NUMBER`, so the
      division in the test is defined. */
  lemma DominantAxisIsWide(p1: Point, p2: Point)
    requires !Degenerate(p1, p2)
    ensures Abs(Along(p2, Steep(p1, p2)) - Along(p1, Steep(p1, p2))) >= SMALL_NUMBER
  {
  }

  /** Where `p` lies along the segment from `p1` (0) to `p2` (1), measured on
      the segment's dominant axis. */
  function LinePosition(p: Point, p1: Point, p2: Point): (t: real)
    requires !Degenerate(p1, p2)
    ensures OnLine(p, p1, p2) ==> Minus(p, p1) == Scale(t, Minus(p2, p1))
  {
    var s := Steep(p1, p2);
    DominantAxisIsWide(p1, p2);
    var t := (Along(p, s) - Along(p1, s)) / (Along(p2, s) - Along(p1, s));
    if s then
      LinePositionOnLine(p, p1, p2, t);
      t
    else
      LinePositionOnLine(Swap(p), Swap(p1), Swap(p2), t);
      SwapOnLine(p, p1, p2);
      t
  }

  /** The point mirrored in the diagonal: x and y exchanged. */
  function Swap(p: Point): Point {
    Point(p.y, p.x)
  }

  lemma SwapOnLine(p: Point, p1: Point, p2: Point)
    ensures OnLine(Swap(p), Swap(p1), Swap(p2)) <==> OnLine(p, p1, p2)
  {
  }

  /** On a line through `p1` and `p2` whose y coordinates differ, the
      fraction of the y distance is the position along the line. */
  lemma LinePositionOnLine(p: Point, p1: Point, p2: Point, t: real)
    requires p2.y - p1.y != 0.0
    requires t == (p.y - p1.y) / (p2.y - p1.y)
    ensures OnLine(p, p1, p2) ==> Minus(p, p1) == Scale(t, Minus(p2, p1))
  {
    if OnLine(p, p1, p2) {
      OnLineProducts(p, p1, p2);
      ScaledAlong(p.y - p1.y, p.x - p1.x, p2.y - p1.y, p2.x - p1.x, t);
    }
  }

  lemma OnLineProducts(p: Point, p1: Point, p2: Point)
    requires OnLine(p, p1, p2)
    ensures (p2.x - p1.x) * (p.y - p1.y) == (p2.y - p1.y) * (p.x - p1.x)
  {
    var d, w := Minus(p2, p1), Minus(p, p1);
    assert Cross(d, w) == d.x * w.y - w.x * d.y;
  }

  /** An offset (a, b) parallel to (d1, d2), measured as a fraction `t` of
      the non-zero `d1`, is `t` times (d1, d2). */
  lemma ScaledAlong(a: real, b: real, d1: real, d2: real, t: real)
    requires d1 != 0.0 && t == a / d1
    requires d2 * a == d1 * b
    ensures a == t * d1 && b == t * d2
  {
    assert a == t * d1;
    assert d1 * b == d1 * (t * d2);
    CancelFactor(b, t * d2, d1);
  }

  /** Which side of the dominant-axis interval a coordinate falls on, as
      the source tests it, agrees with the normalised position being in
      [0, 1]. */
  lemma BetweenMeansUnitPosition(a: real, a1: real, a2: real)
    requires a2 - a1 != 0.0
    ensures (if a2 > a1 then !(a < a1 || a > a2) else !(a > a1 || a < a2))
            <==> 0.0 <= (a - a1) / (a2 - a1) <= 1.0
  {
    if a2 > a1 {
      UnitQuotient(a - a1, a2 - a1);
    } else {
      NegatedQuotient(a - a1, a2 - a1);
      UnitQuotient(a1 - a, a1 - a2);
    }
  }

  /** For a positive `d`, `n / d` is in [0, 1] exactly when `n` is in [0, d]. */
  lemma UnitQuotient(n: real, d: real)
    requires d > 0.0
    ensures 0.0 <= n / d <= 1.0 <==> 0.0 <= n <= d
  {
    DivSign(n, d);
    DivSign(n - d, d);
    QuotientMinusOne(n, d);
  }

  lemma NegatedQuotient(n: real, d: real)
    requires d != 0.0
    ensures n / d == (-n) / (-d)
  {
  }

  lemma QuotientMinusOne(n: real, d: real)
    requires d != 0.0
    ensures n / d - 1.0 == (n - d) / d
  {
    SumOfQuotients(n, -d, d);
    assert (-d) / d == -1.0;
  }

  /** The result of the between test: whether the point lies between the
      endpoints, and the `sNorm` the source writes back. */
  datatype Span = Span(inside: bool, sNorm: real)

  /** `PointInBetweenVectorEndpoints`: whether `p` lies between `p1` and
      `p2`, judged on the segment's dominant axis. Inside, `sNorm` is the
      position along the segment (0 at `p1`, 1 at `p2`); before `p1` it is
      minus the distance to `p1`, beyond `p2` the distance to `p2`. A
      degenerate segment counts every point as inside at position 0. */
  function PointInBetweenVectorEndpoints(lib: MathLib, p: Point, p1: Point, p2: Point): (r: Span)
    ensures Degenerate(p1, p2) ==> r == Span(true, 0.0)
    ensures !Degenerate(p1, p2) ==> (r.inside <==> 0.0 <= LinePosition(p, p1, p2) <= 1.0)
    ensures !Degenerate(p1, p2) && r.inside ==> r.sNorm == LinePosition(p, p1, p2)
    ensures !Degenerate(p1, p2) && LinePosition(p, p1, p2) < 0.0 ==> r.sNorm == -PointDistance2D(lib, p, p1)
    ensures !Degenerate(p1, p2) && LinePosition(p, p1, p2) > 1.0 ==> r.sNorm == PointDistance2D(lib, p, p2)
    ensures lib.Valid() && !Degenerate(p1, p2) && !r.inside ==> (r.sNorm < 0.0 <==> LinePosition(p, p1, p2) < 0.0)
  {
    if Abs(p2.y - p1.y) < SMALL_NUMBER && Abs(p2.x - p1.x) < SMALL_NUMBER then
      Span(true, 0.0)
    else
      var steep := Abs(p2.x - p1.x) < Abs(p2.y - p1.y);
      var a := Along(p, steep);
      var a1 := Along(p1, steep);
      var a2 := Along(p2, steep);
      DominantAxisIsWide(p1, p2);
      var sNorm := (a - a1) / (a2 - a1);
      var inside := if a2 > a1 then !(a < a1 || a > a2) else !(a > a1 || a < a2);
      BetweenMeansUnitPosition(a, a1, a2);
      AtStartPositionZero(p, p1, a, a1, a2 - a1);
      if inside then
        Span(true, sNorm)
      else if sNorm < 0.0 then
        Span(false, -PointDistance2D(lib, p, p1))
      else
        Span(false, PointDistance2D(lib, p, p2))
  }

  lemma AtStartPositionZero(p: Point, p1: Point, a: real, a1: real, d: real)
    requires d != 0.0
    requires p == p1 ==> a == a1
    ensures p == p1 ==> (a - a1) / d == 0.0
  {
  }

  /** `DistanceFromPointToEdge2D`: the distance from `p` to the nearest
      point of the segment from `p1` to `p2`, and that point: the
      projection when it falls between the endpoints, otherwise the
      endpoint on the side where it falls. */
  function DistanceFromPointToEdge2D(lib: MathLib, p: Point, p1: Point, p2: Point): (r: Closest)
    ensures r.dist == PointDistance2D(lib, p, r.at)
    ensures OnSegment(r.at, p1, p2)
    ensures Degenerate(p1, p2) ==> r.at == p1
  {
    var f := ProjectPointOnVector2D(p, p1, p2);
    var span := PointInBetweenVectorEndpoints(lib, f, p1, p2);
    EndpointsOnSegment(p1, p2);
    if span.inside then
      if Degenerate(p1, p2) then
        Closest(PointDistance2D(lib, p, f), f)
      else
        OnSegmentByPosition(f, p1, p2, LinePosition(f, p1, p2));
        Closest(PointDistance2D(lib, p, f), f)
    else if span.sNorm < 0.0 then
      Closest(PointDistance2D(lib, p, p1), p1)
    else
      Closest(PointDistance2D(lib, p, p2), p2)
  }

  lemma DotSelf(u: Point)
    ensures Dot(u, u) == Norm2(u) && Dot(u, u) >= 0.0
  {
  }

  lemma EndpointsOnSegment(a: Point, b: Point)
    ensures OnSegment(a, a, b) && OnSegment(b, a, b)
  {
    DotSelf(Minus(b, a));
    DotSelf(Minus(a, b));
  }

  /** A point of the line whose position is in [0, 1] lies on the
      segment. */
  lemma OnSegmentByPosition(q: Point, a: Point, b: Point, t: real)
    requires OnLine(q, a, b)
    requires Minus(q, a) == Scale(t, Minus(b, a))
    requires 0.0 <= t <= 1.0
    ensures OnSegment(q, a, b)
  {
    var d := Minus(b, a);
    PositionProducts(q, a, b, d, t);
    DotSelf(d);
    NonNegativeProduct(t, Norm2(d));
    NonNegativeProduct(1.0 - t, Norm2(d));
  }

  lemma NonNegativeProduct(a: real, b: real)
    requires a >= 0.0 && b >= 0.0
    ensures a * b >= 0.0
  {
    ProductSign(a, b);
  }

  /** Conversely, a point of the segment has a position in [0, 1]. */
  lemma PositionOnSegment(q: Point, a: Point, b: Point)
    requires !Degenerate(a, b) && OnSegment(q, a, b)
    ensures 0.0 <= LinePosition(q, a, b) <= 1.0
  {
    var d := Minus(b, a);
    var s := LinePosition(q, a, b);
    NonDegenerateHasLength(a, b);
    PositionProducts(q, a, b, d, s);
    UnitFromProducts(s, Norm2(d), Dot(Minus(q, a), d), Dot(Minus(q, b), Minus(a, b)));
  }

  lemma PositionProducts(q: Point, a: Point, b: Point, d: Point, s: real)
    requires d == Minus(b, a)
    requires Minus(q, a) == Scale(s, d)
    ensures Dot(Minus(q, a), d) == s * Norm2(d)
    ensures Dot(Minus(q, b), Minus(a, b)) == (1.0 - s) * Norm2(d)
  {
    DotSelf(d);
    assert Minus(q, b) == Scale(s - 1.0, d);
  }

  lemma UnitFromProducts(s: real, n: real, u: real, v: real)
    requires n > 0.0 && u == s * n && v == (1.0 - s) * n
    requires u >= 0.0 && v >= 0.0
    ensures 0.0 <= s <= 1.0
  {
    if s < 0.0 {
      MulMono(s, 0.0, n);
    }
    if s > 1.0 {
      MulMono(1.0 - s, 0.0, n);
    }
  }

  lemma SquareMonotone(a: real, b: real)
    requires 0.0 <= a <= b
    ensures Square(a) <= Square(b)
  {
    assert Square(b) - Square(a) == Product(b - a, b + a);
  }

  lemma SquareOfAbs(a: real)
    ensures Square(Abs(a)) == Square(a)
  {
  }

  /** Clamping `t` to [0, 1] gives the point of [0, 1] nearest to `t`. */
  lemma ClampIsNearest(t: real, s: real, c: real)
    requires 0.0 <= s <= 1.0
    requires c == if t < 0.0 then 0.0 else if t > 1.0 then 1.0 else t
    ensures Square(c - t) <= Square(s - t)
  {
    SquareOfAbs(c - t);
    SquareOfAbs(s - t);
    SquareMonotone(Abs(c - t), Abs(s - t));
  }

  /** The edge distance is the least distance from `p` to any point of the
      segment. */
  lemma EdgeDistanceIsMinimal(lib: MathLib, p: Point, p1: Point, p2: Point, q: Point)
    requires lib.Valid() && !Degenerate(p1, p2)
    requires OnSegment(q, p1, p2)
    ensures DistanceFromPointToEdge2D(lib, p, p1, p2).dist <= PointDistance2D(lib, p, q)
  {
    var r := DistanceFromPointToEdge2D(lib, p, p1, p2);
    var f := ProjectPointOnVector2D(p, p1, p2);
    var d := Minus(p2, p1);
    var t := LinePosition(f, p1, p2);
    var s := LinePosition(q, p1, p2);
    PositionOnSegment(q, p1, p2);
    var c := if t < 0.0 then 0.0 else if t > 1.0 then 1.0 else t;
    EdgePointPosition(lib, p, p1, p2, t, c);
    NonDegenerateHasLength(p1, p2);
    ClampedIsNearer(p, f, p1, d, r.at, q, t, s, c);
    DistanceMonotone(lib, p, r.at, q);
  }

  /** Of two points of a line, the one whose position is nearer to the
      foot of the perpendicular from `p` is nearer to `p`. */
  lemma ClampedIsNearer(p: Point, f: Point, o: Point, d: Point, at: Point, q: Point, t: real, s: real, c: real)
    requires Norm2(d) > 0.0 && Dot(Minus(p, f), d) == 0.0
    requires Minus(f, o) == Scale(t, d)
    requires Minus(q, o) == Scale(s, d)
    requires Minus(at, o) == Scale(c, d)
    requires 0.0 <= s <= 1.0
    requires c == if t < 0.0 then 0.0 else if t > 1.0 then 1.0 else t
    ensures PointSquareDistance2D(p, at) <= PointSquareDistance2D(p, q)
  {
    PositionDifference(q, f, o, d, s, t);
    PositionDifference(at, f, o, d, c, t);
    Pythagoras(p, f, q, d, s - t);
    Pythagoras(p, f, at, d, c - t);
    ClampIsNearest(t, s, c);
    AddScaled(PointSquareDistance2D(p, f), Square(c - t), Square(s - t), Norm2(d),
              PointSquareDistance2D(p, at), PointSquareDistance2D(p, q));
  }

  lemma AddScaled(base: real, x: real, y: real, n: real, u: real, v: real)
    requires n > 0.0 && x <= y
    requires u == base + x * n && v == base + y * n
    ensures u <= v
  {
    MulMono(x, y, n);
  }

  /** The point the edge distance picks sits at the clamped position of
      the projection. */
  lemma EdgePointPosition(lib: MathLib, p: Point, p1: Point, p2: Point, t: real, c: real)
    requires lib.Valid() && !Degenerate(p1, p2)
    requires t == LinePosition(ProjectPointOnVector2D(p, p1, p2), p1, p2)
    requires c == if t < 0.0 then 0.0 else if t > 1.0 then 1.0 else t
    ensures Minus(DistanceFromPointToEdge2D(lib, p, p1, p2).at, p1) == Scale(c, Minus(p2, p1))
  {
    var f := ProjectPointOnVector2D(p, p1, p2);
    var span := PointInBetweenVectorEndpoints(lib, f, p1, p2);
    var d := Minus(p2, p1);
    if span.inside {
      assert Minus(f, p1) == Scale(t, d);
    } else if span.sNorm < 0.0 {
      assert c == 0.0;
      assert Minus(p1, p1) == Scale(0.0, d);
    } else {
      assert c == 1.0;
      assert Minus(p2, p1) == Scale(1.0, d);
    }
  }

  /** The outcome of intersecting two lines: status 0 with the crossing
      point, or status -1 (parallel) with the output point left as it was. */
  datatype Intersection = Intersection(status: int, at: Point)

  /** `GetIntersectionOfTwoLineSegments`: despite the name, the crossing of
      the two infinite lines through `a1, a2` and `b1, b2`. When the lines
      are parallel within `SMALL_NUMBER` the status is -1 and `prior`, the
      value the output point had before the call, is returned unchanged. */
  function GetIntersectionOfTwoLineSegments(a1: Point, a2: Point, b1: Point, b2: Point, prior: Point): (r: Intersection)
    ensures r.status == 0 || r.status == -1
    ensures r.status == -1 <==> Abs(Cross(Minus(a2, a1), Minus(b2, b1))) < SMALL_NUMBER
    ensures r.status == -1 ==> r.at == prior
    ensures r.status == 0 ==> OnLine(r.at, a1, a2) && OnLine(r.at, b1, b2)
  {
    var den := (a1.x - a2.x) * (b1.y - b2.y) - (a1.y - a2.y) * (b1.x - b2.x);
    CrossOfNegated(a2.x - a1.x, a2.y - a1.y, b2.x - b1.x, b2.y - b1.y);
    if Abs(den) < SMALL_NUMBER then
      Intersection(-1, prior)
    else
      var t := ((a1.x - b1.x) * (b1.y - b2.y) - (a1.y - b1.y) * (b1.x - b2.x)) / den;
      var q := Point(a1.x + t * (a2.x - a1.x), a1.y + t * (a2.y - a1.y));
      CrossingOnBothLines(a1, a2, b1, b2, den, t, q);
      Intersection(0, q)
  }

  /** The cross product of two vectors equals that of their negations. */
  lemma CrossOfNegated(ux: real, uy: real, vx: real, vy: real)
    ensures (-ux) * (-vy) - (-uy) * (-vx) == GetCrossProduct2D(ux, uy, vx, vy)
  {
    assert (-ux) * (-vy) == ux * vy;
    assert (-uy) * (-vx) == vx * uy;
  }

  lemma CrossingOnBothLines(a1: Point, a2: Point, b1: Point, b2: Point, den: real, t: real, q: Point)
    requires den == Cross(Minus(a2, a1), Minus(b2, b1)) && den != 0.0
    requires t == ((a1.x - b1.x) * (b1.y - b2.y) - (a1.y - b1.y) * (b1.x - b2.x)) / den
    requires q == Point(a1.x + t * (a2.x - a1.x), a1.y + t * (a2.y - a1.y))
    ensures OnLine(q, a1, a2) && OnLine(q, b1, b2)
  {
    var da, db := Minus(a2, a1), Minus(b2, b1);
    var num := Cross(db, Minus(a1, b1));
    assert t == num / den;
    assert Minus(q, a1) == Scale(t, da);
    assert Minus(q, b1) == Point(a1.x - b1.x + t * da.x, a1.y - b1.y + t * da.y);
    assert Cross(db, Minus(q, b1)) == num - t * den;
    assert t * den == num;
  }

  /** Two lines that are not parallel meet in one point only: any point on
      both lines is the one returned. */
  lemma IntersectionIsUnique(a1: Point, a2: Point, b1: Point, b2: Point, prior: Point, q: Point)
    requires GetIntersectionOfTwoLineSegments(a1, a2, b1, b2, prior).status == 0
    requires OnLine(q, a1, a2) && OnLine(q, b1, b2)
    ensures q == GetIntersectionOfTwoLineSegments(a1, a2, b1, b2, prior).at
  {
    var at := GetIntersectionOfTwoLineSegments(a1, a2, b1, b2, prior).at;
    var da, db := Minus(a2, a1), Minus(b2, b1);
    CrossOfDifference(da, q, at, a1);
    CrossOfDifference(db, q, at, b1);
    NoCommonDirection(da, db, Minus(q, at));
  }

  lemma CrossOfDifference(d: Point, q: Point, at: Point, o: Point)
    requires Cross(d, Minus(q, o)) == 0.0 && Cross(d, Minus(at, o)) == 0.0
    ensures Cross(d, Minus(q, at)) == 0.0
  {
    assert Cross(d, Minus(q, at)) == Cross(d, Minus(q, o)) - Cross(d, Minus(at, o));
  }

  /** A vector parallel to two non-parallel vectors is zero. */
  lemma NoCommonDirection(u: Point, v: Point, w: Point)
    requires Cross(u, v) != 0.0
    requires Cross(u, w) == 0.0 && Cross(v, w) == 0.0
    ensures w == Point(0.0, 0.0)
  {
    assert v.x * Cross(u, w) - u.x * Cross(v, w) == -Cross(u, v) * w.x;
    assert v.y * Cross(u, w) - u.y * Cross(v, w) == -Cross(u, v) * w.y;
    CancelFactor(w.x, 0.0, Cross(u, v));
    CancelFactor(w.y, 0.0, Cross(u, v));
  }

  /** `IsPointWithinSectorBetweenTwoLines`: whether `p` lies strictly
      between two lines, to the right of the first and the left of the
      second or the other way round. Inside, `sNorm` is the share of the
      distance to the first line in the sum of both distances, negated in
      the second arrangement; outside, it is minus the distance to the
      first line when that one is nearer, else the distance to the second.
      The cross product of the two-dimensional vector type is taken as
      `a.x * b.y - a.y * b.x`. */
  function IsPointWithinSectorBetweenTwoLines(lib: MathLib, p: Point, l0p0: Point, l0p1: Point, l1p0: Point, l1p1: Point): (r: Span)
    ensures r.inside <==> ((RightOf(p, l0p0, l0p1) && LeftOf(p, l1p0, l1p1))
                           || (LeftOf(p, l0p0, l0p1) && RightOf(p, l1p0, l1p1)))
    ensures lib.Valid() && r.inside ==> -1.0 <= r.sNorm <= 1.0
    ensures lib.Valid() && r.inside && RightOf(p, l0p0, l0p1) ==> r.sNorm >= 0.0
    ensures lib.Valid() && r.inside && LeftOf(p, l0p0, l0p1) ==> r.sNorm <= 0.0
    ensures lib.Valid() && !r.inside ==>
              Abs(r.sNorm) == Min(DistanceFromPointToLine2D(lib, p, l0p0, l0p1).dist,
                                  DistanceFromPointToLine2D(lib, p, l1p0, l1p1).dist)
    ensures lib.Valid() && !r.inside ==>
              (r.sNorm < 0.0 ==> DistanceFromPointToLine2D(lib, p, l0p0, l0p1).dist
                                 < DistanceFromPointToLine2D(lib, p, l1p0, l1p1).dist)
    ensures var dist0 := DistanceFromPointToLine2D(lib, p, l0p0, l0p1).dist;
            var dist1 := DistanceFromPointToLine2D(lib, p, l1p0, l1p1).dist;
            && (r.inside && RightOf(p, l0p0, l0p1) ==> r.sNorm == Share(dist0, dist1))
            && (r.inside && LeftOf(p, l0p0, l0p1) ==> r.sNorm == -Share(dist0, dist1))
            && (!r.inside && dist0 < dist1 ==> r.sNorm == -dist0)
            && (!r.inside && dist0 >= dist1 ==> r.sNorm == dist1)
  {
    var d0 := Cross(Minus(p, l0p0), Minus(l0p1, l0p0));
    var d1 := Cross(Minus(p, l1p0), Minus(l1p1, l1p0));
    CrossSwap(Minus(p, l0p0), Minus(l0p1, l0p0));
    CrossSwap(Minus(p, l1p0), Minus(l1p1, l1p0));
    var dist0 := DistanceFromPointToLine2D(lib, p, l0p0, l0p1).dist;
    var dist1 := DistanceFromPointToLine2D(lib, p, l1p0, l1p1).dist;
    var share := Share(dist0, dist1);
    ShareIsUnit(lib, dist0, dist1, share);
    if d0 > 0.0 && d1 < 0.0 then
      Span(true, share)
    else if d0 < 0.0 && d1 > 0.0 then
      Span(true, -share)
    else if dist0 < dist1 then
      Span(false, -dist0)
    else
      Span(false, dist1)
  }

  /** The share of `dist0` in the sum of both distances, the sum kept
      from falling below `SMALL_NUMBER`. */
  function Share(dist0: real, dist1: real): real {
    dist0 / Max(SMALL_NUMBER, dist0 + dist1)
  }

  /** Taking the two lines in the other order keeps the verdict, and
      inside, once the two distances add up to at least `SMALL_NUMBER`,
      the two shares make up the whole: |sNorm| + |sNorm'| = 1. */
  lemma SectorSwapLines(lib: MathLib, p: Point, l0p0: Point, l0p1: Point, l1p0: Point, l1p1: Point)
    ensures var r := IsPointWithinSectorBetweenTwoLines(lib, p, l0p0, l0p1, l1p0, l1p1);
            var r' := IsPointWithinSectorBetweenTwoLines(lib, p, l1p0, l1p1, l0p0, l0p1);
            var dist0 := DistanceFromPointToLine2D(lib, p, l0p0, l0p1).dist;
            var dist1 := DistanceFromPointToLine2D(lib, p, l1p0, l1p1).dist;
            r'.inside == r.inside
            && (lib.Valid() && r.inside && dist0 + dist1 >= SMALL_NUMBER ==> Abs(r.sNorm) + Abs(r'.sNorm) == 1.0)
  {
    var dist0 := DistanceFromPointToLine2D(lib, p, l0p0, l0p1).dist;
    var dist1 := DistanceFromPointToLine2D(lib, p, l1p0, l1p1).dist;
    SharesAddUp(dist0, dist1);
    ShareIsUnit(lib, dist0, dist1, Share(dist0, dist1));
    ShareIsUnit(lib, dist1, dist0, Share(dist1, dist0));
  }

  lemma SharesAddUp(dist0: real, dist1: real)
    ensures dist0 + dist1 >= SMALL_NUMBER ==> Share(dist0, dist1) + Share(dist1, dist0) == 1.0
  {
    if dist0 + dist1 >= SMALL_NUMBER {
      var l := dist0 + dist1;
      assert Share(dist0, dist1) == dist0 / l && Share(dist1, dist0) == dist1 / l;
      SumOfQuotients(dist0, dist1, l);
      assert l / l == 1.0;
    }
  }

  lemma ShareIsUnit(lib: MathLib, dist0: real, dist1: real, share: real)
    requires share == dist0 / Max(SMALL_NUMBER, dist0 + dist1)
    ensures lib.Valid() && dist0 >= 0.0 && dist1 >= 0.0 ==> 0.0 <= share <= 1.0
  {
    if dist0 >= 0.0 && dist1 >= 0.0 {
      UnitQuotient(dist0, Max(SMALL_NUMBER, dist0 + dist1));
    }
  }

  /** Worked case: the diagonals of a square cross at its centre. */
  lemma DiagonalsCrossExample(prior: Point)
    ensures GetIntersectionOfTwoLineSegments(Point(0.0, 0.0), Point(10.0, 10.0),
                                             Point(0.0, 10.0), Point(10.0, 0.0), prior)
            == Intersection(0, Point(5.0, 5.0))
  {
  }

  /** Worked case: two horizontal lines do not cross, and the output point
      keeps its value. */
  lemma ParallelExample(prior: Point)
    ensures GetIntersectionOfTwoLineSegments(Point(0.0, 0.0), Point(10.0, 0.0),
                                             Point(0.0, 1.0), Point(10.0, 1.0), prior)
            == Intersection(-1, prior)
  {
  }
}
