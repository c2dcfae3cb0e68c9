/** Rotations and the conversions between the global frame and the frame
    of a host (a vehicle, say) at a given position and heading. Angles are
    in radians, counter-clockwise; `sin` and `cos` come from the math
    library passed in. */
module Frames {
  import opened Numeric
  import opened Geometry

  /** `RotateVec2D`: `v` turned counter-clockwise by `angle`. A rotation
      keeps the length of the vector. */
  function RotateVec2D(lib: MathLib, v: Point, angle: real): (r: Point)
    ensures lib.Valid() ==> Norm2(r) == Norm2(v)
  {
    var c, s := lib.cos(angle), lib.sin(angle);
    RotationKeepsLength(v, c, s);
    Point(v.x * c - v.y * s, v.x * s + v.y * c)
  }

  lemma RotationKeepsLength(v: Point, c: real, s: real)
    ensures s * s + c * c == 1.0 ==> Norm2(Point(v.x * c - v.y * s, v.x * s + v.y * c)) == Norm2(v)
  {
    var r := Point(v.x * c - v.y * s, v.x * s + v.y * c);
    assert Norm2(r) == (s * s + c * c) * Norm2(v);
  }

  /** `Global2LocalCoordinates`: the target's offset from the host, turned
      by `angleHost`. Like the source, this turns by `+angleHost`, so the
      round trip with `Local2GlobalCoordinates` passes the negated heading.
      The offset's length is kept. */
  function Global2LocalCoordinates(lib: MathLib, target: Point, host: Point, angleHost: real): (r: Point)
    ensures lib.Valid() ==> Norm2(r) == Norm2(Minus(target, host))
  {
    var rel := Minus(target, host);
    var c, s := lib.cos(angleHost), lib.sin(angleHost);
    RotationKeepsLength(rel, c, s);
    Point(rel.x * c - rel.y * s, rel.x * s + rel.y * c)
  }

  /** `Local2GlobalCoordinates`: a point given in the frame of a host at
      `host` with heading `theta` placed in the global frame. The source
      writes it with `cos(-theta)` and `sin(-theta)`; it comes to the
      rotation by `+theta` followed by the shift to the host. */
  function Local2GlobalCoordinates(lib: MathLib, host: Point, theta: real, local: Point): (r: Point)
    ensures lib.Valid() ==> r == Plus(RotateVec2D(lib, local, theta), host)
  {
    var c, s := lib.cos(-theta), lib.sin(-theta);
    Point(local.x * c + local.y * s + host.x, local.y * c - local.x * s + host.y)
  }

  /** Turning by `angle` and then by `-angle` gives the vector back. */
  lemma RotateBack(lib: MathLib, v: Point, angle: real)
    requires lib.Valid()
    ensures RotateVec2D(lib, RotateVec2D(lib, v, angle), -angle) == v
  {
    RotateUndo(lib, v, angle, -angle);
  }

  lemma RotateUndo(lib: MathLib, v: Point, a: real, b: real)
    requires lib.Valid() && a + b == 0.0
    ensures RotateVec2D(lib, RotateVec2D(lib, v, a), b) == v
  {
    var c, s := lib.cos(a), lib.sin(a);
    assert lib.cos(b) == c && lib.sin(b) == -s;
    assert s * s + c * c == 1.0;
    UndoRotation(v, c, s);
  }

  lemma UndoRotation(v: Point, c: real, s: real)
    requires s * s + c * c == 1.0
    ensures var w := Point(v.x * c - v.y * s, v.x * s + v.y * c);
            Point(w.x * c - w.y * (-s), w.x * (-s) + w.y * c) == v
  {
    var w := Point(v.x * c - v.y * s, v.x * s + v.y * c);
    assert w.x * c + w.y * s == v.x * (c * c + s * s);
    assert w.y * c - w.x * s == v.y * (c * c + s * s);
  }

  /** A turn by zero leaves every vector as it is. */
  lemma RotateByZero(lib: MathLib, v: Point)
    requires lib.Valid()
    ensures RotateVec2D(lib, v, 0.0) == v
  {
    TrigAtZero(lib);
  }

  /** `Global2LocalCoordinates` is the rotation of the offset from the host. */
  lemma Global2LocalIsRotation(lib: MathLib, target: Point, host: Point, angle: real)
    ensures Global2LocalCoordinates(lib, target, host, angle) == RotateVec2D(lib, Minus(target, host), angle)
  {
  }

  /** The round trip between the frames: converting the target into the
      host's frame by turning through `-h`, then placing the result back
      with heading `h`, returns the target. */
  lemma GlobalLocalRoundTrip(lib: MathLib, target: Point, host: Point, h: real)
    requires lib.Valid()
    ensures Local2GlobalCoordinates(lib, host, h, Global2LocalCoordinates(lib, target, host, -h)) == target
  {
    var rel := Minus(target, host);
    Global2LocalIsRotation(lib, target, host, -h);
    RotateUndo(lib, rel, -h, h);
    assert Plus(rel, host) == target;
  }

  /** The other round trip: a point placed in the global frame from the
      host's frame converts back to the same local coordinates. */
  lemma LocalGlobalRoundTrip(lib: MathLib, local: Point, host: Point, h: real)
    requires lib.Valid()
    ensures Global2LocalCoordinates(lib, Local2GlobalCoordinates(lib, host, h, local), host, -h) == local
  {
    var g := Local2GlobalCoordinates(lib, host, h, local);
    var turned := RotateVec2D(lib, local, h);
    assert g == Plus(turned, host);
    assert Minus(g, host) == turned;
    Global2LocalIsRotation(lib, g, host, -h);
    RotateUndo(lib, local, h, -h);
  }
}
