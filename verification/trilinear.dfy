/** Trilinear interpolation inside one grid cell, in coordinates normalised
    to the unit cube, and its restriction to the six faces of the cube, where
    the two field components that do not involve the fixed coordinate form a
    bilinear pair whose common zeros are found from a quadratic. */
module Trilinear {
  import opened Geometry
  import opened Grid

  /** The field at the eight corners of a cell: `vABC` is the corner offset by
      A along x, B along y and C along z from the cell's lowest corner. */
  datatype Corners = Corners(v000: Vec3, v100: Vec3, v010: Vec3, v110: Vec3,
                             v001: Vec3, v101: Vec3, v011: Vec3, v111: Vec3)

  function CellCorners(f: VectorField, c: Cell): Corners
    requires Valid(f) && c.i + 1 < f.nx && c.j + 1 < f.ny && c.k + 1 < f.nz
  {
    var i, j, k := c.i, c.j, c.k;
    Corners(Value(f, i, j, k), Value(f, i + 1, j, k), Value(f, i, j + 1, k), Value(f, i + 1, j + 1, k),
            Value(f, i, j, k + 1), Value(f, i + 1, j, k + 1), Value(f, i, j + 1, k + 1),
            Value(f, i + 1, j + 1, k + 1))
  }

  /** The coefficients `coefTri[0..7]` of the basis 1, x, y, xy, z, xz, yz, xyz. */
  datatype TriCoefs = TriCoefs(c0: Vec3, c1: Vec3, c2: Vec3, c3: Vec3,
                               c4: Vec3, c5: Vec3, c6: Vec3, c7: Vec3)

  /** The finite-difference combinations of the corner values that give the
      trilinear coefficients. */
  function Coefficients(v: Corners): TriCoefs
  {
    TriCoefs(
      v.v000,
      Sub(v.v100, v.v000),
      Sub(v.v010, v.v000),
      Add(Sub(Sub(v.v110, v.v100), v.v010), v.v000),
      Sub(v.v001, v.v000),
      Add(Sub(Sub(v.v101, v.v100), v.v001), v.v000),
      Add(Sub(Sub(v.v011, v.v010), v.v001), v.v000),
      Sub(Add(Add(Add(Sub(Sub(Sub(v.v111, v.v110), v.v101), v.v011), v.v100), v.v010), v.v001), v.v000))
  }

  /** The interpolated field at the normalised point `p`: each component is
      `c0 + c1 x + c2 y + c3 xy + c4 z + c5 xz + c6 yz + c7 xyz`. */
  function Interpolate(c: TriCoefs, p: Vec3): Vec3
  {
    Vec3(TriScalar(c.c0.x, c.c1.x, c.c2.x, c.c3.x, c.c4.x, c.c5.x, c.c6.x, c.c7.x, p.x, p.y, p.z),
         TriScalar(c.c0.y, c.c1.y, c.c2.y, c.c3.y, c.c4.y, c.c5.y, c.c6.y, c.c7.y, p.x, p.y, p.z),
         TriScalar(c.c0.z, c.c1.z, c.c2.z, c.c3.z, c.c4.z, c.c5.z, c.c6.z, c.c7.z, p.x, p.y, p.z))
  }

  /** The values of an interpolant at the eight corners of the unit cube. */
  function CornerValues(c: TriCoefs): Corners
  {
    Corners(Interpolate(c, Vec3(0.0, 0.0, 0.0)), Interpolate(c, Vec3(1.0, 0.0, 0.0)),
            Interpolate(c, Vec3(0.0, 1.0, 0.0)), Interpolate(c, Vec3(1.0, 1.0, 0.0)),
            Interpolate(c, Vec3(0.0, 0.0, 1.0)), Interpolate(c, Vec3(1.0, 0.0, 1.0)),
            Interpolate(c, Vec3(0.0, 1.0, 1.0)), Interpolate(c, Vec3(1.0, 1.0, 1.0)))
  }

  /** The interpolant built from a cell's corners takes the corner values at
      the corners of the unit cube. */
  lemma InterpolatesCorners(v: Corners)
    ensures CornerValues(Coefficients(v)) == v
  {
  }

  /** Conversely, the coefficients are determined by the corner values: the
      construction recovers any trilinear interpolant from its corners. */
  lemma CoefficientsFromCorners(c: TriCoefs)
    ensures Coefficients(CornerValues(c)) == c
  {
  }

  /** A face of the unit cube: the coordinate `fixed` is 0, or 1 when `upper`. */
  datatype Face = Face(fixed: Axis, upper: bool)

  function Level(face: Face): (v: real)
    ensures v == 0.0 || v == 1.0
  {
    if face.upper then 1.0 else 0.0
  }

  /** The faces in the order the cell analysis treats them. */
  const Faces: seq<Face> := [Face(Z, false), Face(Z, true), Face(Y, false),
                             Face(Y, true), Face(X, false), Face(X, true)]

  /** The point of a face with free coordinates `(u, w)`: (x, y) on a z-face,
      (x, z) on a y-face and (y, z) on an x-face. */
  function Embed(face: Face, u: real, w: real): (p: Vec3)
    ensures Comp(p, face.fixed) == Level(face)
  {
    var v := Level(face);
    match face.fixed
    case Z => Vec3(u, w, v)
    case Y => Vec3(u, v, w)
    case X => Vec3(v, u, w)
  }

  /** The field components that do not involve the fixed coordinate: the
      first is the one used to solve for the second face coordinate. */
  function FreeComponents(face: Face): (pq: (Axis, Axis))
    ensures pq.0 != face.fixed && pq.1 != face.fixed && pq.0 != pq.1
  {
    match face.fixed
    case Z => (X, Y)
    case Y => (X, Z)
    case X => (Y, Z)
  }

  /** `coefBi`: the coefficients of the basis 1, u, w, uw on a face. */
  datatype BiCoefs = BiCoefs(b0: Vec3, b1: Vec3, b2: Vec3, b3: Vec3)

  /** The face form `b0 + b1 u + b2 w + b3 uw`, component by component. */
  function Bilinear(b: BiCoefs, u: real, w: real): Vec3
  {
    Vec3(BiScalar(b.b0.x, b.b1.x, b.b2.x, b.b3.x, u, w),
         BiScalar(b.b0.y, b.b1.y, b.b2.y, b.b3.y, u, w),
         BiScalar(b.b0.z, b.b1.z, b.b2.z, b.b3.z, u, w))
  }

  function FaceCoefs(c: TriCoefs, face: Face): BiCoefs
  {
    var v := Level(face);
    match face.fixed
    case Z => BiCoefs(Add(c.c0, Scale(c.c4, v)), Add(c.c1, Scale(c.c5, v)),
                      Add(c.c2, Scale(c.c6, v)), Add(c.c3, Scale(c.c7, v)))
    case Y => BiCoefs(Add(c.c0, Scale(c.c2, v)), Add(c.c1, Scale(c.c3, v)),
                      Add(c.c4, Scale(c.c6, v)), Add(c.c5, Scale(c.c7, v)))
    case X => BiCoefs(Add(c.c0, Scale(c.c1, v)), Add(c.c2, Scale(c.c3, v)),
                      Add(c.c4, Scale(c.c5, v)), Add(c.c6, Scale(c.c7, v)))
  }

  /** One component of the trilinear form, `a0 + a1 x + a2 y + a3 xy + a4 z
      + a5 xz + a6 yz + a7 xyz`. */
  function TriScalar(a0: real, a1: real, a2: real, a3: real, a4: real, a5: real,
                     a6: real, a7: real, x: real, y: real, z: real): real
  {
    a0 + a1 * x + a2 * y + a3 * (x * y) + a4 * z + a5 * (x * z) + a6 * (y * z) + a7 * (x * y * z)
  }

  lemma InterpolateComponent(c: TriCoefs, p: Vec3, a: Axis)
    ensures Comp(Interpolate(c, p), a)
         == TriScalar(Comp(c.c0, a), Comp(c.c1, a), Comp(c.c2, a), Comp(c.c3, a),
                      Comp(c.c4, a), Comp(c.c5, a), Comp(c.c6, a), Comp(c.c7, a), p.x, p.y, p.z)
  {
    match a
    case X =>
    case Y =>
    case Z =>
  }

  lemma FaceComponent(c: TriCoefs, face: Face, u: real, w: real, a: Axis)
    ensures Comp(Bilinear(FaceCoefs(c, face), u, w), a) == Comp(Interpolate(c, Embed(face, u, w)), a)
  {
    BilinearComponent(FaceCoefs(c, face), a, u, w);
    InterpolateComponent(c, Embed(face, u, w), a);
    match face.fixed
    case Z => FaceComponentZ(c, face, u, w, a);
    case Y => FaceComponentY(c, face, u, w, a);
    case X => FaceComponentX(c, face, u, w, a);
  }

  lemma FaceComponentZ(c: TriCoefs, face: Face, u: real, w: real, a: Axis)
    requires face.fixed == Z
    ensures BiScalar(Comp(FaceCoefs(c, face).b0, a), Comp(FaceCoefs(c, face).b1, a),
                     Comp(FaceCoefs(c, face).b2, a), Comp(FaceCoefs(c, face).b3, a), u, w)
         == TriScalar(Comp(c.c0, a), Comp(c.c1, a), Comp(c.c2, a), Comp(c.c3, a),
                      Comp(c.c4, a), Comp(c.c5, a), Comp(c.c6, a), Comp(c.c7, a),
                      Embed(face, u, w).x, Embed(face, u, w).y, Embed(face, u, w).z)
  {
    var b, v := FaceCoefs(c, face), Level(face);
    var a0, a1, a2, a3 := Comp(c.c0, a), Comp(c.c1, a), Comp(c.c2, a), Comp(c.c3, a);
    var a4, a5, a6, a7 := Comp(c.c4, a), Comp(c.c5, a), Comp(c.c6, a), Comp(c.c7, a);
    assert Comp(b.b0, a) == a0 + a4 * v && Comp(b.b1, a) == a1 + a5 * v;
    assert Comp(b.b2, a) == a2 + a6 * v && Comp(b.b3, a) == a3 + a7 * v;
    FixedZ(a0, a1, a2, a3, a4, a5, a6, a7, u, w, v);
  }

  lemma FaceComponentY(c: TriCoefs, face: Face, u: real, w: real, a: Axis)
    requires face.fixed == Y
    ensures BiScalar(Comp(FaceCoefs(c, face).b0, a), Comp(FaceCoefs(c, face).b1, a),
                     Comp(FaceCoefs(c, face).b2, a), Comp(FaceCoefs(c, face).b3, a), u, w)
         == TriScalar(Comp(c.c0, a), Comp(c.c1, a), Comp(c.c2, a), Comp(c.c3, a),
                      Comp(c.c4, a), Comp(c.c5, a), Comp(c.c6, a), Comp(c.c7, a),
                      Embed(face, u, w).x, Embed(face, u, w).y, Embed(face, u, w).z)
  {
    var b, v := FaceCoefs(c, face), Level(face);
    var a0, a1, a2, a3 := Comp(c.c0, a), Comp(c.c1, a), Comp(c.c2, a), Comp(c.c3, a);
    var a4, a5, a6, a7 := Comp(c.c4, a), Comp(c.c5, a), Comp(c.c6, a), Comp(c.c7, a);
    assert Comp(b.b0, a) == a0 + a2 * v && Comp(b.b1, a) == a1 + a3 * v;
    assert Comp(b.b2, a) == a4 + a6 * v && Comp(b.b3, a) == a5 + a7 * v;
    FixedY(a0, a1, a2, a3, a4, a5, a6, a7, u, w, v);
  }

  lemma FaceComponentX(c: TriCoefs, face: Face, u: real, w: real, a: Axis)
    requires face.fixed == X
    ensures BiScalar(Comp(FaceCoefs(c, face).b0, a), Comp(FaceCoefs(c, face).b1, a),
                     Comp(FaceCoefs(c, face).b2, a), Comp(FaceCoefs(c, face).b3, a), u, w)
         == TriScalar(Comp(c.c0, a), Comp(c.c1, a), Comp(c.c2, a), Comp(c.c3, a),
                      Comp(c.c4, a), Comp(c.c5, a), Comp(c.c6, a), Comp(c.c7, a),
                      Embed(face, u, w).x, Embed(face, u, w).y, Embed(face, u, w).z)
  {
    var b, v := FaceCoefs(c, face), Level(face);
    var a0, a1, a2, a3 := Comp(c.c0, a), Comp(c.c1, a), Comp(c.c2, a), Comp(c.c3, a);
    var a4, a5, a6, a7 := Comp(c.c4, a), Comp(c.c5, a), Comp(c.c6, a), Comp(c.c7, a);
    assert Comp(b.b0, a) == a0 + a1 * v && Comp(b.b1, a) == a2 + a3 * v;
    assert Comp(b.b2, a) == a4 + a5 * v && Comp(b.b3, a) == a6 + a7 * v;
    FixedX(a0, a1, a2, a3, a4, a5, a6, a7, u, w, v);
  }

  lemma FixedZ(a0: real, a1: real, a2: real, a3: real, a4: real, a5: real, a6: real, a7: real,
               u: real, w: real, v: real)
    ensures BiScalar(a0 + a4 * v, a1 + a5 * v, a2 + a6 * v, a3 + a7 * v, u, w)
         == TriScalar(a0, a1, a2, a3, a4, a5, a6, a7, u, w, v)
  {
  }

  lemma FixedY(a0: real, a1: real, a2: real, a3: real, a4: real, a5: real, a6: real, a7: real,
               u: real, w: real, v: real)
    ensures BiScalar(a0 + a2 * v, a1 + a3 * v, a4 + a6 * v, a5 + a7 * v, u, w)
         == TriScalar(a0, a1, a2, a3, a4, a5, a6, a7, u, v, w)
  {
  }

  lemma FixedX(a0: real, a1: real, a2: real, a3: real, a4: real, a5: real, a6: real, a7: real,
               u: real, w: real, v: real)
    ensures BiScalar(a0 + a1 * v, a2 + a3 * v, a4 + a5 * v, a6 + a7 * v, u, w)
         == TriScalar(a0, a1, a2, a3, a4, a5, a6, a7, v, u, w)
  {
  }

  /** On every face, the face's bilinear form is the trilinear interpolant
      with the fixed coordinate set to 0 or 1. */
  lemma FaceRestriction(c: TriCoefs, face: Face, u: real, w: real)
    ensures Bilinear(FaceCoefs(c, face), u, w) == Interpolate(c, Embed(face, u, w))
  {
    FaceComponent(c, face, u, w, X);
    FaceComponent(c, face, u, w, Y);
    FaceComponent(c, face, u, w, Z);
  }

  /** `polynomial`: the coefficients of `a2 u^2 + a1 u + a0`. */
  datatype Quadratic = Quadratic(a2: real, a1: real, a0: real)

  function Eval(q: Quadratic, u: real): real
  {
    q.a2 * u * u + q.a1 * u + q.a0
  }

  /** One component `a0 + a1 u + a2 w + a3 uw` of a bilinear form. */
  function BiScalar(a0: real, a1: real, a2: real, a3: real, u: real, w: real): real
  {
    a0 + a1 * u + a2 * w + a3 * (u * w)
  }

  /** The quadratic in `u` obtained by eliminating `w` from the components
      with coefficients `p0..p3` (the one solved for `w`) and `q0..q3`. */
  function ResultantOf(p0: real, p1: real, p2: real, p3: real,
                       q0: real, q1: real, q2: real, q3: real): Quadratic
  {
    Quadratic(p1 * q3 - q1 * p3,
              p0 * q3 + p1 * q2 - q0 * p3 - p2 * q1,
              p0 * q2 - q0 * p2)
  }

  /** `w = -(p0 + p1 u) / (p2 + p3 u)`, or None when the denominator is zero
      (numpy then yields an infinity or NaN, which the range test that
      follows never accepts). */
  function SecondCoordOf(p0: real, p1: real, p2: real, p3: real, u: real): Option<real>
  {
    var den := p2 + p3 * u;
    if den == 0.0 then None else Some(-(p0 + p1 * u) / den)
  }

  /** The face quadratic of the free components `p` and `q` of a face. */
  function Resultant(b: BiCoefs, p: Axis, q: Axis): Quadratic
  {
    ResultantOf(Comp(b.b0, p), Comp(b.b1, p), Comp(b.b2, p), Comp(b.b3, p),
                Comp(b.b0, q), Comp(b.b1, q), Comp(b.b2, q), Comp(b.b3, q))
  }

  function FaceQuadratic(c: TriCoefs, face: Face): Quadratic
  {
    var (p, q) := FreeComponents(face);
    Resultant(FaceCoefs(c, face), p, q)
  }

  /** `roots_y` (and its analogues) for a root `u` of the face quadratic. */
  function SecondCoord(b: BiCoefs, p: Axis, u: real): Option<real>
  {
    SecondCoordOf(Comp(b.b0, p), Comp(b.b1, p), Comp(b.b2, p), Comp(b.b3, p), u)
  }

  lemma BilinearComponent(b: BiCoefs, a: Axis, u: real, w: real)
    ensures Comp(Bilinear(b, u, w), a)
         == BiScalar(Comp(b.b0, a), Comp(b.b1, a), Comp(b.b2, a), Comp(b.b3, a), u, w)
  {
    match a
    case X =>
    case Y =>
    case Z =>
  }

  /** The quadratic is the determinant `P S - R Q` of the two components
      written as `P + Q w` and `R + S w`. */
  lemma DeterminantExpansion(p0: real, p1: real, p2: real, p3: real,
                             q0: real, q1: real, q2: real, q3: real, u: real)
    ensures Eval(ResultantOf(p0, p1, p2, p3, q0, q1, q2, q3), u)
         == (p0 + p1 * u) * (q2 + q3 * u) - (q0 + q1 * u) * (p2 + p3 * u)
  {
  }

  lemma BiScalarLinear(a0: real, a1: real, a2: real, a3: real, u: real, w: real)
    ensures BiScalar(a0, a1, a2, a3, u, w) == (a0 + a1 * u) + (a2 + a3 * u) * w
  {
  }

  lemma SolveLinearPair(P: real, Q: real, R: real, S: real, w: real)
    requires Q != 0.0 && w == -P / Q
    requires P * S - R * Q == 0.0
    ensures P + Q * w == 0.0
    ensures R + S * w == 0.0
  {
    assert Q * w == -P;
    assert Q * (R + S * w) == Q * R + S * (Q * w);
    assert Q * (R + S * w) == 0.0;
  }

  lemma DependentPair(P: real, Q: real, R: real, S: real, w: real)
    requires P + Q * w == 0.0 && R + S * w == 0.0
    ensures P * S - R * Q == 0.0
  {
    assert P == -(Q * w) && R == -(S * w);
    assert P * S == -(Q * w) * S;
    assert R * Q == -(S * w) * Q;
  }

  lemma {:induction false} ScalarRoot(p0: real, p1: real, p2: real, p3: real,
                   q0: real, q1: real, q2: real, q3: real, u: real)
    requires Eval(ResultantOf(p0, p1, p2, p3, q0, q1, q2, q3), u) == 0.0
    requires SecondCoordOf(p0, p1, p2, p3, u).Some?
    ensures BiScalar(p0, p1, p2, p3, u, SecondCoordOf(p0, p1, p2, p3, u).value) == 0.0
    ensures BiScalar(q0, q1, q2, q3, u, SecondCoordOf(p0, p1, p2, p3, u).value) == 0.0
  {
    var w := SecondCoordOf(p0, p1, p2, p3, u).value;
    DeterminantExpansion(p0, p1, p2, p3, q0, q1, q2, q3, u);
    SolveLinearPair(p0 + p1 * u, p2 + p3 * u, q0 + q1 * u, q2 + q3 * u, w);
    BiScalarLinear(p0, p1, p2, p3, u, w);
    BiScalarLinear(q0, q1, q2, q3, u, w);
  }

  lemma {:induction false} ScalarZeroIsRoot(p0: real, p1: real, p2: real, p3: real,
                         q0: real, q1: real, q2: real, q3: real, u: real, w: real)
    requires BiScalar(p0, p1, p2, p3, u, w) == 0.0
    requires BiScalar(q0, q1, q2, q3, u, w) == 0.0
    ensures Eval(ResultantOf(p0, p1, p2, p3, q0, q1, q2, q3), u) == 0.0
  {
    BiScalarLinear(p0, p1, p2, p3, u, w);
    BiScalarLinear(q0, q1, q2, q3, u, w);
    DependentPair(p0 + p1 * u, p2 + p3 * u, q0 + q1 * u, q2 + q3 * u, w);
    DeterminantExpansion(p0, p1, p2, p3, q0, q1, q2, q3, u);
  }

  /** Every root `u` of the face quadratic whose second coordinate is defined
      gives a common zero of both free components on the face. */
  lemma RootGivesFaceZero(b: BiCoefs, p: Axis, q: Axis, u: real)
    requires Eval(Resultant(b, p, q), u) == 0.0
    requires SecondCoord(b, p, u).Some?
    ensures Comp(Bilinear(b, u, SecondCoord(b, p, u).value), p) == 0.0
    ensures Comp(Bilinear(b, u, SecondCoord(b, p, u).value), q) == 0.0
  {
    var w := SecondCoord(b, p, u).value;
    ScalarRoot(Comp(b.b0, p), Comp(b.b1, p), Comp(b.b2, p), Comp(b.b3, p),
               Comp(b.b0, q), Comp(b.b1, q), Comp(b.b2, q), Comp(b.b3, q), u);
    BilinearComponent(b, p, u, w);
    BilinearComponent(b, q, u, w);
  }

  /** Conversely, the first coordinate of every common zero of the two free
      components on a face is a root of the face quadratic. */
  lemma FaceZeroIsRoot(b: BiCoefs, p: Axis, q: Axis, u: real, w: real)
    requires Comp(Bilinear(b, u, w), p) == 0.0
    requires Comp(Bilinear(b, u, w), q) == 0.0
    ensures Eval(Resultant(b, p, q), u) == 0.0
  {
    BilinearComponent(b, p, u, w);
    BilinearComponent(b, q, u, w);
    ScalarZeroIsRoot(Comp(b.b0, p), Comp(b.b1, p), Comp(b.b2, p), Comp(b.b3, p),
                     Comp(b.b0, q), Comp(b.b1, q), Comp(b.b2, q), Comp(b.b3, q), u, w);
  }
}
