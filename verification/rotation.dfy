/** The rotation that spreads the seed ring of a separatrix around a null:
    a fan eigenvector is turned about the fan normal, as a row vector times
    a matrix (`vector * rot_matrix`). `RodriguesAsWritten` is the matrix
    `__rotate_vector` builds and `Rodrigues` the rotation matrix it is meant
    to build; the seeding uses the latter, and `AsWrittenDeviation` states
    the difference. The cosine and sine of the angle are inputs. */
module Rotation {
  import opened Geometry

  function Dot(a: Vec3, b: Vec3): real
  {
    a.x * b.x + a.y * b.y + a.z * b.z
  }

  /** `np.cross`. */
  function Cross(a: Vec3, b: Vec3): Vec3
  {
    Vec3(a.y * b.z - a.z * b.y, a.z * b.x - a.x * b.z, a.x * b.y - a.y * b.x)
  }

  function NormSq(a: Vec3): real
  {
    Dot(a, a)
  }

  /** The cosine and the sine of an angle. */
  datatype Trig = Trig(cos: real, sin: real)

  /** A 3 by 3 matrix by rows. */
  datatype Mat3 = Mat3(r0: Vec3, r1: Vec3, r2: Vec3)

  /** The row vector `p` times the matrix `m`. */
  function RowTimes(p: Vec3, m: Mat3): Vec3
  {
    Vec3(p.x * m.r0.x + p.y * m.r1.x + p.z * m.r2.x,
         p.x * m.r0.y + p.y * m.r1.y + p.z * m.r2.y,
         p.x * m.r0.z + p.y * m.r1.z + p.z * m.r2.z)
  }

  /** The matrix `__rotate_vector` builds: entries (0, 2) and (1, 0) close
      their parenthesis after the sine term, so the sine term is multiplied
      by `u w` and `u v` as well. */
  function RodriguesAsWritten(n: Vec3, t: Trig): Mat3
  {
    var u, v, w, c, s := n.x, n.y, n.z, t.cos, t.sin;
    Mat3(Vec3(u * u + (1.0 - u * u) * c, u * v * (1.0 - c) - w * s, u * w * (1.0 - c + v * s)),
         Vec3(u * v * (1.0 - c + w * s), v * v + (1.0 - v * v) * c, v * w * (1.0 - c) - u * s),
         Vec3(u * w * (1.0 - c) - v * s, v * w * (1.0 - c) + u * s, w * w + (1.0 - w * w) * c))
  }

  /** `__rotate_vector` with the matrix as written. */
  function RotateAsWritten(n: Vec3, p: Vec3, t: Trig): Vec3
  {
    RowTimes(p, RodriguesAsWritten(n, t))
  }

  /** The rotation `__rotate_vector` is meant to compute: the row vector
      times the Rodrigues matrix. The seeding of the separatrix rings uses
      this corrected rotation, not `RotateAsWritten`. */
  function Rotate(n: Vec3, p: Vec3, t: Trig): Vec3
  {
    RowTimes(p, Rodrigues(n, t))
  }

  /** What the misplaced parentheses add to the matrix: the entries (0, 2)
      and (1, 0) as written exceed the Rodrigues entries by `v s (u w - 1)`
      and `w s (u v - 1)`. */
  function Misplaced(n: Vec3, t: Trig): Mat3
  {
    Mat3(Vec3(0.0, 0.0, n.y * t.sin * (n.x * n.z - 1.0)),
         Vec3(n.z * t.sin * (n.x * n.y - 1.0), 0.0, 0.0),
         Vec3(0.0, 0.0, 0.0))
  }

  /** What the misplaced parentheses add to the rotated vector `p`. */
  function Deviation(n: Vec3, p: Vec3, t: Trig): Vec3
  {
    RowTimes(p, Misplaced(n, t))
  }

  function MatAdd(a: Mat3, b: Mat3): Mat3
  {
    Mat3(Add(a.r0, b.r0), Add(a.r1, b.r1), Add(a.r2, b.r2))
  }

  function MatScale(a: Mat3, k: real): Mat3
  {
    Mat3(Scale(a.r0, k), Scale(a.r1, k), Scale(a.r2, k))
  }

  function Identity(): Mat3
  {
    Mat3(Vec3(1.0, 0.0, 0.0), Vec3(0.0, 1.0, 0.0), Vec3(0.0, 0.0, 1.0))
  }

  /** The cross-product matrix `[n]x`, with `[n]x q == n x q`. */
  function Skew(n: Vec3): Mat3
  {
    Mat3(Vec3(0.0, -n.z, n.y), Vec3(n.z, 0.0, -n.x), Vec3(-n.y, n.x, 0.0))
  }

  /** The outer product `n n^T`. */
  function Outer(n: Vec3): Mat3
  {
    Mat3(Vec3(n.x * n.x, n.x * n.y, n.x * n.z),
         Vec3(n.x * n.y, n.y * n.y, n.y * n.z),
         Vec3(n.x * n.z, n.y * n.z, n.z * n.z))
  }

  /** The Rodrigues matrix of the rotation by the angle `t` about the unit
      axis `n`: `cos t I + sin t [n]x + (1 - cos t) n n^T`. Entry by entry it
      is the matrix `__rotate_vector` means to build. */
  function Rodrigues(n: Vec3, t: Trig): Mat3
  {
    MatAdd(MatAdd(MatScale(Identity(), t.cos), MatScale(Skew(n), t.sin)), MatScale(Outer(n), 1.0 - t.cos))
  }

  lemma RowTimesAdd(p: Vec3, a: Mat3, b: Mat3)
    ensures RowTimes(p, MatAdd(a, b)) == Add(RowTimes(p, a), RowTimes(p, b))
  {
  }

  lemma RowTimesScale(p: Vec3, a: Mat3, k: real)
    ensures RowTimes(p, MatScale(a, k)) == Scale(RowTimes(p, a), k)
  {
    ScaledColumns(p, a, k);
    ScaledProduct(p, a, k);
  }

  lemma ScaledColumns(p: Vec3, a: Mat3, k: real)
    ensures RowTimes(p, MatScale(a, k)).x == p.x * (a.r0.x * k) + p.y * (a.r1.x * k) + p.z * (a.r2.x * k)
    ensures RowTimes(p, MatScale(a, k)).y == p.x * (a.r0.y * k) + p.y * (a.r1.y * k) + p.z * (a.r2.y * k)
    ensures RowTimes(p, MatScale(a, k)).z == p.x * (a.r0.z * k) + p.y * (a.r1.z * k) + p.z * (a.r2.z * k)
  {
  }

  lemma ScaledProduct(p: Vec3, a: Mat3, k: real)
    ensures Scale(RowTimes(p, a), k).x == (p.x * a.r0.x + p.y * a.r1.x + p.z * a.r2.x) * k
    ensures Scale(RowTimes(p, a), k).y == (p.x * a.r0.y + p.y * a.r1.y + p.z * a.r2.y) * k
    ensures Scale(RowTimes(p, a), k).z == (p.x * a.r0.z + p.y * a.r1.z + p.z * a.r2.z) * k
  {
  }

  lemma RowTimesIdentity(p: Vec3)
    ensures RowTimes(p, Identity()) == p
  {
  }

  lemma RowTimesSkew(p: Vec3, n: Vec3)
    ensures RowTimes(p, Skew(n)) == Cross(p, n)
  {
  }

  lemma RowTimesOuter(p: Vec3, n: Vec3)
    ensures RowTimes(p, Outer(n)) == Scale(n, Dot(p, n))
  {
    OuterColumns(p, n);
    ScaledAxis(p, n);
  }

  lemma OuterColumns(p: Vec3, n: Vec3)
    ensures RowTimes(p, Outer(n)).x == p.x * (n.x * n.x) + p.y * (n.x * n.y) + p.z * (n.x * n.z)
    ensures RowTimes(p, Outer(n)).y == p.x * (n.x * n.y) + p.y * (n.y * n.y) + p.z * (n.y * n.z)
    ensures RowTimes(p, Outer(n)).z == p.x * (n.x * n.z) + p.y * (n.y * n.z) + p.z * (n.z * n.z)
  {
  }

  lemma ScaledAxis(p: Vec3, n: Vec3)
    ensures Scale(n, Dot(p, n)).x == n.x * (p.x * n.x + p.y * n.y + p.z * n.z)
    ensures Scale(n, Dot(p, n)).y == n.y * (p.x * n.x + p.y * n.y + p.z * n.z)
    ensures Scale(n, Dot(p, n)).z == n.z * (p.x * n.x + p.y * n.y + p.z * n.z)
  {
  }

  /** The rotation of `p` by the opposite angle about `n`:
      `cos t p + sin t (p x n) + (1 - cos t)(p . n) n`. */
  function Turned(n: Vec3, p: Vec3, t: Trig): Vec3
  {
    Add(Add(Scale(p, t.cos), Scale(Cross(p, n), t.sin)), Scale(Scale(n, Dot(p, n)), 1.0 - t.cos))
  }

  /** The row vector times the Rodrigues matrix is the rotation of `p` by
      the opposite angle. */
  lemma RotateClosedForm(n: Vec3, p: Vec3, t: Trig)
    ensures Rotate(n, p, t) == Turned(n, p, t)
  {
    var c, s := t.cos, t.sin;
    var i, k, o := MatScale(Identity(), c), MatScale(Skew(n), s), MatScale(Outer(n), 1.0 - c);
    RowTimesAdd(p, MatAdd(i, k), o);
    RowTimesAdd(p, i, k);
    RowTimesScale(p, Identity(), c);
    RowTimesScale(p, Skew(n), s);
    RowTimesScale(p, Outer(n), 1.0 - c);
    RowTimesIdentity(p);
    RowTimesSkew(p, n);
    RowTimesOuter(p, n);
  }

  /** `|a x b|^2 = |a|^2 |b|^2 - (a . b)^2`. */
  lemma Lagrange(a: Vec3, b: Vec3)
    ensures NormSq(Cross(a, b)) == NormSq(a) * NormSq(b) - Dot(a, b) * Dot(a, b)
  {
  }

  predicate Perpendicular(a: Vec3, b: Vec3)
  {
    Dot(a, b) == 0.0
  }

  predicate Unit(a: Vec3)
  {
    NormSq(a) == 1.0
  }

  /** The cosine and sine of one angle. */
  predicate OnUnitCircle(t: Trig)
  {
    t.cos * t.cos + t.sin * t.sin == 1.0
  }

  lemma PerpendicularIsSymmetric(a: Vec3, b: Vec3)
    ensures Perpendicular(a, b) == Perpendicular(b, a)
  {
  }

  lemma CrossIsPerpendicular(a: Vec3, b: Vec3)
    ensures Perpendicular(a, Cross(a, b)) && Perpendicular(b, Cross(a, b))
  {
  }

  lemma NormSqOfCombination(a: Vec3, b: Vec3, t: Trig)
    ensures NormSq(Add(Scale(a, t.cos), Scale(b, t.sin)))
         == t.cos * t.cos * NormSq(a) + t.sin * t.sin * NormSq(b) + 2.0 * t.cos * t.sin * Dot(a, b)
  {
  }

  lemma DotOfCombination(n: Vec3, a: Vec3, b: Vec3, t: Trig)
    ensures Dot(n, Add(Scale(a, t.cos), Scale(b, t.sin))) == t.cos * Dot(n, a) + t.sin * Dot(n, b)
  {
  }

  /** For `p` perpendicular to the axis the closed form loses its last
      term. */
  lemma TurnedPerpendicular(n: Vec3, p: Vec3, t: Trig)
    requires Perpendicular(p, n)
    ensures Turned(n, p, t) == Add(Scale(p, t.cos), Scale(Cross(p, n), t.sin))
  {
    assert Scale(n, Dot(p, n)) == Vec3(0.0, 0.0, 0.0);
  }

  /** Against a unit vector perpendicular to it, the cross product keeps
      the length of `p`. */
  lemma CrossKeepsLength(p: Vec3, n: Vec3)
    requires Unit(n) && Perpendicular(p, n)
    ensures NormSq(Cross(p, n)) == NormSq(p)
  {
    Lagrange(p, n);
  }

  /** `cos t p + sin t q` for perpendicular `p` and `q` of the same length
      has that length again. */
  lemma PlaneLength(p: Vec3, q: Vec3, t: Trig)
    requires Perpendicular(p, q) && NormSq(q) == NormSq(p) && OnUnitCircle(t)
    ensures NormSq(Add(Scale(p, t.cos), Scale(q, t.sin))) == NormSq(p)
  {
    var c, s, l := t.cos, t.sin, NormSq(p);
    NormSqOfCombination(p, q, t);
    calc {
      NormSq(Add(Scale(p, c), Scale(q, s)));
      c * c * l + s * s * l + 2.0 * c * s * 0.0;
      (c * c + s * s) * l;
    }
  }

  lemma PerpendicularScaled(n: Vec3, a: Vec3, k: real)
    requires Perpendicular(n, a)
    ensures Perpendicular(n, Scale(a, k))
  {
    assert Dot(n, Scale(a, k)) == k * Dot(n, a);
  }

  lemma SameLengthScaled(a: Vec3, b: Vec3, k: real)
    requires NormSq(a) == NormSq(b)
    ensures NormSq(Scale(a, k)) == NormSq(Scale(b, k))
  {
    assert NormSq(Scale(a, k)) == k * k * NormSq(a);
    assert NormSq(Scale(b, k)) == k * k * NormSq(b);
  }

  /** About a unit axis, a vector perpendicular to the axis turns within the
      plane perpendicular to the axis. */
  lemma RotateStaysInPlane(n: Vec3, p: Vec3, t: Trig)
    requires Perpendicular(n, p)
    ensures Perpendicular(n, Rotate(n, p, t))
  {
    PerpendicularIsSymmetric(n, p);
    RotateClosedForm(n, p, t);
    TurnedPerpendicular(n, p, t);
    DotOfCombination(n, p, Cross(p, n), t);
    CrossIsPerpendicular(p, n);
  }

  /** About a unit axis, turning a vector perpendicular to the axis keeps
      its length. */
  lemma RotateKeepsLength(n: Vec3, p: Vec3, t: Trig)
    requires Unit(n) && Perpendicular(n, p) && OnUnitCircle(t)
    ensures NormSq(Rotate(n, p, t)) == NormSq(p)
  {
    PerpendicularIsSymmetric(n, p);
    RotateClosedForm(n, p, t);
    TurnedPerpendicular(n, p, t);
    CrossIsPerpendicular(p, n);
    CrossKeepsLength(p, n);
    PlaneLength(p, Cross(p, n), t);
  }

  /** The matrix as written is the Rodrigues matrix plus `Misplaced`. */
  lemma AsWrittenMatrix(n: Vec3, t: Trig)
    ensures RodriguesAsWritten(n, t) == MatAdd(Rodrigues(n, t), Misplaced(n, t))
  {
    AsWrittenEntry00(n, t);
    AsWrittenEntry01(n, t);
    AsWrittenEntry02(n, t);
    AsWrittenEntry10(n, t);
    AsWrittenEntry11(n, t);
    AsWrittenEntry12(n, t);
    AsWrittenEntry20(n, t);
    AsWrittenEntry21(n, t);
    AsWrittenEntry22(n, t);
  }

  /* Entry by entry: the entry as written is the Rodrigues entry plus the
     `Misplaced` entry. */

  lemma AsWrittenEntry00(n: Vec3, t: Trig)
    ensures RodriguesAsWritten(n, t).r0.x == Rodrigues(n, t).r0.x + Misplaced(n, t).r0.x
  {
    var k, c, s := n.x * n.x, t.cos, t.sin;
    assert RodriguesAsWritten(n, t).r0.x == k + (1.0 - k) * c;
    assert Rodrigues(n, t).r0.x == (1.0 * c + 0.0 * s) + k * (1.0 - c);
    assert Misplaced(n, t).r0.x == 0.0;
    Diagonal(k, c, s);
  }

  lemma AsWrittenEntry01(n: Vec3, t: Trig)
    ensures RodriguesAsWritten(n, t).r0.y == Rodrigues(n, t).r0.y + Misplaced(n, t).r0.y
  {
    var k, c, a, s := n.x * n.y, t.cos, n.z, t.sin;
    assert RodriguesAsWritten(n, t).r0.y == k * (1.0 - c) - a * s;
    assert Rodrigues(n, t).r0.y == (0.0 * c + -a * s) + k * (1.0 - c);
    assert Misplaced(n, t).r0.y == 0.0;
    Minus(k, c, a, s);
  }

  lemma AsWrittenEntry02(n: Vec3, t: Trig)
    ensures RodriguesAsWritten(n, t).r0.z == Rodrigues(n, t).r0.z + Misplaced(n, t).r0.z
  {
    var k, c, a, s := n.x * n.z, t.cos, n.y, t.sin;
    assert RodriguesAsWritten(n, t).r0.z == k * (1.0 - c + a * s);
    assert Rodrigues(n, t).r0.z == (0.0 * c + a * s) + k * (1.0 - c);
    assert Misplaced(n, t).r0.z == a * s * (k - 1.0);
    Regroup(k, c, a, s);
  }

  lemma AsWrittenEntry10(n: Vec3, t: Trig)
    ensures RodriguesAsWritten(n, t).r1.x == Rodrigues(n, t).r1.x + Misplaced(n, t).r1.x
  {
    var k, c, a, s := n.x * n.y, t.cos, n.z, t.sin;
    assert RodriguesAsWritten(n, t).r1.x == k * (1.0 - c + a * s);
    assert Rodrigues(n, t).r1.x == (0.0 * c + a * s) + k * (1.0 - c);
    assert Misplaced(n, t).r1.x == a * s * (k - 1.0);
    Regroup(k, c, a, s);
  }

  lemma AsWrittenEntry11(n: Vec3, t: Trig)
    ensures RodriguesAsWritten(n, t).r1.y == Rodrigues(n, t).r1.y + Misplaced(n, t).r1.y
  {
    var k, c, s := n.y * n.y, t.cos, t.sin;
    assert RodriguesAsWritten(n, t).r1.y == k + (1.0 - k) * c;
    assert Rodrigues(n, t).r1.y == (1.0 * c + 0.0 * s) + k * (1.0 - c);
    assert Misplaced(n, t).r1.y == 0.0;
    Diagonal(k, c, s);
  }

  lemma AsWrittenEntry12(n: Vec3, t: Trig)
    ensures RodriguesAsWritten(n, t).r1.z == Rodrigues(n, t).r1.z + Misplaced(n, t).r1.z
  {
    var k, c, a, s := n.y * n.z, t.cos, n.x, t.sin;
    assert RodriguesAsWritten(n, t).r1.z == k * (1.0 - c) - a * s;
    assert Rodrigues(n, t).r1.z == (0.0 * c + -a * s) + k * (1.0 - c);
    assert Misplaced(n, t).r1.z == 0.0;
    Minus(k, c, a, s);
  }

  lemma AsWrittenEntry20(n: Vec3, t: Trig)
    ensures RodriguesAsWritten(n, t).r2.x == Rodrigues(n, t).r2.x + Misplaced(n, t).r2.x
  {
    var k, c, a, s := n.x * n.z, t.cos, n.y, t.sin;
    assert RodriguesAsWritten(n, t).r2.x == k * (1.0 - c) - a * s;
    assert Rodrigues(n, t).r2.x == (0.0 * c + -a * s) + k * (1.0 - c);
    assert Misplaced(n, t).r2.x == 0.0;
    Minus(k, c, a, s);
  }

  lemma AsWrittenEntry21(n: Vec3, t: Trig)
    ensures RodriguesAsWritten(n, t).r2.y == Rodrigues(n, t).r2.y + Misplaced(n, t).r2.y
  {
    var k, c, a, s := n.y * n.z, t.cos, n.x, t.sin;
    assert RodriguesAsWritten(n, t).r2.y == k * (1.0 - c) + a * s;
    assert Rodrigues(n, t).r2.y == (0.0 * c + a * s) + k * (1.0 - c);
    assert Misplaced(n, t).r2.y == 0.0;
    Plus(k, c, a, s);
  }

  lemma AsWrittenEntry22(n: Vec3, t: Trig)
    ensures RodriguesAsWritten(n, t).r2.z == Rodrigues(n, t).r2.z + Misplaced(n, t).r2.z
  {
    var k, c, s := n.z * n.z, t.cos, t.sin;
    assert RodriguesAsWritten(n, t).r2.z == k + (1.0 - k) * c;
    assert Rodrigues(n, t).r2.z == (1.0 * c + 0.0 * s) + k * (1.0 - c);
    assert Misplaced(n, t).r2.z == 0.0;
    Diagonal(k, c, s);
  }

  /* The entries of the two matrices, each in the shape the definitions of
     `RodriguesAsWritten`, `Rodrigues` and `Misplaced` give it. */

  /** A diagonal entry `a^2 + (1 - a^2) c`. */
  lemma Diagonal(a2: real, c: real, s: real)
    ensures a2 + (1.0 - a2) * c == ((1.0 * c + 0.0 * s) + a2 * (1.0 - c)) + 0.0
  {
  }

  /** An entry `k (1 - c) - a s`. */
  lemma Minus(k: real, c: real, a: real, s: real)
    ensures k * (1.0 - c) - a * s == ((0.0 * c + -a * s) + k * (1.0 - c)) + 0.0
  {
  }

  /** An entry `k (1 - c) + a s`. */
  lemma Plus(k: real, c: real, a: real, s: real)
    ensures k * (1.0 - c) + a * s == ((0.0 * c + a * s) + k * (1.0 - c)) + 0.0
  {
  }

  /** An entry written `k (1 - c + a s)`: the intended `k (1 - c) + a s`
      plus the excess `a s (k - 1)`. */
  lemma Regroup(k: real, c: real, a: real, s: real)
    ensures k * (1.0 - c + a * s) == ((0.0 * c + a * s) + k * (1.0 - c)) + a * s * (k - 1.0)
  {
  }

  /** The matrix as written turns `p` into the Rodrigues rotation of `p`
      plus `Deviation`, and the deviation is exactly
      `(p.y w s (u v - 1), 0, p.x v s (u w - 1))`: the two agree for every
      angle whose sine is 0, the first seed angle among them. */
  lemma AsWrittenDeviation(n: Vec3, p: Vec3, t: Trig)
    ensures RotateAsWritten(n, p, t) == Add(Rotate(n, p, t), Deviation(n, p, t))
    ensures Deviation(n, p, t)
         == Vec3(p.y * (n.z * t.sin * (n.x * n.y - 1.0)), 0.0, p.x * (n.y * t.sin * (n.x * n.z - 1.0)))
    ensures t.sin == 0.0 ==> RotateAsWritten(n, p, t) == Rotate(n, p, t)
  {
    AsWrittenMatrix(n, t);
    RowTimesAdd(p, Rodrigues(n, t), Misplaced(n, t));
  }

  /** The unit axis, the unit fan vector perpendicular to it and the
      quarter turn of `AsWrittenShrinks`. */
  function Witness(): (Vec3, Vec3, Trig)
  {
    (Vec3(0.6, 0.8, 0.0), Vec3(0.8, -0.6, 0.0), Trig(0.0, 1.0))
  }

  /** The matrix as written does not rotate: about the unit axis
      (0.6, 0.8, 0), a quarter turn takes the unit vector (0.8, -0.6, 0),
      which is perpendicular to the axis, to (0, 0, 0.36), a vector of
      length 0.36. */
  lemma AsWrittenShrinks()
    ensures var (n, p, t) := Witness();
      && Unit(n) && Unit(p) && Perpendicular(n, p) && OnUnitCircle(t)
      && RotateAsWritten(n, p, t) == Vec3(0.0, 0.0, 0.36)
      && NormSq(RotateAsWritten(n, p, t)) < NormSq(p)
  {
    var (n, p, t) := Witness();
    assert RodriguesAsWritten(n, t)
        == Mat3(Vec3(0.36, 0.48, 0.0), Vec3(0.48, 0.64, -0.6), Vec3(-0.8, 0.6, 0.0));
  }

  /** On the same input the Rodrigues matrix keeps the length 1. */
  lemma RodriguesKeepsWitness()
    ensures var (n, p, t) := Witness(); NormSq(Rotate(n, p, t)) == NormSq(p) == 1.0
  {
    var (n, p, t) := Witness();
    RotateKeepsLength(n, p, t);
  }
}
