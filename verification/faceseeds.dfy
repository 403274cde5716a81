/** The choice of at most one starting point per cube face: the roots of the
    face quadratic are tested against the face, and the last acceptable one
    is used to seed the Newton refinement. */
module FaceSeeds {
  import opened Geometry
  import opened Trilinear

  /** The real roots of a face quadratic as `np.roots` reports them: none
      (the polynomial is constant), one (the leading coefficient is zero) or
      two. */
  datatype Roots = NoRoot | OneRoot(r: real) | TwoRoots(r0: real, r1: real)

  /** The two root slots the face test reads, `roots_x[0]` and `roots_x[1]`:
      with no root both are the sentinel -1, and a single root fills both. */
  function Slots(roots: Roots): (real, real)
  {
    match roots
    case NoRoot => (-1.0, -1.0)
    case OneRoot(r) => (r, r)
    case TwoRoots(r0, r1) => (r0, r1)
  }

  predicate InUnit(t: real)
  {
    0.0 <= t <= 1.0
  }

  /** The second face coordinate of the root `u` when both face coordinates
      lie in [0, 1], and None when the root is rejected. */
  function Accepted(b: BiCoefs, p: Axis, u: real): (w: Option<real>)
    ensures w.Some? ==> InUnit(u) && InUnit(w.value) && SecondCoord(b, p, u) == w
  {
    if !InUnit(u) then None
    else match SecondCoord(b, p, u)
      case None => None
      case Some(w) => if InUnit(w) then Some(w) else None
  }

  /** The seed a face contributes: the point of the face given by root slot 1
      when it is accepted, otherwise by root slot 0 when that is accepted,
      otherwise none. */
  function FaceSeed(c: TriCoefs, face: Face, roots: Roots): Option<Vec3>
  {
    var b, p := FaceCoefs(c, face), FreeComponents(face).0;
    var (r0, r1) := Slots(roots);
    match Accepted(b, p, r1)
    case Some(w1) => Some(Embed(face, r1, w1))
    case None =>
      match Accepted(b, p, r0)
      case Some(w0) => Some(Embed(face, r0, w0))
      case None => None
  }

  predicate InUnitCube(p: Vec3)
  {
    InUnit(p.x) && InUnit(p.y) && InUnit(p.z)
  }

  /** A seed lies on its face of the unit cube. */
  lemma SeedOnFace(c: TriCoefs, face: Face, roots: Roots)
    requires FaceSeed(c, face, roots).Some?
    ensures InUnitCube(FaceSeed(c, face, roots).value)
    ensures Comp(FaceSeed(c, face, roots).value, face.fixed) == Level(face)
  {
  }

  /** When both root slots pass the face test, root slot 1 is the one used. */
  lemma SecondRootWins(c: TriCoefs, face: Face, r0: real, r1: real)
    requires Accepted(FaceCoefs(c, face), FreeComponents(face).0, r0).Some?
    requires Accepted(FaceCoefs(c, face), FreeComponents(face).0, r1).Some?
    ensures FaceSeed(c, face, TwoRoots(r0, r1))
         == Some(Embed(face, r1, Accepted(FaceCoefs(c, face), FreeComponents(face).0, r1).value))
  {
  }

  /** The sentinel used when there is no root is always rejected. */
  lemma NoRootNoSeed(c: TriCoefs, face: Face)
    ensures FaceSeed(c, face, NoRoot) == None
  {
  }

  /** A single root is duplicated into both slots: the face behaves as if the
      root were reported twice, and seeds exactly when that root passes. */
  lemma SingleRootDuplicated(c: TriCoefs, face: Face, r: real)
    ensures FaceSeed(c, face, OneRoot(r)) == FaceSeed(c, face, TwoRoots(r, r))
    ensures FaceSeed(c, face, OneRoot(r)).Some?
        <==> Accepted(FaceCoefs(c, face), FreeComponents(face).0, r).Some?
  {
  }

  /** Every real root `np.roots` reports is a root of the quadratic. */
  predicate RootsOf(q: Quadratic, roots: Roots)
  {
    match roots
    case NoRoot => true
    case OneRoot(r) => Eval(q, r) == 0.0
    case TwoRoots(r0, r1) => Eval(q, r0) == 0.0 && Eval(q, r1) == 0.0
  }

  /** When the reported roots are roots of the face quadratic, a face seed is
      a zero of both free components of the trilinear interpolant. */
  lemma SeedIsFaceZero(c: TriCoefs, face: Face, roots: Roots)
    requires RootsOf(FaceQuadratic(c, face), roots)
    requires FaceSeed(c, face, roots).Some?
    ensures Comp(Interpolate(c, FaceSeed(c, face, roots).value), FreeComponents(face).0) == 0.0
    ensures Comp(Interpolate(c, FaceSeed(c, face, roots).value), FreeComponents(face).1) == 0.0
  {
    var b := FaceCoefs(c, face);
    var (p, q) := FreeComponents(face);
    var (r0, r1) := Slots(roots);
    var u := if Accepted(b, p, r1).Some? then r1 else r0;
    assert Accepted(b, p, u).Some?;
    var w := Accepted(b, p, u).value;
    assert FaceSeed(c, face, roots).value == Embed(face, u, w);
    assert Eval(Resultant(b, p, q), u) == 0.0;
    RootGivesFaceZero(b, p, q, u);
    FaceRestriction(c, face, u, w);
  }
}
