/** The null finder: the reduction step picks candidate cells, the analysis
    step looks for a zero of the trilinear interpolant through each face of
    each candidate cell, the face results of a cell are averaged into one
    null, and nulls closer than a grid spacing are dropped. */
module NullPoints {
  import opened Geometry
  import opened Grid
  import opened Sequences
  import opened Reduction
  import opened Trilinear
  import opened FaceSeeds
  import opened Newton
  import opened CloseNulls

  /** The Newton correction inside one cell: the correction oracle with the
      cell's trilinear coefficients fixed. */
  function CellCorrection(corr: (TriCoefs, Vec3) -> Vec3, coefs: TriCoefs): Vec3 -> Vec3
  {
    p => corr(coefs, p)
  }

  /** The normalised point a face contributes: its seed refined by Newton
      iterations, provided the refined point is still inside the unit cube. */
  function FaceNull(coefs: TriCoefs, face: Face, roots: Quadratic -> Roots,
                    corr: (TriCoefs, Vec3) -> Vec3): Option<Vec3>
  {
    match FaceSeed(coefs, face, roots(FaceQuadratic(coefs, face)))
    case None => None
    case Some(seed) =>
      var xyz := Refine(seed, CellCorrection(corr, coefs), IterMax);
      if InUnitCube(xyz) then Some(xyz) else None
  }

  /** The lowest corner of a cell in physical coordinates. */
  function CellOrigin(g: Coordinates, c: Cell): Vec3
    requires c.i < |g.xs| && c.j < |g.ys| && c.k < |g.zs|
  {
    Vec3(g.xs[c.i], g.ys[c.j], g.zs[c.k])
  }

  function Spacing(g: Coordinates): Vec3
  {
    Vec3(g.dx, g.dy, g.dz)
  }

  /** `x` lies in the physical box `[x[i], x[i] + dx] x [y[j], y[j] + dy] x
      [z[k], z[k] + dz]` of cell `c`. */
  predicate InCell(g: Coordinates, c: Cell, x: Vec3)
  {
    && c.i < |g.xs| && c.j < |g.ys| && c.k < |g.zs|
    && InClosedBox(x, CellOrigin(g, c), Add(CellOrigin(g, c), Spacing(g)))
  }

  /** A normalised cell coordinate `t` mapped onto an axis with origin `o`
      and spacing `d`. */
  function Place(t: real, d: real, o: real): real
  {
    t * d + o
  }

  /** A point of the unit cube mapped into the cell: `xyz * d + x[i]` per
      axis. */
  function ToPhysical(g: Coordinates, c: Cell, p: Vec3): Vec3
    requires c.i < |g.xs| && c.j < |g.ys| && c.k < |g.zs|
  {
    Vec3(Place(p.x, g.dx, g.xs[c.i]), Place(p.y, g.dy, g.ys[c.j]), Place(p.z, g.dz, g.zs[c.k]))
  }

  /** The physical points contributed by the first `n` faces, in face order. */
  function FacePoints(g: Coordinates, c: Cell, coefs: TriCoefs, roots: Quadratic -> Roots,
                      corr: (TriCoefs, Vec3) -> Vec3, n: nat): seq<Vec3>
    requires c.i < |g.xs| && c.j < |g.ys| && c.k < |g.zs|
    requires n <= |Faces|
  {
    if n == 0 then []
    else FacePoints(g, c, coefs, roots, corr, n - 1)
         + match FaceNull(coefs, Faces[n - 1], roots, corr)
           case None => []
           case Some(p) => [ToPhysical(g, c, p)]
  }

  function CellPoints(g: Coordinates, f: VectorField, c: Cell, roots: Quadratic -> Roots,
                      corr: (TriCoefs, Vec3) -> Vec3): seq<Vec3>
    requires Valid(f) && Matches(g, f) && InReduced(f, c)
  {
    FacePoints(g, c, Coefficients(CellCorners(f, c)), roots, corr, |Faces|)
  }

  /** The null of a cell: the mean of its face points, if there are any. */
  function CellNull(g: Coordinates, f: VectorField, c: Cell, roots: Quadratic -> Roots,
                    corr: (TriCoefs, Vec3) -> Vec3): Option<Vec3>
    requires Valid(f) && Matches(g, f) && InReduced(f, c)
  {
    var ps := CellPoints(g, f, c, roots, corr);
    if ps == [] then None else Some(Mean(ps))
  }

  /** The null of every cell of `cs`, in order. */
  function CellNulls(g: Coordinates, f: VectorField, cs: seq<Cell>,
                     roots: Quadratic -> Roots, corr: (TriCoefs, Vec3) -> Vec3): (rs: seq<Option<Vec3>>)
    requires Valid(f) && Matches(g, f)
    requires forall c :: c in cs ==> InReduced(f, c)
    ensures |rs| == |cs|
  {
    seq(|cs|, t requires 0 <= t < |cs| => CellNull(g, f, cs[t], roots, corr))
  }

  /** The list an optional null contributes: itself, or nothing. */
  function Present(r: Option<Vec3>): seq<Vec3>
  {
    match r
    case None => []
    case Some(p) => [p]
  }

  /** The nulls that were found, in order (`self.nulls.append` for every
      cell with a null). */
  function Somes(rs: seq<Option<Vec3>>): seq<Vec3>
  {
    if rs == [] then [] else Somes(rs[..|rs| - 1]) + Present(rs[|rs| - 1])
  }

  lemma SomesSnoc(rs: seq<Option<Vec3>>, n: nat)
    requires n < |rs|
    ensures Somes(rs[..n + 1]) == Somes(rs[..n]) + Present(rs[n])
  {
    assert rs[..n + 1][..n] == rs[..n];
  }

  /** Every collected null comes from one of the results, and there are no
      more nulls than results. */
  lemma {:induction false} SomesFrom(rs: seq<Option<Vec3>>)
    ensures |Somes(rs)| <= |rs|
    ensures forall x :: x in Somes(rs) ==> exists t :: 0 <= t < |rs| && rs[t] == Some(x)
  {
    if rs != [] {
      var init := rs[..|rs| - 1];
      SomesFrom(init);
      forall x | x in Somes(rs) ensures exists t :: 0 <= t < |rs| && rs[t] == Some(x) {
        if x in Somes(init) {
          var t :| 0 <= t < |init| && init[t] == Some(x);
          assert rs[t] == Some(x);
        } else {
          assert rs[|rs| - 1] == Some(x);
        }
      }
    }
  }

  /** All nulls found in the candidate cells, before close ones are dropped. */
  function AllRawNulls(g: Coordinates, f: VectorField, roots: Quadratic -> Roots,
                       corr: (TriCoefs, Vec3) -> Vec3): seq<Vec3>
    requires Valid(f) && Matches(g, f)
  {
    CandidateCellsExact(f);
    Somes(CellNulls(g, f, CandidateCells(f), roots, corr))
  }

  /** The null points reported for a field. */
  function FoundNulls(g: Coordinates, f: VectorField, roots: Quadratic -> Roots,
                      corr: (TriCoefs, Vec3) -> Vec3): seq<Vec3>
    requires Valid(f) && Matches(g, f)
  {
    Dedup(AllRawNulls(g, f, roots, corr), g)
  }

  /** The null points of a field: `nulls` holds what the last search found. */
  class NullPoint {
    var nulls: seq<Vec3>

    constructor ()
      ensures nulls == []
    {
      nulls := [];
    }

    /** `find_nullpoints`: reduction, per-face analysis, per-cell averaging
        and dropping of close nulls. The root finder and the Newton correction
        are parameters. */
    method FindNullpoints(g: Coordinates, f: VectorField, roots: Quadratic -> Roots,
                          corr: (TriCoefs, Vec3) -> Vec3)
      requires Valid(f) && Matches(g, f)
      modifies this
      ensures nulls == FoundNulls(g, f, roots, corr)
    {
      CandidateCellsExact(f);
      var cells := CandidateCells(f);
      ghost var rs := CellNulls(g, f, cells, roots, corr);
      nulls := [];
      for n := 0 to |cells|
        invariant nulls == Somes(rs[..n])
      {
        assert cells[n] in cells;
        var nullCell := AnalyseCell(g, f, cells[n], roots, corr);
        SomesSnoc(rs, n);
        if nullCell != [] {
          nulls := nulls + [Mean(nullCell)];
        }
      }
      assert rs[..|cells|] == rs;
      nulls := DiscardClose(nulls, g);
    }
  }

  /** The analysis step for one cell: the physical points its six faces
      yield, in face order. */
  method AnalyseCell(g: Coordinates, f: VectorField, c: Cell, roots: Quadratic -> Roots,
                     corr: (TriCoefs, Vec3) -> Vec3) returns (nullCell: seq<Vec3>)
    requires Valid(f) && Matches(g, f) && InReduced(f, c)
    ensures nullCell == CellPoints(g, f, c, roots, corr)
  {
    var coefs := Coefficients(CellCorners(f, c));
    nullCell := [];
    for t := 0 to |Faces|
      invariant nullCell == FacePoints(g, c, coefs, roots, corr, t)
    {
      var p := AnalyseFace(coefs, Faces[t], roots, corr);
      if p.Some? {
        nullCell := nullCell + [ToPhysical(g, c, p.value)];
      }
    }
  }

  /** One face block: pick the seed, refine it, keep it if it stays in the
      unit cube. */
  method AnalyseFace(coefs: TriCoefs, face: Face, roots: Quadratic -> Roots,
                     corr: (TriCoefs, Vec3) -> Vec3) returns (p: Option<Vec3>)
    ensures p == FaceNull(coefs, face, roots, corr)
  {
    p := None;
    var seed := FaceSeed(coefs, face, roots(FaceQuadratic(coefs, face)));
    if seed.Some? {
      var xyz := NewtonRaphson(seed.value, CellCorrection(corr, coefs));
      if InUnitCube(xyz) {
        p := Some(xyz);
      }
    }
  }

  lemma ScaledInInterval(t: real, d: real, o: real)
    requires 0.0 <= t <= 1.0 && d >= 0.0
    ensures o <= Place(t, d, o) <= o + d
  {
    assert t * d <= 1.0 * d;
  }

  /** A point of the unit cube maps into the cell's physical box. */
  lemma ToPhysicalInCell(g: Coordinates, c: Cell, p: Vec3)
    requires c.i < |g.xs| && c.j < |g.ys| && c.k < |g.zs|
    requires g.dx >= 0.0 && g.dy >= 0.0 && g.dz >= 0.0
    requires InUnitCube(p)
    ensures InClosedBox(ToPhysical(g, c, p), CellOrigin(g, c), Add(CellOrigin(g, c), Spacing(g)))
  {
    ScaledInInterval(p.x, g.dx, g.xs[c.i]);
    ScaledInInterval(p.y, g.dy, g.ys[c.j]);
    ScaledInInterval(p.z, g.dz, g.zs[c.k]);
  }

  lemma {:induction false} FacePointsInCell(g: Coordinates, c: Cell, coefs: TriCoefs,
                                            roots: Quadratic -> Roots,
                                            corr: (TriCoefs, Vec3) -> Vec3, n: nat)
    requires c.i < |g.xs| && c.j < |g.ys| && c.k < |g.zs| && n <= |Faces|
    requires g.dx >= 0.0 && g.dy >= 0.0 && g.dz >= 0.0
    ensures AllInClosedBox(FacePoints(g, c, coefs, roots, corr, n),
                           CellOrigin(g, c), Add(CellOrigin(g, c), Spacing(g)))
    ensures |FacePoints(g, c, coefs, roots, corr, n)| <= n
  {
    if n > 0 {
      FacePointsInCell(g, c, coefs, roots, corr, n - 1);
      match FaceNull(coefs, Faces[n - 1], roots, corr)
      case None =>
      case Some(p) => ToPhysicalInCell(g, c, p);
    }
  }

  /** The null of a cell, when there is one, lies in the cell's physical box
      `[x[i], x[i] + dx] x [y[j], y[j] + dy] x [z[k], z[k] + dz]`. */
  lemma CellNullInCell(g: Coordinates, f: VectorField, c: Cell, roots: Quadratic -> Roots,
                       corr: (TriCoefs, Vec3) -> Vec3)
    requires Valid(f) && Matches(g, f) && InReduced(f, c)
    requires g.dx >= 0.0 && g.dy >= 0.0 && g.dz >= 0.0
    requires CellNull(g, f, c, roots, corr).Some?
    ensures InClosedBox(CellNull(g, f, c, roots, corr).value,
                        CellOrigin(g, c), Add(CellOrigin(g, c), Spacing(g)))
  {
    var ps := CellPoints(g, f, c, roots, corr);
    FacePointsInCell(g, c, Coefficients(CellCorners(f, c)), roots, corr, |Faces|);
    MeanInBox(ps, CellOrigin(g, c), Add(CellOrigin(g, c), Spacing(g)));
  }

  lemma {:induction false} FacePointsSome(g: Coordinates, c: Cell, coefs: TriCoefs,
                                          roots: Quadratic -> Roots,
                                          corr: (TriCoefs, Vec3) -> Vec3, n: nat)
    requires c.i < |g.xs| && c.j < |g.ys| && c.k < |g.zs| && n <= |Faces|
    ensures FacePoints(g, c, coefs, roots, corr, n) != [] <==>
            exists t :: 0 <= t < n && FaceNull(coefs, Faces[t], roots, corr).Some?
  {
    if n > 0 {
      FacePointsSome(g, c, coefs, roots, corr, n - 1);
    }
  }

  /** A cell has a null exactly when at least one of its six faces yields a
      seed whose refined point stays inside the unit cube. */
  lemma CellNullIffFacePoint(g: Coordinates, f: VectorField, c: Cell,
                             roots: Quadratic -> Roots, corr: (TriCoefs, Vec3) -> Vec3)
    requires Valid(f) && Matches(g, f) && InReduced(f, c)
    ensures CellNull(g, f, c, roots, corr).Some? <==>
            exists face :: face in Faces &&
              FaceNull(Coefficients(CellCorners(f, c)), face, roots, corr).Some?
  {
    var coefs := Coefficients(CellCorners(f, c));
    FacePointsSome(g, c, coefs, roots, corr, |Faces|);
    if exists face :: face in Faces && FaceNull(coefs, face, roots, corr).Some? {
      var face :| face in Faces && FaceNull(coefs, face, roots, corr).Some?;
      var t :| 0 <= t < |Faces| && Faces[t] == face;
    }
  }

  /** A face point is the refinement of that face's seed. */
  lemma FaceNullIsRefinedSeed(coefs: TriCoefs, face: Face, roots: Quadratic -> Roots,
                              corr: (TriCoefs, Vec3) -> Vec3)
    requires FaceNull(coefs, face, roots, corr).Some?
    ensures FaceSeed(coefs, face, roots(FaceQuadratic(coefs, face))).Some?
    ensures InUnitCube(FaceNull(coefs, face, roots, corr).value)
    ensures exists k :: 1 <= k <= IterMax &&
              FaceNull(coefs, face, roots, corr).value
              == Iterate(FaceSeed(coefs, face, roots(FaceQuadratic(coefs, face))).value,
                         CellCorrection(corr, coefs), k)
  {
    var seed := FaceSeed(coefs, face, roots(FaceQuadratic(coefs, face))).value;
    var k := RefineStopsAt(seed, CellCorrection(corr, coefs), IterMax);
  }

  /** A face point found where the correction vanishes at the seed is the
      seed itself, a common zero of the face's two free field components. */
  lemma FixedSeedIsFaceZero(coefs: TriCoefs, face: Face, roots: Quadratic -> Roots,
                            corr: (TriCoefs, Vec3) -> Vec3)
    requires RootsOf(FaceQuadratic(coefs, face), roots(FaceQuadratic(coefs, face)))
    requires FaceNull(coefs, face, roots, corr).Some?
    requires corr(coefs, FaceSeed(coefs, face, roots(FaceQuadratic(coefs, face))).value)
             == Vec3(0.0, 0.0, 0.0)
    ensures Comp(FaceNull(coefs, face, roots, corr).value, face.fixed) == Level(face)
    ensures Comp(Interpolate(coefs, FaceNull(coefs, face, roots, corr).value), FreeComponents(face).0) == 0.0
    ensures Comp(Interpolate(coefs, FaceNull(coefs, face, roots, corr).value), FreeComponents(face).1) == 0.0
  {
    var rs := roots(FaceQuadratic(coefs, face));
    var seed := FaceSeed(coefs, face, rs).value;
    ZeroCorrectionKeepsSeed(seed, CellCorrection(corr, coefs), IterMax);
    SeedOnFace(coefs, face, rs);
    SeedIsFaceZero(coefs, face, rs);
  }

  /** Every reported null lies in the physical box of some candidate cell,
      and there are no more nulls than candidate cells. */
  lemma FoundNullsInCandidateCells(g: Coordinates, f: VectorField, roots: Quadratic -> Roots,
                                   corr: (TriCoefs, Vec3) -> Vec3)
    requires Valid(f) && Matches(g, f)
    requires g.dx >= 0.0 && g.dy >= 0.0 && g.dz >= 0.0
    ensures |FoundNulls(g, f, roots, corr)| <= |CandidateCells(f)|
    ensures forall x :: x in FoundNulls(g, f, roots, corr) ==>
              exists c :: c in CandidateCells(f) && InCell(g, c, x)
  {
    CandidateCellsExact(f);
    var cs := CandidateCells(f);
    var rs := CellNulls(g, f, cs, roots, corr);
    SomesFrom(rs);
    DedupIsSubseq(AllRawNulls(g, f, roots, corr), g);
    forall x | x in FoundNulls(g, f, roots, corr)
      ensures exists c :: c in cs && InCell(g, c, x)
    {
      var t :| 0 <= t < |rs| && rs[t] == Some(x);
      assert cs[t] in cs;
      CellNullInCell(g, f, cs[t], roots, corr);
    }
  }

  /** A field with no candidate cells has no nulls. */
  lemma NoCandidatesNoNulls(g: Coordinates, f: VectorField, roots: Quadratic -> Roots,
                            corr: (TriCoefs, Vec3) -> Vec3)
    requires Valid(f) && Matches(g, f)
    requires CandidateCells(f) == []
    ensures FoundNulls(g, f, roots, corr) == []
  {
  }
}
