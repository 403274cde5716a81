/** The reduction step of the null finder: a coarse filter that keeps only
    the grid cells in which every field component changes sign between the
    cell's upper corner and one of its seven other corners, listed in the
    order the analysis visits them. */
module Reduction {
  import opened Geometry
  import opened Grid
  import opened Sequences

  /** The length of `a[1:]` (and of `a[:-1]`) for an axis of length `n`. */
  function Reduce(n: nat): nat
  {
    if n == 0 then 0 else n - 1
  }

  /** The reduced array has one entry per cell: one fewer than the grid
      vertices along every axis. */
  predicate InReduced(f: VectorField, c: Cell)
  {
    c.i < Reduce(f.nx) && c.j < Reduce(f.ny) && c.k < Reduce(f.nz)
  }

  /** `np.sign(a) * np.sign(b) < 0`. */
  predicate SignChange(a: real, b: real)
  {
    Sign(a) * Sign(b) < 0
  }

  /** The seven pairings of the upper corner `(i+1, j+1, k+1)` of a cell with
      its other corners: three edges, three face diagonals and the space
      diagonal, each tested for a strict sign change of component `a`. */
  predicate ComponentFlips(f: VectorField, c: Cell, a: Axis)
    requires Valid(f) && InReduced(f, c)
  {
    var i, j, k := c.i, c.j, c.k;
    var u := Comp(Value(f, i + 1, j + 1, k + 1), a);
    || SignChange(u, Comp(Value(f, i + 1, j + 1, k), a))
    || SignChange(u, Comp(Value(f, i + 1, j, k + 1), a))
    || SignChange(u, Comp(Value(f, i, j + 1, k + 1), a))
    || SignChange(u, Comp(Value(f, i + 1, j, k), a))
    || SignChange(u, Comp(Value(f, i, j, k + 1), a))
    || SignChange(u, Comp(Value(f, i, j + 1, k), a))
    || SignChange(u, Comp(Value(f, i, j, k), a))
  }

  /** A cell survives the reduction when all three components flip in it. */
  predicate IsCandidate(f: VectorField, c: Cell)
    requires Valid(f) && InReduced(f, c)
  {
    ComponentFlips(f, c, X) && ComponentFlips(f, c, Y) && ComponentFlips(f, c, Z)
  }

  /** Row-major order of the reduced array `[k, j, i]`: z slowest, x fastest,
      the order in which `np.where` lists the candidate cells. */
  predicate Before(c: Cell, d: Cell)
  {
    c.k < d.k || (c.k == d.k && (c.j < d.j || (c.j == d.j && c.i < d.i)))
  }

  predicate StrictlyOrdered(cs: seq<Cell>)
  {
    forall s, t :: 0 <= s < t < |cs| ==> Before(cs[s], cs[t])
  }

  /** Candidate cells `(i', j, k)` of one row, for `i' >= i`. */
  function RowCandidates(f: VectorField, j: nat, k: nat, i: nat): seq<Cell>
    requires Valid(f) && j < Reduce(f.ny) && k < Reduce(f.nz)
    decreases Reduce(f.nx) - i
  {
    if i >= Reduce(f.nx) then []
    else (if IsCandidate(f, Cell(i, j, k)) then [Cell(i, j, k)] else [])
         + RowCandidates(f, j, k, i + 1)
  }

  /** Candidate cells of one z-plane, rows `j' >= j`. */
  function PlaneCandidates(f: VectorField, k: nat, j: nat): seq<Cell>
    requires Valid(f) && k < Reduce(f.nz)
    decreases Reduce(f.ny) - j
  {
    if j >= Reduce(f.ny) then []
    else RowCandidates(f, j, k, 0) + PlaneCandidates(f, k, j + 1)
  }

  /** Candidate cells of the z-planes `k' >= k`. */
  function CandidatesFrom(f: VectorField, k: nat): seq<Cell>
    requires Valid(f)
    decreases Reduce(f.nz) - k
  {
    if k >= Reduce(f.nz) then []
    else PlaneCandidates(f, k, 0) + CandidatesFrom(f, k + 1)
  }

  /** The cells the analysis step visits, in visiting order. */
  function CandidateCells(f: VectorField): seq<Cell>
    requires Valid(f)
  {
    CandidatesFrom(f, 0)
  }

  lemma SortedConcat(a: seq<Cell>, b: seq<Cell>)
    requires StrictlyOrdered(a) && StrictlyOrdered(b)
    requires forall s, t :: 0 <= s < |a| && 0 <= t < |b| ==> Before(a[s], b[t])
    ensures StrictlyOrdered(a + b)
  {
    var ab := a + b;
    forall s, t | 0 <= s < t < |ab| ensures Before(ab[s], ab[t]) {
      if t < |a| {
        assert ab[s] == a[s] && ab[t] == a[t];
      } else if s >= |a| {
        assert ab[s] == b[s - |a|] && ab[t] == b[t - |a|];
      } else {
        assert ab[s] == a[s] && ab[t] == b[t - |a|];
      }
    }
  }

  lemma {:induction false} RowCandidatesSpec(f: VectorField, j: nat, k: nat, i: nat)
    requires Valid(f) && j < Reduce(f.ny) && k < Reduce(f.nz)
    ensures StrictlyOrdered(RowCandidates(f, j, k, i))
    ensures forall c :: c in RowCandidates(f, j, k, i) <==>
              c.j == j && c.k == k && i <= c.i < Reduce(f.nx) && IsCandidate(f, c)
    decreases Reduce(f.nx) - i
  {
    if i < Reduce(f.nx) {
      RowCandidatesSpec(f, j, k, i + 1);
      var head := if IsCandidate(f, Cell(i, j, k)) then [Cell(i, j, k)] else [];
      SortedConcat(head, RowCandidates(f, j, k, i + 1));
    }
  }

  lemma {:induction false} PlaneCandidatesSpec(f: VectorField, k: nat, j: nat)
    requires Valid(f) && k < Reduce(f.nz)
    ensures StrictlyOrdered(PlaneCandidates(f, k, j))
    ensures forall c :: c in PlaneCandidates(f, k, j) <==>
              c.k == k && j <= c.j < Reduce(f.ny) && c.i < Reduce(f.nx) && IsCandidate(f, c)
    decreases Reduce(f.ny) - j
  {
    if j < Reduce(f.ny) {
      RowCandidatesSpec(f, j, k, 0);
      PlaneCandidatesSpec(f, k, j + 1);
      var row, rest := RowCandidates(f, j, k, 0), PlaneCandidates(f, k, j + 1);
      forall s, t | 0 <= s < |row| && 0 <= t < |rest| ensures Before(row[s], rest[t]) {
        assert row[s] in row && rest[t] in rest;
      }
      SortedConcat(row, rest);
    }
  }

  lemma {:induction false} CandidatesFromSpec(f: VectorField, k: nat)
    requires Valid(f)
    ensures StrictlyOrdered(CandidatesFrom(f, k))
    ensures forall c :: c in CandidatesFrom(f, k) <==>
              k <= c.k && InReduced(f, c) && IsCandidate(f, c)
    decreases Reduce(f.nz) - k
  {
    if k < Reduce(f.nz) {
      PlaneCandidatesSpec(f, k, 0);
      CandidatesFromSpec(f, k + 1);
      var plane, rest := PlaneCandidates(f, k, 0), CandidatesFrom(f, k + 1);
      forall s, t | 0 <= s < |plane| && 0 <= t < |rest| ensures Before(plane[s], rest[t]) {
        assert plane[s] in plane && rest[t] in rest;
      }
      SortedConcat(plane, rest);
    }
  }

  /** The visited cells are exactly the cells of the reduced array (one fewer
      per axis than the grid vertices) in which all three components flip,
      each once, in row-major order (z, then y, then x). */
  lemma CandidateCellsExact(f: VectorField)
    requires Valid(f)
    ensures StrictlyOrdered(CandidateCells(f))
    ensures forall c :: c in CandidateCells(f) <==> InReduced(f, c) && IsCandidate(f, c)
  {
    CandidatesFromSpec(f, 0);
  }

  /** The sign-product test is the strict sign-change test `a * b < 0`. */
  lemma SignChangeIsNegativeProduct(a: real, b: real)
    ensures SignChange(a, b) <==> a * b < 0.0
  {
    if a > 0.0 && b < 0.0 {
      assert a * b < 0.0;
    } else if a < 0.0 && b > 0.0 {
      assert a * b < 0.0;
    } else if a >= 0.0 && b >= 0.0 {
      assert a * b >= 0.0;
    } else {
      assert a <= 0.0 && b <= 0.0;
      assert a * b >= 0.0;
    }
  }

  /** A component that vanishes at the upper corner never flags its cell, so
      such a cell is never a candidate. */
  lemma ZeroAtUpperCornerNeverFlags(f: VectorField, c: Cell, a: Axis)
    requires Valid(f) && InReduced(f, c)
    requires Comp(Value(f, c.i + 1, c.j + 1, c.k + 1), a) == 0.0
    ensures !ComponentFlips(f, c, a)
    ensures !IsCandidate(f, c)
  {
  }

  /** A constant field has no candidate cells. */
  lemma ConstantFieldHasNoCandidates(f: VectorField, v: Vec3)
    requires Valid(f)
    requires forall k, j, i :: 0 <= k < f.nz && 0 <= j < f.ny && 0 <= i < f.nx ==> f.at[k][j][i] == v
    ensures CandidateCells(f) == []
  {
    CandidateCellsExact(f);
    var cs := CandidateCells(f);
    forall c | InReduced(f, c) ensures !IsCandidate(f, c) {
      assert !ComponentFlips(f, c, X);
    }
    NonEmptyHasMember(cs);
  }
}
