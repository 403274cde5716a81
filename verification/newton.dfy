/** The guarded Newton-Raphson refinement of a face seed. The correction
    applied at each step (the interpolated field times the inverse of its
    finite-difference Jacobian, or zero when that matrix is singular) is a
    parameter; the iteration bound and the stopping test are modelled. */
module Newton {
  import opened Geometry

  /** `iterMax`: at most this many updates. */
  const IterMax: nat := 10

  /** `tol`: an update component smaller than this counts as converged. */
  const Tol: real := 0.00001

  /** `any(abs(diff) < tol) or any(abs(diff) > 1)`: the iteration stops once
      any component of the update is tiny (converged) or larger than one
      cell (diverging). */
  predicate Stops(d: Vec3)
  {
    || Abs(d.x) < Tol || Abs(d.y) < Tol || Abs(d.z) < Tol
    || Abs(d.x) > 1.0 || Abs(d.y) > 1.0 || Abs(d.z) > 1.0
  }

  /** `k` unguarded updates `xyz := xyz - corr(xyz)`. */
  function Iterate(xyz: Vec3, corr: Vec3 -> Vec3, k: nat): Vec3
    decreases k
  {
    if k == 0 then xyz else Iterate(Sub(xyz, corr(xyz)), corr, k - 1)
  }

  /** The refined point after at most `n` guarded updates. */
  function Refine(xyz: Vec3, corr: Vec3 -> Vec3, n: nat): Vec3
    decreases n
  {
    if n == 0 then xyz
    else
      var d := corr(xyz);
      if Stops(d) then Sub(xyz, d) else Refine(Sub(xyz, d), corr, n - 1)
  }

  /** The refined point is the result of some number `k` of updates, between
      one and `n`: none of the first `k - 1` updates met the stopping test,
      and the `k`-th did unless the bound `n` was reached. */
  lemma {:induction false} RefineStopsAt(xyz: Vec3, corr: Vec3 -> Vec3, n: nat) returns (k: nat)
    requires n >= 1
    ensures 1 <= k <= n
    ensures Refine(xyz, corr, n) == Iterate(xyz, corr, k)
    ensures forall i :: 0 <= i < k - 1 ==> !Stops(corr(Iterate(xyz, corr, i)))
    ensures k < n ==> Stops(corr(Iterate(xyz, corr, k - 1)))
    decreases n
  {
    var d := corr(xyz);
    var next := Sub(xyz, d);
    if Stops(d) || n == 1 {
      k := 1;
      assert Iterate(xyz, corr, 1) == Iterate(next, corr, 0);
    } else {
      var k' := RefineStopsAt(next, corr, n - 1);
      k := k' + 1;
      assert Iterate(xyz, corr, k) == Iterate(next, corr, k');
      forall i | 0 <= i < k - 1
        ensures !Stops(corr(Iterate(xyz, corr, i)))
      {
        if i > 0 {
          assert Iterate(xyz, corr, i) == Iterate(next, corr, i - 1);
        }
      }
      assert Iterate(xyz, corr, k - 1) == Iterate(next, corr, k' - 1);
    }
  }

  /** A zero correction (the singular-Jacobian case) stops at once and
      leaves the seed where it is. */
  lemma ZeroCorrectionKeepsSeed(xyz: Vec3, corr: Vec3 -> Vec3, n: nat)
    requires n >= 1 && corr(xyz) == Vec3(0.0, 0.0, 0.0)
    ensures Refine(xyz, corr, n) == xyz
  {
  }

  /** `__newton_raphson`: the bounded update loop with its early exit. */
  method NewtonRaphson(seed: Vec3, corr: Vec3 -> Vec3) returns (xyz: Vec3)
    ensures xyz == Refine(seed, corr, IterMax)
  {
    xyz := seed;
    for i := 0 to IterMax
      invariant Refine(xyz, corr, IterMax - i) == Refine(seed, corr, IterMax)
    {
      var diff := corr(xyz);
      xyz := Sub(xyz, diff);
      if Stops(diff) {
        return;
      }
    }
  }
}
