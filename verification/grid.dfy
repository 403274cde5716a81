/** The grid and the vector field sampled on it, as the skeleton finder reads
    them: coordinate sequences with their uniform spacings, and the three
    field components at every grid vertex. */
module Grid {
  import opened Geometry

  /** A vector field sampled on an `nx` by `ny` by `nz` grid; `at[k][j][i]`
      is the field at the vertex with index `i` along x, `j` along y and `k`
      along z (the source array `field[:, k, j, i]`). */
  datatype VectorField = VectorField(nx: nat, ny: nat, nz: nat, at: seq<seq<seq<Vec3>>>)

  /** The nested sequences have the dimensions the field declares. */
  predicate Valid(f: VectorField)
  {
    && |f.at| == f.nz
    && (forall k :: 0 <= k < f.nz ==> |f.at[k]| == f.ny)
    && (forall k, j :: 0 <= k < f.nz && 0 <= j < f.ny ==> |f.at[k][j]| == f.nx)
  }

  function Value(f: VectorField, i: nat, j: nat, k: nat): Vec3
    requires Valid(f) && i < f.nx && j < f.ny && k < f.nz
  {
    f.at[k][j][i]
  }

  /** The coordinates of the grid vertices along each axis and the uniform
      grid spacings (`var.x`, `var.y`, `var.z`, `var.dx`, `var.dy`, `var.dz`). */
  datatype Coordinates = Coordinates(xs: seq<real>, ys: seq<real>, zs: seq<real>,
                                     dx: real, dy: real, dz: real)

  /** One coordinate per grid vertex along every axis. */
  predicate Matches(g: Coordinates, f: VectorField)
  {
    |g.xs| == f.nx && |g.ys| == f.ny && |g.zs| == f.nz
  }

  /** A grid cell, named by the indices of its lowest corner. */
  datatype Cell = Cell(i: nat, j: nat, k: nat)

  /** The sign of a real, as `np.sign`: -1, 0 or 1. */
  function Sign(r: real): (s: int)
    ensures s == -1 || s == 0 || s == 1
    ensures s > 0 <==> r > 0.0
    ensures s < 0 <==> r < 0.0
  {
    if r > 0.0 then 1 else if r < 0.0 then -1 else 0
  }
}
