# Magnetic skeleton of a gridded vector field

This project models the core of `field_skeleton.py` from the pencil-code
Python tools. That code finds the topological skeleton of a 3-D vector field
sampled on a regular grid, following the trilinear method of Haynes and
Parnell. The model covers its two classes.

`NullPoint.find_nullpoints` finds the null points:

- A reduction step keeps the cells where every field component changes
  sign between the upper corner and some other corner.
- Each candidate cell is interpolated trilinearly.
- On each of the six faces, it solves for a zero of two field components
  using a resultant polynomial and its roots.
- It refines that zero with a bounded Newton loop.
- It keeps the refined points that lie in the cell, converted to physical
  coordinates, and averages them into one null per cell.
- A null closer than one grid spacing on every axis to an earlier null is
  dropped, whether that earlier null was kept or dropped itself.

`Separatrix.find_separatrices` traces the separatrix surface of every
x-type null:

- The field is linearised by central differences.
- The null is classified by the sign of the determinant.
- The fan plane is spanned by the eigenvectors whose eigenvalues have the
  trace sign.
- A ring of seeds is spread around the null by turning a fan vector about
  the fan normal. The model uses the Rodrigues rotation that
  `__rotate_vector` is meant to build; the matrix it does build differs
  (see "## Findings"), and `Tracing.SeedRingDeviation` states by how much.
- The ring is then advanced pass after pass:
  - it is advected in place;
  - it is densified with midpoints;
  - it is clipped to the open domain box;
  - it is stored, closed into a ring, and linked to the previous ring by
    nearest-neighbour edges.

Modules (one per file):

- `Geometry`: vectors, boxes, squared distances, means.
- `Sequences`: subsequences, filtering.
- `Grid`: the sampled field and its coordinates.
- `Reduction`: the candidate-cell filter.
- `Trilinear`: the interpolant, its faces and the resultant.
- `FaceSeeds`: root acceptance per face.
- `Newton`: the bounded refinement loop.
- `NullPoints`: the per-cell analysis and the `NullPoint` class.
- `CloseNulls`: dropping close nulls.
- `Rings`: densify, clip, ring edges, nearest-neighbour links, seed edges.
- `Rotation`: the seed rotation and the discrepancy in its matrix.
- `Tracing`: the surface of one null, as a function and as imperative
  methods over an array ring.
- `Separatrices`: classification, the scan over the nulls and the
  `Separatrix` class.

Floating-point numbers are modelled as exact reals. Distances are compared
through squared distances: `sqrt(d2) > delta` holds exactly when
`delta < 0 || d2 > delta * delta`.

The following numerical routines are parameters, not code:

- `np.roots`, returning the real candidates;
- the Newton correction `F * J^-1`;
- `vec_int`;
- `np.linalg.eig`;
- the normalisation of a vector to unit length;
- the cosine and sine of the seed angles.

## Model

| member | source | states |
|---|---|---|
| Geometry.Mid | python/pencilnew/tool_kit/field_skeleton.py:584 | the inserted point `(a + b) / 2` is equally far from both ends: `m - a == b - m` |
| Geometry.Abs | python/pencilnew/tool_kit/field_skeleton.py:405 | `abs` of a difference is non-negative and is the value or its negation |
| Geometry.DistSq | python/pencilnew/tool_kit/field_skeleton.py:706-709 | the squared Euclidean distance is non-negative |
| Geometry.FarIsSymmetric | python/pencilnew/tool_kit/field_skeleton.py:706-709 | the distance and the test `distance > delta` do not depend on the order of the two points |
| Geometry.SumBounds | python/pencilnew/tool_kit/field_skeleton.py:397-398 | the componentwise sum of `n` points in a box lies between `n` times the lower and `n` times the upper corner |
| Geometry.MeanInBox | python/pencilnew/tool_kit/field_skeleton.py:397-398 | the mean (`np.mean(..., axis=0)`) of points in a closed box lies in that box |
| Geometry.AvgBounds | python/pencilnew/tool_kit/field_skeleton.py:397-398 | a total between `n lo` and `n hi`, divided by `n`, lies between `lo` and `hi` |
| Grid.Sign | python/pencilnew/tool_kit/field_skeleton.py:95 | `np.sign` is -1, 0 or 1, positive exactly for positive input and negative exactly for negative input |
| Reduction.SortedConcat | python/pencilnew/tool_kit/field_skeleton.py:113-115 | joining two ordered runs of cells, where every cell of the first precedes every cell of the second in z-y-x order, stays ordered |
| Reduction.RowCandidatesSpec | python/pencilnew/tool_kit/field_skeleton.py:95-115 | one row of the scan lists in increasing x exactly the candidate cells of that row from `i` on |
| Reduction.PlaneCandidatesSpec | python/pencilnew/tool_kit/field_skeleton.py:95-115 | one z-plane lists, in y-then-x order, exactly the candidate cells of that plane from row `j` on |
| Reduction.CandidatesFromSpec | python/pencilnew/tool_kit/field_skeleton.py:95-115 | the planes from `k` on list, in z-y-x order, exactly the candidate cells of those planes |
| Reduction.CandidateCellsExact | python/pencilnew/tool_kit/field_skeleton.py:95-115 | the visited cells are, in z-y-x order and without repeats, exactly the cells of the reduced grid (one fewer per axis) where every component changes sign between the upper corner and one of the other seven corners |
| Reduction.SignChangeIsNegativeProduct | python/pencilnew/tool_kit/field_skeleton.py:99-105 | the product of the two signs is negative exactly when the product of the two values is |
| Reduction.ZeroAtUpperCornerNeverFlags | python/pencilnew/tool_kit/field_skeleton.py:99-105 | a component that is zero at the upper corner never flags its cell, so that cell is never a candidate |
| Reduction.ConstantFieldHasNoCandidates | python/pencilnew/tool_kit/field_skeleton.py:95-105 | a constant field has no candidate cell |
| Trilinear.InterpolatesCorners | python/pencilnew/tool_kit/field_skeleton.py:53-57 | the interpolant with the coefficients built from the eight corner values reproduces every corner value at the matching unit-cube corner |
| Trilinear.CoefficientsFromCorners | python/pencilnew/tool_kit/field_skeleton.py:121-148 | the coefficient construction inverts corner evaluation, so the coefficients and the corner values determine each other |
| Trilinear.Level | python/pencilnew/tool_kit/field_skeleton.py:156-162 | a face fixes its coordinate at 0 or 1 |
| Trilinear.Embed | python/pencilnew/tool_kit/field_skeleton.py:188 | a face point has the face's fixed coordinate at the face's level |
| Trilinear.FreeComponents | python/pencilnew/tool_kit/field_skeleton.py:164-178 | the two components solved for on a face are distinct and differ from the fixed axis |
| Trilinear.InterpolateComponent | python/pencilnew/tool_kit/field_skeleton.py:53-57 | each component of the vector interpolant is the scalar trilinear form of that component's coefficients |
| Trilinear.FaceComponent | python/pencilnew/tool_kit/field_skeleton.py:158-162 | each component of the face's bilinear form equals that component of the trilinear form at the embedded face point |
| Trilinear.FaceComponentZ | python/pencilnew/tool_kit/field_skeleton.py:158-162 | on a face of fixed z, the bilinear coefficients give the trilinear form at that z level |
| Trilinear.FaceComponentY | python/pencilnew/tool_kit/field_skeleton.py:238-242 | on a face of fixed y, the bilinear coefficients give the trilinear form at that y level |
| Trilinear.FaceComponentX | python/pencilnew/tool_kit/field_skeleton.py:318-322 | on a face of fixed x, the bilinear coefficients give the trilinear form at that x level |
| Trilinear.FixedZ | python/pencilnew/tool_kit/field_skeleton.py:158-162 | fixing z at `v` in the scalar trilinear form gives the bilinear form with the folded coefficients |
| Trilinear.FixedY | python/pencilnew/tool_kit/field_skeleton.py:238-242 | fixing y at `v` gives the bilinear form with the folded coefficients |
| Trilinear.FixedX | python/pencilnew/tool_kit/field_skeleton.py:318-322 | fixing x at `v` gives the bilinear form with the folded coefficients |
| Trilinear.FaceRestriction | python/pencilnew/tool_kit/field_skeleton.py:156-162 | the face's bilinear form equals the trilinear interpolant with the fixed coordinate at 0 or 1 |
| Trilinear.BilinearComponent | python/pencilnew/tool_kit/field_skeleton.py:158-162 | each component of the vector bilinear form is the scalar bilinear form of that component |
| Trilinear.DeterminantExpansion | python/pencilnew/tool_kit/field_skeleton.py:164-171 | the three-term polynomial evaluated at `u` is the 2x2 determinant eliminating the second face coordinate |
| Trilinear.BiScalarLinear | python/pencilnew/tool_kit/field_skeleton.py:177-178 | for fixed `u` the bilinear form is affine in the second coordinate |
| Trilinear.SolveLinearPair | python/pencilnew/tool_kit/field_skeleton.py:177-178 | when the determinant vanishes and the denominator is non-zero, `roots_y` solves both affine equations |
| Trilinear.DependentPair | python/pencilnew/tool_kit/field_skeleton.py:164-171 | a common zero of two affine equations makes their determinant vanish |
| Trilinear.ScalarRoot | python/pencilnew/tool_kit/field_skeleton.py:164-178 | a root of the polynomial with a non-zero denominator gives a common zero of both scalar face forms |
| Trilinear.ScalarZeroIsRoot | python/pencilnew/tool_kit/field_skeleton.py:164-171 | a common zero of both scalar face forms gives a root of the polynomial |
| Trilinear.RootGivesFaceZero | python/pencilnew/tool_kit/field_skeleton.py:164-178 | if `u` is a root of a face's polynomial and the `roots_y` denominator is non-zero, both face components vanish at `(u, roots_y)` |
| Trilinear.FaceZeroIsRoot | python/pencilnew/tool_kit/field_skeleton.py:164-171 | conversely, a common zero of the two face components has its first coordinate among the polynomial's roots |
| FaceSeeds.Accepted | python/pencilnew/tool_kit/field_skeleton.py:177-186 | a root is accepted only when both it and its second coordinate lie in [0, 1], and the second coordinate is `roots_y` |
| FaceSeeds.SeedOnFace | python/pencilnew/tool_kit/field_skeleton.py:179-188 | a face seed lies in the unit cube, on its face |
| FaceSeeds.SecondRootWins | python/pencilnew/tool_kit/field_skeleton.py:179-188 | when both roots are accepted, the seed comes from root 1 |
| FaceSeeds.NoRootNoSeed | python/pencilnew/tool_kit/field_skeleton.py:173-174 | the fallback root -1 of an empty root list is always rejected, so no seed |
| FaceSeeds.SingleRootDuplicated | python/pencilnew/tool_kit/field_skeleton.py:175-176 | a single root is used as the same root in both slots, as line 176 evidently intends, and gives a seed exactly when it is accepted |
| FaceSeeds.SeedIsFaceZero | python/pencilnew/tool_kit/field_skeleton.py:164-188 | when the oracle's roots are roots of the face polynomial, both free field components vanish at the seed |
| Newton.RefineStopsAt | python/pencilnew/tool_kit/field_skeleton.py:82-91 | the refinement makes `k` updates, with `1 <= k <= 10`; it stops early only when the stop test holds, and never before the first update where it holds |
| Newton.ZeroCorrectionKeepsSeed | python/pencilnew/tool_kit/field_skeleton.py:82-89 | a zero correction at the seed stops after one update and returns the seed |
| Newton.NewtonRaphson | python/pencilnew/tool_kit/field_skeleton.py:75-91 | the loop returns the refinement of the seed with at most ten updates |
| NullPoints.CellNulls | python/pencilnew/tool_kit/field_skeleton.py:109-398 | one result per candidate cell |
| NullPoints.SomesSnoc | python/pencilnew/tool_kit/field_skeleton.py:397-398 | one more cell appends its null when it has one |
| NullPoints.SomesFrom | python/pencilnew/tool_kit/field_skeleton.py:397-398 | at most one null per cell, and each stored null is the null of some cell |
| NullPoints.NullPoint.constructor | python/pencilnew/tool_kit/field_skeleton.py:29-34 | a new object holds no nulls |
| NullPoints.NullPoint.FindNullpoints | python/pencilnew/tool_kit/field_skeleton.py:93-409 | `nulls` becomes the per-cell nulls, with close ones dropped, of the candidate cells in visiting order |
| NullPoints.AnalyseCell | python/pencilnew/tool_kit/field_skeleton.py:120-394 | the points a cell collects are, in face order, the refined face zeros inside the unit cube, in physical coordinates |
| NullPoints.AnalyseFace | python/pencilnew/tool_kit/field_skeleton.py:156-194 | one face gives the refined seed when that lies in the unit cube, and nothing otherwise |
| NullPoints.ScaledInInterval | python/pencilnew/tool_kit/field_skeleton.py:192-194 | a unit coordinate scaled by a non-negative spacing and offset lies in the cell's interval |
| NullPoints.ToPhysicalInCell | python/pencilnew/tool_kit/field_skeleton.py:191-194 | a point of the unit cube maps into the cell's box `[x[i], x[i] + dx]` and so on |
| NullPoints.FacePointsInCell | python/pencilnew/tool_kit/field_skeleton.py:151-394 | every collected point lies in the cell's box, with at most one per face |
| NullPoints.CellNullInCell | python/pencilnew/tool_kit/field_skeleton.py:397-398 | a cell's null, the mean of its points, lies in the cell's box |
| NullPoints.FacePointsSome | python/pencilnew/tool_kit/field_skeleton.py:151-394 | the collected points are non-empty exactly when some face gives a point |
| NullPoints.CellNullIffFacePoint | python/pencilnew/tool_kit/field_skeleton.py:397-398 | a cell yields a null exactly when one of its six faces gives a refined point in the unit cube |
| NullPoints.FaceNullIsRefinedSeed | python/pencilnew/tool_kit/field_skeleton.py:187-194 | a face point is the face seed after one to ten Newton updates, and lies in the unit cube |
| NullPoints.FixedSeedIsFaceZero | python/pencilnew/tool_kit/field_skeleton.py:164-194 | with exact roots and a zero correction at the seed, the face point lies on its face and zeroes both free components of the interpolant |
| NullPoints.FoundNullsInCandidateCells | python/pencilnew/tool_kit/field_skeleton.py:93-409 | at most one null per candidate cell, and every null lies in the box of some candidate cell |
| NullPoints.NoCandidatesNoNulls | python/pencilnew/tool_kit/field_skeleton.py:93-409 | no candidate cell, no null |
| CloseNulls.DiscardClose | python/pencilnew/tool_kit/field_skeleton.py:401-409 | the keep-mask loops keep exactly the nulls that no earlier null (kept or discarded) is close to |
| CloseNulls.DedupPrefixSubseq | python/pencilnew/tool_kit/field_skeleton.py:401-409 | the survivors among the first `n` form a subsequence of those `n` |
| CloseNulls.DedupIsSubseq | python/pencilnew/tool_kit/field_skeleton.py:401-409 | the kept nulls are an order-preserving subsequence of the input |
| CloseNulls.DedupPrefixStart | python/pencilnew/tool_kit/field_skeleton.py:401-409 | the survivors of a non-empty prefix start with the first null |
| CloseNulls.FirstNullKept | python/pencilnew/tool_kit/field_skeleton.py:401-409 | the first null is always kept |
| CloseNulls.DedupPrefixSeparated | python/pencilnew/tool_kit/field_skeleton.py:401-409 | no two survivors of a prefix are close, and all come from that prefix |
| CloseNulls.KeptAreSeparated | python/pencilnew/tool_kit/field_skeleton.py:401-409 | no two kept nulls differ by less than `(dx, dy, dz)` on all three axes |
| CloseNulls.KeptAppears | python/pencilnew/tool_kit/field_skeleton.py:401-409 | a null with no close predecessor is in the output |
| CloseNulls.DroppedHaveCloseEarlier | python/pencilnew/tool_kit/field_skeleton.py:401-409 | every dropped null has an earlier input null close to it |
| CloseNulls.SeparatedUnchanged | python/pencilnew/tool_kit/field_skeleton.py:401-409 | an input with no close pair passes unchanged |
| CloseNulls.DedupIdempotent | python/pencilnew/tool_kit/field_skeleton.py:401-409 | dropping close nulls twice changes nothing |
| CloseNulls.DiscardedNullStillDiscards | python/pencilnew/tool_kit/field_skeleton.py:403-408 | a discarded null still discards later ones: the chain 0, 0.6, 1.2 on a unit grid keeps only the first null |
| Rings.WalkShape | python/pencilnew/tool_kit/field_skeleton.py:580-585 | the densification walk over the first `n` points starts and ends with them, keeps them in order, adds at most one midpoint per gap, and adds only midpoints of far pairs |
| Rings.DensifiedShape | python/pencilnew/tool_kit/field_skeleton.py:580-588 | the densified ring starts with `ring[0]`, holds every original point in order, has between `n` and `2n` points, and every other point is the midpoint of a consecutive pair farther apart than `delta` |
| Rings.DensifiedEnd | python/pencilnew/tool_kit/field_skeleton.py:586-587 | the densified ring ends with the midpoint of `ring[0]` and `ring[-1]` when those are far apart, and with `ring[-1]` otherwise |
| Rings.WalkOfCloseRing | python/pencilnew/tool_kit/field_skeleton.py:580-585 | with no consecutive pair farther apart than `delta`, the walk inserts nothing |
| Rings.DensifiedCloseRing | python/pencilnew/tool_kit/field_skeleton.py:580-588 | a ring whose neighbours, and whose ends, are all within `delta` is left unchanged |
| Rings.Densify | python/pencilnew/tool_kit/field_skeleton.py:579-588 | the densification loop over the array computes the densified ring |
| Rings.ClippedExact | python/pencilnew/tool_kit/field_skeleton.py:591-595 | clipping keeps, in order, exactly the points strictly inside the open domain box, and clipping twice changes nothing |
| Rings.ChainShape | python/pencilnew/tool_kit/field_skeleton.py:599-601 | the chain edges join each stored ring point to the next |
| Rings.RingEdgesLength | python/pencilnew/tool_kit/field_skeleton.py:598-602 | a ring of `m` points gets `m` edges, and an empty ring gets one |
| Rings.RingEdgesRange | python/pencilnew/tool_kit/field_skeleton.py:598-602 | a non-empty ring's edges form a cycle over its own indices; an empty ring adds `[offset, offset - 1]`, one past the stored points |
| Rings.RingEdgesBounds | python/pencilnew/tool_kit/field_skeleton.py:598-602 | where a ring's edges lie, for non-empty and empty rings |
| Rings.NearestUpTo | python/pencilnew/tool_kit/field_skeleton.py:607-616 | the nearest point among the first `n` is one of them |
| Rings.NearestUpToIsFirstMinimum | python/pencilnew/tool_kit/field_skeleton.py:607-616 | the index found is at least as near as every point and strictly nearer than every earlier one |
| Rings.NearestIsFirstMinimum | python/pencilnew/tool_kit/field_skeleton.py:607-617 | `idx_min` stays -1 exactly for an empty ring; otherwise it is the first index of minimal distance |
| Rings.NearestIndex | python/pencilnew/tool_kit/field_skeleton.py:609-616 | the inner search loop computes that first nearest index |
| Rings.LinksUpToShape | python/pencilnew/tool_kit/field_skeleton.py:605-619 | the first `n` old points each get the edge to their nearest new point, or nothing when the new ring is empty |
| Rings.LinksShape | python/pencilnew/tool_kit/field_skeleton.py:605-619 | every old point gets exactly one edge `[offset + i, offset + len(ring_old) + nearest]`, which joins the old ring's indices to the new ring's |
| Rings.LinksBounds | python/pencilnew/tool_kit/field_skeleton.py:605-619 | old-to-new edges join the old ring's index range to the new ring's |
| Rings.LinkAt | python/pencilnew/tool_kit/field_skeleton.py:607-619 | the edge of old point `i` and the index of its nearest new point |
| Rings.SpokesShape | python/pencilnew/tool_kit/field_skeleton.py:553-558 | seeding adds the spokes `[0, k]` for `k = 1 .. ring_density` |
| Rings.SeedEdgesShape | python/pencilnew/tool_kit/field_skeleton.py:550-563 | seeding adds `ring_density` spokes, then `ring_density` edges closing the seed ring, all with indices at most `ring_density` |
| Rotation.RowTimesAdd | python/pencilnew/tool_kit/field_skeleton.py:703 | a row vector times a sum of matrices is the sum of the products |
| Rotation.RowTimesScale | python/pencilnew/tool_kit/field_skeleton.py:703 | a row vector times a scaled matrix is the scaled product |
| Rotation.RowTimesIdentity | python/pencilnew/tool_kit/field_skeleton.py:703 | a row vector times the identity is itself |
| Rotation.RowTimesSkew | python/pencilnew/tool_kit/field_skeleton.py:703 | a row vector times the cross-product matrix of `n` is `p x n` |
| Rotation.RowTimesOuter | python/pencilnew/tool_kit/field_skeleton.py:703 | a row vector times `n n^T` is `(p . n) n` |
| Rotation.ScaledAxis | python/pencilnew/tool_kit/field_skeleton.py:703 | those components are `(p . n) n` |
| Rotation.RotateClosedForm | python/pencilnew/tool_kit/field_skeleton.py:688-703 | the row vector times the Rodrigues matrix is `cos p + sin (p x n) + (1 - cos)(p . n) n` |
| Rotation.Lagrange | python/pencilnew/tool_kit/field_skeleton.py:538-539 | `|a x b|^2 = |a|^2 |b|^2 - (a . b)^2` |
| Rotation.CrossIsPerpendicular | python/pencilnew/tool_kit/field_skeleton.py:538 | `np.cross(a, b)` is perpendicular to `a` and to `b` |
| Rotation.NormSqOfCombination | python/pencilnew/tool_kit/field_skeleton.py:688-703 | the squared length of `cos a + sin b` |
| Rotation.DotOfCombination | python/pencilnew/tool_kit/field_skeleton.py:688-703 | a dot product with `cos a + sin b` is linear |
| Rotation.TurnedPerpendicular | python/pencilnew/tool_kit/field_skeleton.py:688-703 | for a vector perpendicular to the axis, the rotation is `cos p + sin (p x n)` |
| Rotation.CrossKeepsLength | python/pencilnew/tool_kit/field_skeleton.py:688-703 | crossing with a perpendicular unit vector keeps the length |
| Rotation.PlaneLength | python/pencilnew/tool_kit/field_skeleton.py:688-703 | `cos p + sin q`, for perpendicular `p`, `q` of equal length and `cos^2 + sin^2 = 1`, has the length of `p` |
| Rotation.PerpendicularScaled | python/pencilnew/tool_kit/field_skeleton.py:539 | scaling a vector keeps it perpendicular, as dividing the normal by its length does |
| Rotation.SameLengthScaled | python/pencilnew/tool_kit/field_skeleton.py:555 | scaling by `delta` keeps equal lengths equal |
| Rotation.RotateStaysInPlane | python/pencilnew/tool_kit/field_skeleton.py:688-703 | a vector perpendicular to the axis stays perpendicular to it when rotated |
| Rotation.RotateKeepsLength | python/pencilnew/tool_kit/field_skeleton.py:688-703 | about a unit axis, rotating a vector perpendicular to the axis keeps its length |
| Rotation.AsWrittenMatrix | python/pencilnew/tool_kit/field_skeleton.py:694-702 | the matrix as written is the Rodrigues matrix plus the excess `v sin (u w - 1)` at entry (0, 2) and `w sin (u v - 1)` at entry (1, 0), and nothing else |
| Rotation.AsWrittenDeviation | python/pencilnew/tool_kit/field_skeleton.py:688-703 | `__rotate_vector` as written returns the Rodrigues rotation plus `(p.y w sin (u v - 1), 0, p.x v sin (u w - 1))`, so it agrees with the rotation exactly at angles whose sine is 0 |
| Rotation.AsWrittenShrinks | python/pencilnew/tool_kit/field_skeleton.py:688-703 | with the matrix as written, turning the unit vector `(0.8, -0.6, 0)` about the unit axis `(0.6, 0.8, 0)` by a right angle gives `(0, 0, 0.36)`, which is shorter |
| Rotation.RodriguesKeepsWitness | python/pencilnew/tool_kit/field_skeleton.py:688-703 | on the same input, the Rodrigues matrix keeps length 1 |
| Tracing.Advected | python/pencilnew/tool_kit/field_skeleton.py:572-577 | advection keeps the number of ring points |
| Tracing.SeedRing | python/pencilnew/tool_kit/field_skeleton.py:553-556 | the seed ring has `ring_density` points |
| Tracing.SeedRingOnCircle | python/pencilnew/tool_kit/field_skeleton.py:553-556 | with a unit normal perpendicular to the fan vector and exact cosines and sines, every seed lies in the fan plane through the null, at distance `|delta fan_vectors[0]|` from it |
| Tracing.SeedRingDeviation | python/pencilnew/tool_kit/field_skeleton.py:553-556 | every seed the source computes is the model's seed moved by `delta` times the rotation's deviation; the seeds at angles with sine 0, the first among them, are the same |
| Tracing.ExtendAppends | python/pencilnew/tool_kit/field_skeleton.py:591-619 | storing a ring appends its points, keeps the earlier edges, adds at least one edge and leaves the ring as the tail of the points |
| Tracing.ExtendEdges | python/pencilnew/tool_kit/field_skeleton.py:597-619 | storing a non-empty ring keeps every edge among stored points; storing an empty one adds only `[len, len - 1]` |
| Tracing.AppendedEdges | python/pencilnew/tool_kit/field_skeleton.py:597-619 | the ring edges and the links stay among the stored points, or reduce to the one out-of-range edge |
| Tracing.ExtendLinks | python/pencilnew/tool_kit/field_skeleton.py:605-619 | the link of old point `i` joins its stored index to the stored index of its nearest new point |
| Tracing.AdvanceAppends | python/pencilnew/tool_kit/field_skeleton.py:567-619 | a pass appends the new ring to the points, keeps the earlier edges, adds at least one edge, and at most doubles the ring |
| Tracing.AdvanceStoresInside | python/pencilnew/tool_kit/field_skeleton.py:579-595 | every point of the new ring is inside the open domain box and is a point of the densified advected ring |
| Tracing.AdvanceEdges | python/pencilnew/tool_kit/field_skeleton.py:597-619 | a pass keeps all edges among stored points, unless the ring empties; then it adds only `[len, len - 1]` |
| Tracing.AdvanceLinks | python/pencilnew/tool_kit/field_skeleton.py:568-619 | the link of old point `i` is chosen by distance from its advected position (the aliasing of `ring_old` and `ring`), and joins the old point's stored index to the nearest new point's |
| Tracing.RunAppends | python/pencilnew/tool_kit/field_skeleton.py:566-624 | a loop of appending passes only appends, makes at most `budget` passes, stops early only when the ring is empty, and makes at least one pass when it can |
| Tracing.RunPreserves | python/pencilnew/tool_kit/field_skeleton.py:566-624 | an invariant that every pass over a non-empty ring keeps holds after the loop |
| Tracing.TraceAppends | python/pencilnew/tool_kit/field_skeleton.py:566-624 | tracing only appends, makes at most `iter_max` passes and stops early only when the ring is empty |
| Tracing.TraceKeepsTail | python/pencilnew/tool_kit/field_skeleton.py:566-624 | the current ring stays the tail of the stored points |
| Tracing.AdvanceEndsWell | python/pencilnew/tool_kit/field_skeleton.py:597-619 | a pass from a well-formed state leaves every edge among stored points, except the one `[len, len - 1]` of an emptied ring |
| Tracing.TraceEdges | python/pencilnew/tool_kit/field_skeleton.py:566-624 | after tracing, every edge joins stored points, except a last `[len, len - 1]` when the last pass emptied the ring |
| Tracing.TraceStep | python/pencilnew/tool_kit/field_skeleton.py:566-624 | with budget left and a non-empty ring, tracing is one pass followed by tracing with one pass less |
| Tracing.SeedWellFormed | python/pencilnew/tool_kit/field_skeleton.py:550-563 | the seed state stores the null first and has all edges among its points |
| Tracing.TraceFromSeed | python/pencilnew/tool_kit/field_skeleton.py:547-624 | every traced surface keeps the null first, then the seed ring, then the seeding edges, and all edges but a final out-of-range one join stored points |
| Tracing.AdvectRing | python/pencilnew/tool_kit/field_skeleton.py:571-577 | the advection loop replaces every ring point, in place, by its advected position |
| Tracing.ClipInto | python/pencilnew/tool_kit/field_skeleton.py:591-595 | the clip loop keeps the points inside the box and appends them to `separatrices` |
| Tracing.CloseRing | python/pencilnew/tool_kit/field_skeleton.py:597-602 | the loop appends the edges of the new ring |
| Tracing.LinkRings | python/pencilnew/tool_kit/field_skeleton.py:605-619 | the nested loop appends one nearest-neighbour edge per old point |
| Tracing.Seed | python/pencilnew/tool_kit/field_skeleton.py:547-563 | the seeding loops store the null and the seed ring and add the spokes and ring edges |
| Tracing.TraceNull | python/pencilnew/tool_kit/field_skeleton.py:547-624 | the surface of one null is the trace from the seed state with `iter_max` passes at most |
| Tracing.TraceRings | python/pencilnew/tool_kit/field_skeleton.py:566-624 | the `while` loop makes passes until the ring is empty or `iter_max` passes are done |
| Tracing.Pass | python/pencilnew/tool_kit/field_skeleton.py:567-619 | one loop body computes one pass on the stored points, edges and ring |
| Tracing.AdvanceRing | python/pencilnew/tool_kit/field_skeleton.py:567-595 | the ring is advected in place and the clipped, densified ring is appended to the points |
| Tracing.Connect | python/pencilnew/tool_kit/field_skeleton.py:597-619 | the new ring's edges and the links from the old ring are appended |
| Separatrices.Min3 | python/pencilnew/tool_kit/field_skeleton.py:520 | `min((dx, dy, dz))` is one of the three and no larger than any |
| Separatrices.Width | python/pencilnew/tool_kit/field_skeleton.py:520 | the difference width is positive and at most a tenth of every grid spacing |
| Separatrices.Classify | python/pencilnew/tool_kit/field_skeleton.py:527-535 | a null is skipped exactly when the determinant is zero; otherwise the trace sign is 1 exactly for a negative determinant and -1 exactly for a positive one |
| Separatrices.FanMembers | python/pencilnew/tool_kit/field_skeleton.py:527-532 | the fan holds exactly the eigenvectors whose eigenvalue has the given sign, and no more vectors than eigenpairs |
| Separatrices.FanOfNegated | python/pencilnew/tool_kit/field_skeleton.py:527-532 | negating every eigenvalue and the sign selects the same fan |
| Separatrices.ClassifyMirror | python/pencilnew/tool_kit/field_skeleton.py:527-535 | negating the determinant and the eigenvalues keeps the fan, reverses the trace sign, and keeps a skipped null skipped |
| Separatrices.NegatedDifference | python/pencilnew/tool_kit/field_skeleton.py:677-684 | the scaled difference of two negated vectors is the negated scaled difference |
| Separatrices.ReversedDifference | python/pencilnew/tool_kit/field_skeleton.py:677-684 | the central difference of the reversed field is the negated difference |
| Separatrices.ReversedGradField | python/pencilnew/tool_kit/field_skeleton.py:675-686 | `__grad_field` of the reversed field is the negated matrix, with the negated determinant |
| Separatrices.ReversedFieldMirror | python/pencilnew/tool_kit/field_skeleton.py:518-535 | reversing the field reverses every null's trace direction and keeps its fan, given an eigen-decomposition that negates with the matrix |
| Separatrices.AnalyseCases | python/pencilnew/tool_kit/field_skeleton.py:518-563 | a null is skipped exactly for a zero determinant, raises `IndexError` exactly for fewer than two fan vectors, raises in the seeding exactly for `ring_density < 1`, and is traced otherwise |
| Separatrices.HeadIsGood | python/pencilnew/tool_kit/field_skeleton.py:527-545 | a stored head has trace sign 1 or -1, at least two fan vectors, matching eigenvalue and eigenvector counts, and every fan vector is an eigenvector whose eigenvalue has the trace sign |
| Separatrices.NormalIsPerpendicular | python/pencilnew/tool_kit/field_skeleton.py:538-540 | when the normalisation only rescales, the stored normal is perpendicular to both fan vectors it comes from |
| Separatrices.SurfaceShape | python/pencilnew/tool_kit/field_skeleton.py:547-626 | a traced surface starts with the null and the seed ring, its edges start with the seeding edges, and all edges but possibly the last join stored points |
| Separatrices.StoredRingOnCircle | python/pencilnew/tool_kit/field_skeleton.py:553-556 | a stored seed ring lies on the fan circle around the null |
| Separatrices.SeedsOnFanCircle | python/pencilnew/tool_kit/field_skeleton.py:538-556 | with a unit normal from the normalisation and exact cosines and sines, every stored seed lies in the fan plane at distance `|delta fan_vectors[0]|` from the null |
| Separatrices.ScanStops | python/pencilnew/tool_kit/field_skeleton.py:518-626 | once a null raises, later nulls change nothing |
| Separatrices.ScanNext | python/pencilnew/tool_kit/field_skeleton.py:518-626 | one more null records its outcome |
| Separatrices.ScanOk | python/pencilnew/tool_kit/field_skeleton.py:518-626 | the loop over the nulls completes exactly when no null raises |
| Separatrices.ScanCounts | python/pencilnew/tool_kit/field_skeleton.py:518-626 | the five head lists stay equally long, as do the two surface lists; a completed loop adds one head and one surface per traced null; an interrupted one may leave one head without a surface |
| Separatrices.RecordGrows | python/pencilnew/tool_kit/field_skeleton.py:541-545 | recording one null only appends, and any head it adds is good |
| Separatrices.ScanHeads | python/pencilnew/tool_kit/field_skeleton.py:518-626 | the loop only appends to the lists, and every head it adds is good |
| Separatrices.Separatrix.constructor | python/pencilnew/tool_kit/field_skeleton.py:472-484 | a new object has all eight lists empty |
| Separatrices.Separatrix.FindSeparatrices | python/pencilnew/tool_kit/field_skeleton.py:486-626 | the lists grow by the scan of the nulls, and `ok` is false exactly when a null raised |
| Separatrices.Separatrix.StoreNull | python/pencilnew/tool_kit/field_skeleton.py:518-626 | one iteration of the loop stores what the outcome of that null prescribes, and reports whether the source raises there |

## Left out

- VTK output and input (`write_vtk`, `read_vtk`, lines 412-464 and 636-672) and the import-time warnings (lines 14-21) are file I/O through external libraries.
- `vec_int` (line 13) is a parameter of the tracing; its interpolation code is not part of this model.
- The Newton correction `F * J^-1` of lines 59-73 is a parameter. It uses float central differences, matrix inversion and a NaN test. The loop around it is modelled exactly (ten updates at most, the `1e-5` and `1` stop tests).
- `np.roots` is a parameter returning no, one or two real roots. Complex roots, which the source filters only by their real part, are not modelled.
- `np.linalg.eig` is a parameter returning real eigenpairs. Complex eigenvalues are not modelled.
- `np.linalg.det` is the exact determinant of the real matrix, not a floating-point one.
- The normalisation `v / sqrt(sum(v**2))` is a parameter. So are the cosine and sine of the angles `np.linspace(0, 2 pi (1 - 1/d), d)`.
- Separatrices.Analyse: when a null raises, the source stops the method with an exception. The model instead returns `ok = false` with the lists as they were at that point.
- The final conversions of the lists to numpy arrays (lines 628-633) are not modelled. So a second call of `find_separatrices` on the same object is modelled as appending to the lists, whereas in the source it fails at the first append.
- Separatrices.Separatrix.FindSeparatrices returns `ok` on a first call that traces two or more nulls. In the source, line 633 then calls `np.array` on surfaces with different numbers of points. Recent numpy (1.24 on) raises `ValueError` there, and older numpy builds an object array.
- The `print` of a skipped null (line 534) is left out.
- The `lines` list is declared but never filled by the source, and the model keeps it unchanged.
- Separatrices.Separatrix.FindSeparatrices requires positive grid spacings. With a zero spacing, numpy divides by zero and yields non-numbers, which reals cannot express.
- The domain corners `var.x[0]`, `var.x[-1]` and so on are parameters of the tracing, not read from the coordinate arrays.
- The default arguments `delta=0.1`, `iter_max=100` and `ring_density=8` (lines 486-487) are not modelled. `delta`, `iterMax` and `density` are fields of `Separatrices.Setting` that every caller supplies.
- FaceSeeds.Slots and FaceSeeds.SingleRootDuplicated model the evident intent of line 176, which is the same scalar root in both slots. They do not model what line 176 computes. `np.array([roots_x, roots_x])` wraps the one-element root array, so `roots_y` and `roots_x[root_idx]` are one-element arrays. `np.array(xyz0)` at line 77 is then ragged: current numpy raises an error, and older numpy builds an object array.
- Tracing.SeedRing seeds with the corrected Rodrigues rotation, not with the matrix of lines 694-702, so it is not the ring lines 553-556 compute. That ring is `Tracing.SeedRingAsWritten`, and `Tracing.SeedRingDeviation` relates the two.
- Tracing.Seed stores the corrected seed ring, not the source's seeds of line 556.
- Tracing.SeedRingOnCircle holds for the corrected seed ring only. With the matrix as written, seeds at angles with non-zero sine can leave the circle (`Rotation.AsWrittenShrinks`).
- Tracing.TraceNull traces from the corrected seed ring. The source traces from the as-written seeds, so its later rings differ too.
- Separatrices.SurfaceShape states that the stored seeds are the corrected `SeedRing`. The source stores `SeedRingAsWritten`.
- Separatrices.StoredRingOnCircle holds for the corrected seeds only, not for the source's.
- Separatrices.SeedsOnFanCircle holds for the corrected seeds only. With the matrix of lines 694-702, only seeds at angles with sine 0 are guaranteed to be on the fan circle.
- Separatrices.Separatrix.StoreNull stores a surface traced from the corrected seeds.
- Separatrices.Separatrix.FindSeparatrices stores surfaces traced from the corrected seeds, as `StoreNull` does. The heads (eigenvalues, eigenvectors, signs, fans, normals) are as the source computes them.
- Division by zero in `roots_y` (numpy gives infinity or a non-number) is modelled as a rejected root. That result always fails the `[0, 1]` test.

## Findings

| source | as written | input that shows it | evidently intended | confidence | as-written member | corrected member |
|---|---|---|---|---|---|---|
| python/pencilnew/tool_kit/field_skeleton.py:695-697 | entries (0, 2) and (1, 0) of the rotation matrix are `u*w*(1-cos+v*sin)` and `u*v*(1-cos+w*sin)`: the parenthesis closes after the sine term; the matrix as written is the Rodrigues matrix plus the excess `v sin (u w - 1)` at entry (0, 2) and `w sin (u v - 1)` at entry (1, 0), and nothing else (`Rotation.AsWrittenMatrix`), so `__rotate_vector` agrees with the rotation exactly at angles whose sine is 0 (`Rotation.AsWrittenDeviation`) | axis `(0.6, 0.8, 0)`, vector `(0.8, -0.6, 0)`, angle pi/2: the result is `(0, 0, 0.36)`, of length 0.36 instead of 1 | the Rodrigues entries `u*w*(1-cos)+v*sin` and `u*v*(1-cos)+w*sin`, so that every seed lies on the circle of radius `delta` in the fan plane | high; not executed | Rotation.AsWrittenShrinks | Rotation.RotateKeepsLength |
