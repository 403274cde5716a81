/** Tracing the separatrix surface of one null: a ring of points around the
    null is pushed along the field step by step, refined where neighbours
    drift apart, clipped to the domain and connected to the ring before it.
    Every point ever on a ring is stored, and the connectivity refers to
    points by their index in that store. */
module Tracing {
  import opened Geometry
  import opened Sequences
  import opened Rings
  import opened Rotation

  /** What a pass needs besides the ring: the interpolated field
      (`vec_int`), the normalisation of a vector to unit length, the trace
      direction `sign_trace`, the step length `delta` and the lower and
      upper domain corners. */
  datatype TraceParams = TraceParams(field: Vec3 -> Vec3, normalize: Vec3 -> Vec3,
                                     sign: int, delta: real, lo: Vec3, hi: Vec3)

  /** The stored separatrix points, their connectivity and the current
      ring. */
  datatype TraceState = TraceState(points: seq<Vec3>, edges: seq<Edge>, ring: seq<Vec3>)

  /** One step of length `delta` along the normalised field times the trace
      sign. */
  function Advect(p: Vec3, tp: TraceParams): Vec3
  {
    Add(p, Scale(tp.normalize(Scale(tp.field(p), tp.sign as real)), tp.delta))
  }

  /** Every ring point advected. */
  function Advected(r: seq<Vec3>, tp: TraceParams): (m: seq<Vec3>)
    ensures |m| == |r|
  {
    seq(|r|, i requires 0 <= i < |r| => Advect(r[i], tp))
  }

  /** The ring a pass produces: the advected ring, refined and clipped to
      the domain. */
  function NextRing(r: seq<Vec3>, tp: TraceParams): seq<Vec3>
    requires r != []
  {
    Clipped(Densified(Advected(r, tp), tp.delta), tp.lo, tp.hi)
  }

  /** Storing a new ring `kept`: its points are appended, closed into a
      ring, and every point of the previous ring, whose current positions
      are `moved`, is linked to its nearest new point. */
  function Extend(s: TraceState, moved: seq<Vec3>, kept: seq<Vec3>): TraceState
  {
    TraceState(s.points + kept,
               s.edges + RingEdges(|s.points|, |kept|) + Links(moved, kept, |s.points| - |s.ring|),
               kept)
  }

  /** One pass of the tracing loop. The loop never makes a pass over an
      empty ring; such a state is left as it is. */
  function Advance(s: TraceState, tp: TraceParams): TraceState
  {
    if s.ring == [] then s else Extend(s, Advected(s.ring, tp), NextRing(s.ring, tp))
  }

  /** The pass as a function on states. */
  function PassOf(tp: TraceParams): TraceState -> TraceState
  {
    s => Advance(s, tp)
  }

  /** At most `budget` applications of `step`, stopping early once the ring
      is empty. */
  function Run(s: TraceState, step: TraceState -> TraceState, budget: nat): TraceState
    decreases budget
  {
    if budget == 0 || s.ring == [] then s else Run(step(s), step, budget - 1)
  }

  /** The number of applications `Run` makes. */
  function Runs(s: TraceState, step: TraceState -> TraceState, budget: nat): nat
    decreases budget
  {
    if budget == 0 || s.ring == [] then 0 else Runs(step(s), step, budget - 1) + 1
  }

  /** The state after at most `budget` passes, stopping early once the
      ring is empty. */
  function Trace(s: TraceState, tp: TraceParams, budget: nat): TraceState
  {
    Run(s, PassOf(tp), budget)
  }

  /** The number of passes `Trace` makes. */
  function Passes(s: TraceState, tp: TraceParams, budget: nat): nat
  {
    Runs(s, PassOf(tp), budget)
  }

  /** The number of passes `iter_max` allows: none when it is not positive. */
  function Budget(iterMax: int): nat
  {
    if iterMax > 0 then iterMax else 0
  }

  /** The first ring: the null `origin` displaced by `delta` along the fan
      vector turned about the fan normal by the `k`-th of `d` equally spaced
      angles `2 pi k / d`, for `k < d`; `circle(k, d)` holds the cosine and
      the sine of that angle. The turn is the Rodrigues rotation `Rotate`
      that `__rotate_vector` is meant to compute, not its matrix as
      written (see `SeedRingAsWritten`). */
  function SeedRing(origin: Vec3, normal: Vec3, fan0: Vec3, circle: (nat, nat) -> Trig,
                    d: nat, delta: real): (r: seq<Vec3>)
    ensures |r| == d
  {
    seq(d, k requires 0 <= k < d => Add(origin, Scale(Rotate(normal, fan0, circle(k, d)), delta)))
  }

  /** When `normal` is a unit vector perpendicular to `fan0` and every
      `circle(k, d)` is the cosine and sine of one angle, the seed ring lies
      in the fan plane through the null, on the circle of radius
      `|delta fan0|` about it. */
  lemma SeedRingOnCircle(origin: Vec3, normal: Vec3, fan0: Vec3, circle: (nat, nat) -> Trig,
                         d: nat, delta: real)
    requires Unit(normal) && Perpendicular(normal, fan0)
    requires forall k :: 0 <= k < d ==> OnUnitCircle(circle(k, d))
    ensures forall k :: 0 <= k < d ==>
      var v := Sub(SeedRing(origin, normal, fan0, circle, d, delta)[k], origin);
      Perpendicular(normal, v) && NormSq(v) == NormSq(Scale(fan0, delta))
  {
    var ring := SeedRing(origin, normal, fan0, circle, d, delta);
    forall k | 0 <= k < d
      ensures var v := Sub(ring[k], origin);
        Perpendicular(normal, v) && NormSq(v) == NormSq(Scale(fan0, delta))
    {
      var r := Rotate(normal, fan0, circle(k, d));
      RotateStaysInPlane(normal, fan0, circle(k, d));
      RotateKeepsLength(normal, fan0, circle(k, d));
      assert Sub(ring[k], origin) == Scale(r, delta);
      PerpendicularScaled(normal, r, delta);
      SameLengthScaled(r, fan0, delta);
    }
  }

  /** The first ring as lines 553-555 compute it, with the matrix of
      `__rotate_vector` as written. The traced surfaces start from
      `SeedRing` instead. */
  function SeedRingAsWritten(origin: Vec3, normal: Vec3, fan0: Vec3, circle: (nat, nat) -> Trig,
                             d: nat, delta: real): (r: seq<Vec3>)
    ensures |r| == d
  {
    seq(d, k requires 0 <= k < d => Add(origin, Scale(RotateAsWritten(normal, fan0, circle(k, d)), delta)))
  }

  /** Each seed as written is the corrected seed moved by `delta` times the
      rotation's `Deviation`; a seed whose angle has sine 0, such as the
      first one, is the same in both rings. */
  lemma SeedRingDeviation(origin: Vec3, normal: Vec3, fan0: Vec3, circle: (nat, nat) -> Trig,
                          d: nat, delta: real)
    ensures forall k :: 0 <= k < d ==>
      SeedRingAsWritten(origin, normal, fan0, circle, d, delta)[k]
        == Add(SeedRing(origin, normal, fan0, circle, d, delta)[k],
               Scale(Deviation(normal, fan0, circle(k, d)), delta))
    ensures forall k :: 0 <= k < d && circle(k, d).sin == 0.0 ==>
      SeedRingAsWritten(origin, normal, fan0, circle, d, delta)[k]
        == SeedRing(origin, normal, fan0, circle, d, delta)[k]
  {
    var written := SeedRingAsWritten(origin, normal, fan0, circle, d, delta);
    var ring := SeedRing(origin, normal, fan0, circle, d, delta);
    forall k | 0 <= k < d
      ensures written[k] == Add(ring[k], Scale(Deviation(normal, fan0, circle(k, d)), delta))
      ensures circle(k, d).sin == 0.0 ==> written[k] == ring[k]
    {
      var t := circle(k, d);
      var r, e := Rotate(normal, fan0, t), Deviation(normal, fan0, t);
      AsWrittenDeviation(normal, fan0, t);
      ShiftedSeed(origin, r, e, delta);
    }
  }

  /** The null plus `delta (r + e)` is the null plus `delta r`, moved by
      `delta e`. */
  lemma ShiftedSeed(origin: Vec3, r: Vec3, e: Vec3, delta: real)
    ensures Add(origin, Scale(Add(r, e), delta)) == Add(Add(origin, Scale(r, delta)), Scale(e, delta))
  {
  }

  /** The state before the first pass: the null, then the seed ring, with
      spokes and the seed ring's edges. */
  function SeedState(origin: Vec3, ring: seq<Vec3>): TraceState
  {
    TraceState([origin] + ring, SeedEdges(|ring|), ring)
  }

  /** The current ring is the last part of the stored points. */
  predicate RingIsTail(s: TraceState)
  {
    |s.ring| <= |s.points| && s.points[|s.points| - |s.ring|..] == s.ring
  }

  /** The tail property, and every edge joins two stored points. */
  predicate WellFormed(s: TraceState)
  {
    RingIsTail(s) && EdgesWithin(s.edges, 0, |s.points|)
  }

  /** Storing a ring only appends: the stored points and edges are kept,
      the new ring is the tail of the points, and at least one edge is
      added. */
  lemma ExtendAppends(s: TraceState, moved: seq<Vec3>, kept: seq<Vec3>)
    ensures var t := Extend(s, moved, kept);
      && t.points == s.points + kept
      && |t.edges| >= |s.edges| + 1
      && t.edges[..|s.edges|] == s.edges
      && RingIsTail(t)
  {
    RingEdgesLength(|s.points|, |kept|);
    var t := Extend(s, moved, kept);
    assert t.edges == s.edges + (RingEdges(|s.points|, |kept|) + Links(moved, kept, |s.points| - |s.ring|));
  }

  /** Storing a ring in a well-formed state, with the previous positions
      `moved` one per previous ring point: a non-empty ring gives a
      well-formed state; an empty one stores nothing and adds the single
      edge `[n, n - 1]`, `n` the number of stored points, which refers to a
      point that is not stored. */
  lemma ExtendEdges(s: TraceState, moved: seq<Vec3>, kept: seq<Vec3>)
    requires WellFormed(s) && |moved| == |s.ring|
    ensures var t := Extend(s, moved, kept);
      if kept != [] then WellFormed(t)
      else t.points == s.points && t.edges == s.edges + [Edge(|s.points|, |s.points| - 1)]
  {
    var offset := |s.points| - |s.ring|;
    RingEdgesBounds(|s.points|, |kept|);
    LinksBounds(moved, kept, offset);
    AppendedEdges(s.edges, RingEdges(|s.points|, |kept|), Links(moved, kept, offset), |s.points|, |s.ring|, |kept|);
    ExtendAppends(s, moved, kept);
  }

  /** The edges a pass appends to edges among `n` stored points, when the
      previous ring is the last `m` of them and `k` new points follow. */
  lemma AppendedEdges(edges: seq<Edge>, ring: seq<Edge>, links: seq<Edge>, n: nat, m: nat, k: nat)
    requires EdgesWithin(edges, 0, n) && m <= n
    requires k >= 1 ==> EdgesWithin(ring, n, n + k)
    requires k == 0 ==> ring == [Edge(n, n - 1)] && links == []
    requires forall e :: e in links ==> n - m <= e.a < n && n <= e.b < n + k
    ensures k >= 1 ==> EdgesWithin(edges + ring + links, 0, n + k)
    ensures k == 0 ==> edges + ring + links == edges + [Edge(n, n - 1)]
  {
    if k == 0 {
      assert edges + ring + links == edges + ring;
    }
  }

  /** Link `i` of a stored ring starts at the stored entry of previous ring
      point `i` and ends at the new point nearest to `moved[i]`. */
  lemma ExtendLinks(s: TraceState, moved: seq<Vec3>, kept: seq<Vec3>, i: nat)
    requires RingIsTail(s) && |moved| == |s.ring| && i < |s.ring| && kept != []
    ensures var t := Extend(s, moved, kept);
      var k := Nearest(moved[i], kept);
      && |t.edges| == |s.edges| + |kept| + |s.ring|
      && 0 <= k < |kept|
      && t.edges[|s.edges| + |kept| + i] == Edge(|s.points| - |s.ring| + i, |s.points| + k)
      && t.points[|s.points| - |s.ring| + i] == s.ring[i]
      && t.points[|s.points| + k] == kept[k]
  {
    var offset := |s.points| - |s.ring|;
    RingEdgesLength(|s.points|, |kept|);
    LinkAt(moved, kept, offset, i);
    EntryAfter(s.edges, RingEdges(|s.points|, |kept|), Links(moved, kept, offset), i);
    assert s.points[offset + i] == s.ring[i];
  }

  lemma EntryAfter(a: seq<Edge>, b: seq<Edge>, c: seq<Edge>, i: nat)
    requires i < |c|
    ensures |a + b + c| == |a| + |b| + |c|
    ensures (a + b + c)[|a| + |b| + i] == c[i]
  {
  }

  /** A pass only appends to the stored points and edges, keeps the ring at
      the tail of the points, and at most doubles the ring. */
  lemma AdvanceAppends(s: TraceState, tp: TraceParams)
    requires s.ring != []
    ensures var t := Advance(s, tp);
      && t.points == s.points + t.ring
      && |t.edges| >= |s.edges| + 1
      && t.edges[..|s.edges|] == s.edges
      && |t.ring| <= 2 * |s.ring|
      && RingIsTail(t)
  {
    var moved := Advected(s.ring, tp);
    DensifiedShape(moved, tp.delta);
    ClippedExact(Densified(moved, tp.delta), tp.lo, tp.hi);
    ExtendAppends(s, moved, NextRing(s.ring, tp));
  }

  /** Every point a pass stores lies strictly inside the domain and comes
      from the refined advected ring. */
  lemma AdvanceStoresInside(s: TraceState, tp: TraceParams)
    requires s.ring != []
    ensures forall x :: x in Advance(s, tp).ring ==>
              InOpenBox(x, tp.lo, tp.hi) && x in Densified(Advected(s.ring, tp), tp.delta)
  {
    ClippedExact(Densified(Advected(s.ring, tp), tp.delta), tp.lo, tp.hi);
  }

  /** A pass from a well-formed state: a non-empty new ring leaves the state
      well formed; when every point left the domain, the pass stores
      nothing and adds only the edge `[n, n - 1]`. */
  lemma AdvanceEdges(s: TraceState, tp: TraceParams)
    requires s.ring != [] && WellFormed(s)
    ensures var t := Advance(s, tp);
      if t.ring != [] then WellFormed(t)
      else t.points == s.points && t.edges == s.edges + [Edge(|s.points|, |s.points| - 1)]
  {
    ExtendEdges(s, Advected(s.ring, tp), NextRing(s.ring, tp));
  }

  /** Link `i` of a pass starts at the stored entry of the previous ring's
      point `i`, which holds its position before the step, and ends at the
      new point nearest to its position after the step: the previous ring is
      advanced in place, so the distances are measured from the advected
      points. */
  lemma AdvanceLinks(s: TraceState, tp: TraceParams, i: nat)
    requires s.ring != [] && RingIsTail(s) && i < |s.ring|
    requires NextRing(s.ring, tp) != []
    ensures var t := Advance(s, tp);
      var k := Nearest(Advect(s.ring[i], tp), t.ring);
      && |t.edges| == |s.edges| + |t.ring| + |s.ring|
      && 0 <= k < |t.ring|
      && t.edges[|s.edges| + |t.ring| + i] == Edge(|s.points| - |s.ring| + i, |s.points| + k)
      && t.points[|s.points| - |s.ring| + i] == s.ring[i]
      && t.points[|s.points| + k] == t.ring[k]
  {
    ExtendLinks(s, Advected(s.ring, tp), NextRing(s.ring, tp), i);
  }

  /** `v` extends `u`: the points and edges of `u` are a prefix of those
      of `v`. */
  predicate Appends(u: TraceState, v: TraceState)
  {
    && |u.points| <= |v.points| && v.points[..|u.points|] == u.points
    && |u.edges| <= |v.edges| && v.edges[..|u.edges|] == u.edges
  }

  lemma AppendsTransitive(u: TraceState, v: TraceState, w: TraceState)
    requires Appends(u, v) && Appends(v, w)
    ensures Appends(u, w)
  {
    assert w.points[..|u.points|] == w.points[..|v.points|][..|u.points|];
    assert w.edges[..|u.edges|] == w.edges[..|v.edges|][..|u.edges|];
  }

  /** A run of a step that only appends only appends, makes at most
      `budget` steps, at least one when it can, and stops early only once
      the ring is empty. */
  lemma {:induction false} RunAppends(s: TraceState, step: TraceState -> TraceState, budget: nat)
    requires forall u: TraceState :: u.ring != [] ==> Appends(u, step(u))
    ensures Appends(s, Run(s, step, budget))
    ensures Runs(s, step, budget) <= budget
    ensures Runs(s, step, budget) < budget ==> Run(s, step, budget).ring == []
    ensures budget > 0 && s.ring != [] ==> Runs(s, step, budget) >= 1
    decreases budget
  {
    if budget > 0 && s.ring != [] {
      RunAppends(step(s), step, budget - 1);
      AppendsTransitive(s, step(s), Run(step(s), step, budget - 1));
    }
  }

  /** A property that every step from a non-empty ring preserves holds
      after any run. */
  lemma {:induction false} RunPreserves(s: TraceState, step: TraceState -> TraceState, budget: nat,
                                        inv: TraceState -> bool)
    requires inv(s)
    requires forall u :: inv(u) && u.ring != [] ==> inv(step(u))
    ensures inv(Run(s, step, budget))
    decreases budget
  {
    if budget > 0 && s.ring != [] {
      RunPreserves(step(s), step, budget - 1, inv);
    }
  }

  /** Tracing only appends to the points and the edges, makes at most
      `budget` passes, makes at least one when it can, and stops early only
      when the ring is empty. */
  lemma TraceAppends(s: TraceState, tp: TraceParams, budget: nat)
    ensures Appends(s, Trace(s, tp, budget))
    ensures Passes(s, tp, budget) <= budget
    ensures Passes(s, tp, budget) < budget ==> Trace(s, tp, budget).ring == []
    ensures budget > 0 && s.ring != [] ==> Passes(s, tp, budget) >= 1
  {
    forall u: TraceState | u.ring != [] ensures Appends(u, PassOf(tp)(u)) {
      AdvanceAppends(u, tp);
    }
    RunAppends(s, PassOf(tp), budget);
  }

  function TailHolds(): TraceState -> bool
  {
    t => RingIsTail(t)
  }

  /** Tracing keeps the current ring at the end of the stored points. */
  lemma TraceKeepsTail(s: TraceState, tp: TraceParams, budget: nat)
    requires RingIsTail(s)
    ensures RingIsTail(Trace(s, tp, budget))
  {
    forall u | TailHolds()(u) && u.ring != [] ensures TailHolds()(PassOf(tp)(u)) {
      AdvanceAppends(u, tp);
    }
    RunPreserves(s, PassOf(tp), budget, TailHolds());
  }

  /** Well formed, or emptied by the last pass: then every edge but the
      last joins stored points, and the last is `[n, n - 1]` with `n`
      stored points. */
  predicate EndsWell(t: TraceState)
  {
    || WellFormed(t)
    || (&& t.ring == [] && RingIsTail(t) && |t.edges| >= 1
        && EdgesWithin(t.edges[..|t.edges| - 1], 0, |t.points|)
        && t.edges[|t.edges| - 1] == Edge(|t.points|, |t.points| - 1))
  }

  function EndsWellHolds(): TraceState -> bool
  {
    t => EndsWell(t)
  }

  /** A pass from a well-formed state ends well, whether or not its ring
      empties. */
  lemma AdvanceEndsWell(s: TraceState, tp: TraceParams)
    requires s.ring != [] && WellFormed(s)
    ensures EndsWell(Advance(s, tp))
  {
    AdvanceEdges(s, tp);
    var t := Advance(s, tp);
    if t.ring == [] {
      assert t.edges[..|t.edges| - 1] == s.edges;
    }
  }

  /** Tracing from a well-formed state ends well formed, except when the
      ring became empty in the last pass: then every edge but the last joins
      stored points, and the last is `[n, n - 1]` with `n` stored points. */
  lemma TraceEdges(s: TraceState, tp: TraceParams, budget: nat)
    requires WellFormed(s)
    ensures EndsWell(Trace(s, tp, budget))
  {
    forall u | EndsWellHolds()(u) && u.ring != [] ensures EndsWellHolds()(PassOf(tp)(u)) {
      AdvanceEndsWell(u, tp);
    }
    RunPreserves(s, PassOf(tp), budget, EndsWellHolds());
  }

  /** A pass with budget left and a non-empty ring hands the rest of the
      budget to the next state. */
  lemma TraceStep(s: TraceState, tp: TraceParams, budget: nat)
    requires budget >= 1 && s.ring != []
    ensures Trace(s, tp, budget) == Trace(Advance(s, tp), tp, budget - 1)
  {
  }

  /** The seed state is well formed when there is at least one ring point,
      and stores the null first. */
  lemma SeedWellFormed(origin: Vec3, ring: seq<Vec3>)
    requires |ring| >= 1
    ensures WellFormed(SeedState(origin, ring))
    ensures SeedState(origin, ring).points[0] == origin
  {
    SeedEdgesShape(|ring|);
    assert ([origin] + ring)[1..] == ring;
  }

  /** Every surface traced from a seed keeps the null as its first point and
      the seed ring and its edges in front, and joins only stored points
      unless its last ring left the domain. */
  lemma TraceFromSeed(origin: Vec3, ring: seq<Vec3>, tp: TraceParams, budget: nat)
    requires |ring| >= 1
    ensures var t := Trace(SeedState(origin, ring), tp, budget);
      && |t.points| >= |ring| + 1
      && t.points[0] == origin
      && t.points[1..|ring| + 1] == ring
      && |t.edges| >= 2 * |ring|
      && t.edges[..2 * |ring|] == SeedEdges(|ring|)
      && EndsWell(t)
  {
    var s := SeedState(origin, ring);
    SeedWellFormed(origin, ring);
    SeedEdgesShape(|ring|);
    TraceAppends(s, tp, budget);
    TraceEdges(s, tp, budget);
    var t := Trace(s, tp, budget);
    assert t.edges[..2 * |ring|] == s.edges;
    assert t.points[0] == t.points[..|s.points|][0];
    assert t.points[1..|ring| + 1] == t.points[..|s.points|][1..];
  }

  /** The advection loop: every ring point is replaced, in place, by its
      advected position. */
  method AdvectRing(ring: array<Vec3>, tp: TraceParams)
    modifies ring
    ensures ring[..] == Advected(old(ring[..]), tp)
  {
    for i := 0 to ring.Length
      invariant forall j :: 0 <= j < i ==> ring[j] == Advect(old(ring[j]), tp)
      invariant forall j :: i <= j < ring.Length ==> ring[j] == old(ring[j])
    {
      var point := ring[i];
      var fieldNorm := Scale(tp.field(point), tp.sign as real);
      fieldNorm := tp.normalize(fieldNorm);
      point := Add(point, Scale(fieldNorm, tp.delta));
      ring[i] := point;
    }
  }

  /** The clipping loop: the refined points inside the domain form the new
      ring and are appended to the stored points as they are found. */
  method ClipInto(dense: seq<Vec3>, lo: Vec3, hi: Vec3, points: seq<Vec3>)
    returns (ringNew: seq<Vec3>, stored: seq<Vec3>)
    ensures ringNew == Clipped(dense, lo, hi)
    ensures stored == points + ringNew
  {
    ringNew, stored := [], points;
    for i := 0 to |dense|
      invariant ringNew == Clipped(dense[..i], lo, hi)
      invariant stored == points + ringNew
    {
      assert dense[..i + 1][..i] == dense[..i];
      if InOpenBox(dense[i], lo, hi) {
        ringNew := ringNew + [dense[i]];
        stored := stored + [dense[i]];
      }
    }
    assert dense[..|dense|] == dense;
  }

  /** The loop closing a ring of `m` points stored from `offset` on. */
  method CloseRing(edges: seq<Edge>, offset: int, m: nat) returns (closed: seq<Edge>)
    ensures closed == edges + RingEdges(offset, m)
  {
    closed := edges;
    var p := 0;
    while p < m - 1
      invariant p <= if m == 0 then 0 else m - 1
      invariant closed == edges + Chain(offset, p)
    {
      closed := closed + [Edge(offset + p, offset + p + 1)];
      p := p + 1;
    }
    closed := closed + [Edge(offset, offset + m - 1)];
  }

  /** The loop linking every previous ring point to its nearest point on the
      new ring. */
  method LinkRings(edges: seq<Edge>, ringOld: array<Vec3>, ring: array<Vec3>, offset: int)
    returns (linked: seq<Edge>)
    ensures linked == edges + Links(ringOld[..], ring[..], offset)
  {
    linked := edges;
    for i := 0 to ringOld.Length
      invariant linked == edges + LinksUpTo(ringOld[..], ring[..], offset, i)
    {
      var pointOld := ringOld[i];
      var idxMin := NearestIndex(pointOld, ring);
      if idxMin > -1 {
        linked := linked + [Edge(offset + i, offset + idxMin + ringOld.Length)];
      }
    }
  }

  /** The seeding loops: the null is stored first, then every seed ring
      point with a spoke from the null to it, then the edges closing the
      seed ring. */
  method Seed(origin: Vec3, normal: Vec3, fan0: Vec3, circle: (nat, nat) -> Trig,
              d: nat, delta: real)
    returns (separatrices: seq<Vec3>, connectivity: seq<Edge>, ring: array<Vec3>)
    requires d >= 1
    ensures fresh(ring)
    ensures TraceState(separatrices, connectivity, ring[..])
         == SeedState(origin, SeedRing(origin, normal, fan0, circle, d, delta))
  {
    ghost var seedRing := SeedRing(origin, normal, fan0, circle, d, delta);
    separatrices := [origin];
    connectivity := [];
    var seed: seq<Vec3> := [];
    for k := 0 to d
      invariant seed == seedRing[..k]
      invariant separatrices == [origin] + seed
      invariant connectivity == Spokes(k)
    {
      seed := seed + [Add(origin, Scale(Rotate(normal, fan0, circle(k, d)), delta))];
      separatrices := separatrices + [seed[|seed| - 1]];
      connectivity := connectivity + [Edge(0, |seed|)];
    }
    for idx := 0 to d - 1
      invariant connectivity == Spokes(d) + Chain(1, idx)
    {
      connectivity := connectivity + [Edge(idx + 1, idx + 2)];
    }
    connectivity := connectivity + [Edge(1, d)];
    assert seed == seedRing;
    ring := new Vec3[d](k requires 0 <= k < d => seed[k]);
    assert ring[..] == seed;
  }

  /** The surface of one null: seed the ring, then make passes while the
      ring is non-empty and fewer than `iterMax` passes were made. */
  method TraceNull(origin: Vec3, normal: Vec3, fan0: Vec3, circle: (nat, nat) -> Trig,
                   d: nat, tp: TraceParams, iterMax: int)
    returns (separatrices: seq<Vec3>, connectivity: seq<Edge>)
    requires d >= 1
    ensures var t := Trace(SeedState(origin, SeedRing(origin, normal, fan0, circle, d, tp.delta)), tp, Budget(iterMax));
      separatrices == t.points && connectivity == t.edges
  {
    var ring;
    separatrices, connectivity, ring := Seed(origin, normal, fan0, circle, d, tp.delta);
    separatrices, connectivity := TraceRings(ring, separatrices, connectivity, tp, iterMax);
  }

  /** The `while tracing and iteration < iter_max` loop: passes until the
      ring is empty or `iter_max` passes are done. */
  method TraceRings(ring: array<Vec3>, points: seq<Vec3>, edges: seq<Edge>, tp: TraceParams, iterMax: int)
    returns (separatrices: seq<Vec3>, connectivity: seq<Edge>)
    requires ring.Length >= 1
    modifies ring
    ensures var t := Trace(TraceState(points, edges, old(ring[..])), tp, Budget(iterMax));
      separatrices == t.points && connectivity == t.edges
  {
    var current := ring;
    separatrices, connectivity := points, edges;
    ghost var state := TraceState(separatrices, connectivity, current[..]);
    ghost var goal := Trace(state, tp, Budget(iterMax));
    var tracing := true;
    var iteration := 0;
    while tracing && iteration < iterMax
      invariant current == ring || fresh(current)
      invariant state == TraceState(separatrices, connectivity, current[..])
      invariant 0 <= iteration <= Budget(iterMax)
      invariant tracing <==> state.ring != []
      invariant Trace(state, tp, Budget(iterMax) - iteration) == goal
      decreases Budget(iterMax) - iteration
    {
      TraceStep(state, tp, Budget(iterMax) - iteration);
      current, separatrices, connectivity := Pass(current, separatrices, connectivity, tp);
      state := Advance(state, tp);
      iteration := iteration + 1;
      if current.Length == 0 {
        tracing := false;
      }
    }
    assert Trace(state, tp, Budget(iterMax) - iteration) == state;
  }

  /** The body of the tracing loop: advect the ring in place, refine and
      clip it into a new ring stored behind the points, then close the new
      ring and link the old ring to it. */
  method Pass(ring: array<Vec3>, separatrices: seq<Vec3>, connectivity: seq<Edge>, tp: TraceParams)
    returns (ringNext: array<Vec3>, points: seq<Vec3>, edges: seq<Edge>)
    requires ring.Length > 0
    modifies ring
    ensures fresh(ringNext)
    ensures TraceState(points, edges, ringNext[..])
         == Advance(TraceState(separatrices, connectivity, old(ring[..])), tp)
  {
    ghost var prev := ring[..];
    var ringOld := ring;
    var ringNew;
    ringNew, points := AdvanceRing(ring, separatrices, tp);
    ringNext, edges := Connect(connectivity, ringOld, ringNew, |points|);
  }

  /** The first half of a pass: the ring is advected in place, refined, and
      the refined points inside the domain become the new ring, appended to
      the stored points. */
  method AdvanceRing(ring: array<Vec3>, separatrices: seq<Vec3>, tp: TraceParams)
    returns (ringNew: seq<Vec3>, points: seq<Vec3>)
    requires ring.Length > 0
    modifies ring
    ensures ring[..] == Advected(old(ring[..]), tp)
    ensures ringNew == NextRing(old(ring[..]), tp)
    ensures points == separatrices + ringNew
  {
    AdvectRing(ring, tp);
    var dense := Densify(ring, tp.delta);
    ringNew, points := ClipInto(dense, tp.lo, tp.hi, separatrices);
  }

  /** The second half of a pass: the new ring, the last of `n` stored
      points, is closed into a ring and becomes an array, and every point of
      the old ring is linked to its nearest new point. */
  method Connect(connectivity: seq<Edge>, ringOld: array<Vec3>, ringNew: seq<Vec3>, n: nat)
    returns (ringNext: array<Vec3>, edges: seq<Edge>)
    requires |ringNew| <= n
    ensures fresh(ringNext)
    ensures ringNext[..] == ringNew
    ensures edges == connectivity + RingEdges(n - |ringNew|, |ringNew|)
                     + Links(ringOld[..], ringNew, n - ringOld.Length - |ringNew|)
  {
    edges := CloseRing(connectivity, n - |ringNew|, |ringNew|);
    ringNext := new Vec3[|ringNew|](k requires 0 <= k < |ringNew| => ringNew[k]);
    assert ringNext[..] == ringNew;
    edges := LinkRings(edges, ringOld, ringNext, n - ringOld.Length - ringNext.Length);
  }
}
