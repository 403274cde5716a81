/** The separatrix finder: at every null the field is linearised by central
    differences, the null is classified by the sign of the determinant of
    that matrix, and for an x-type null the fan surface is traced from a ring
    of seeds around it. */
module Separatrices {
  import opened Geometry
  import opened Grid
  import opened Sequences
  import opened Rings
  import opened Rotation
  import opened Tracing
  import opened NullPoints

  /** An eigenvalue of the linearisation and its eigenvector. */
  datatype Eigen = Eigen(value: real, vector: Vec3)

  /** What the finder is given besides the nulls: the interpolated field
      (`vec_int`), the grid, the eigen-decomposition (`np.linalg.eig`), the
      normalisation of a vector to unit length, the cosine and sine of the
      `k`-th of `d` equally spaced angles, the lower and upper domain corners
      (`var.x[0]` ... and `var.x[-1]` ...), the step length `delta`,
      `iter_max` and `ring_density`. */
  datatype Setting = Setting(field: Vec3 -> Vec3, g: Coordinates, eig: Mat3 -> seq<Eigen>,
                             normalize: Vec3 -> Vec3, circle: (nat, nat) -> Trig,
                             lo: Vec3, hi: Vec3, delta: real, iterMax: int, density: int)

  /** The grid spacings are positive. */
  predicate Spaced(g: Coordinates)
  {
    g.dx > 0.0 && g.dy > 0.0 && g.dz > 0.0
  }

  function Min3(a: real, b: real, c: real): (m: real)
    ensures m <= a && m <= b && m <= c
    ensures m == a || m == b || m == c
  {
    if a <= b && a <= c then a else if b <= c then b else c
  }

  /** The half-width of the central differences: a tenth of the smallest
      grid spacing. */
  function Width(g: Coordinates): (dd: real)
    requires Spaced(g)
    ensures 0.0 < dd && dd * 10.0 <= g.dx && dd * 10.0 <= g.dy && dd * 10.0 <= g.dz
  {
    Min3(g.dx, g.dy, g.dz) / 10.0
  }

  /** The central difference of the field at `p` along the offset `e`. */
  function Difference(field: Vec3 -> Vec3, p: Vec3, e: Vec3, dd: real): Vec3
    requires dd != 0.0
  {
    Scale(Sub(field(Add(p, e)), field(Sub(p, e))), 1.0 / (2.0 * dd))
  }

  /** `__grad_field`: row `i` holds the derivative of the field along axis
      `i`. */
  function GradField(field: Vec3 -> Vec3, p: Vec3, dd: real): Mat3
    requires dd != 0.0
  {
    Mat3(Difference(field, p, Vec3(dd, 0.0, 0.0), dd),
         Difference(field, p, Vec3(0.0, dd, 0.0), dd),
         Difference(field, p, Vec3(0.0, 0.0, dd), dd))
  }

  /** The determinant, expanded along the first row. */
  function Det(m: Mat3): real
  {
    m.r0.x * (m.r1.y * m.r2.z - m.r1.z * m.r2.y)
    - m.r0.y * (m.r1.x * m.r2.z - m.r1.z * m.r2.x)
    + m.r0.z * (m.r1.x * m.r2.y - m.r1.y * m.r2.x)
  }

  function Values(e: seq<Eigen>): (v: seq<real>)
    ensures |v| == |e| && forall i :: 0 <= i < |e| ==> v[i] == e[i].value
  {
    seq(|e|, i requires 0 <= i < |e| => e[i].value)
  }

  function Vectors(e: seq<Eigen>): (v: seq<Vec3>)
    ensures |v| == |e| && forall i :: 0 <= i < |e| ==> v[i] == e[i].vector
  {
    seq(|e|, i requires 0 <= i < |e| => e[i].vector)
  }

  /** The eigenvectors whose eigenvalue has sign `s`, in order: the selection
      `eigen_vectors[np.where(np.sign(eigen_values) ...)]`. */
  function Fan(e: seq<Eigen>, s: int): seq<Vec3>
  {
    if e == [] then []
    else Fan(e[..|e| - 1], s) + (if Sign(e[|e| - 1].value) == s then [e[|e| - 1].vector] else [])
  }

  /** How a null is traced: not at all (zero determinant), or in direction
      `sign` with the fan vectors `fan`. */
  datatype Kind = NotXType | XType(sign: int, fan: seq<Vec3>)

  /** A negative determinant traces forwards along the eigenvectors of
      positive eigenvalues, a positive one backwards along those of negative
      eigenvalues. */
  function Classify(det: real, e: seq<Eigen>): (k: Kind)
    ensures k.NotXType? <==> det == 0.0
    ensures k.XType? ==> (k.sign == 1 <==> det < 0.0) && (k.sign == -1 <==> det > 0.0)
  {
    if det < 0.0 then XType(1, Fan(e, 1))
    else if det > 0.0 then XType(-1, Fan(e, -1))
    else NotXType
  }

  /** What is stored for every null that gets past the fan test: the
      eigenvalues, the eigenvectors, the trace sign, the fan vectors and the
      unit normal of the fan plane. */
  datatype Head = Head(values: seq<real>, vectors: seq<Vec3>, sign: int, fan: seq<Vec3>, normal: Vec3)

  /** The result of one null: skipped as not x-type; an `IndexError` because
      fewer than two fan vectors exist; an error from the seeding because
      `ring_density` is not positive, after the head was stored; or a traced
      surface. */
  datatype Outcome =
    | Skipped
    | NoFan
    | Raised(head: Head)
    | Traced(head: Head, points: seq<Vec3>, edges: seq<Edge>)

  /** The tracing parameters of a null with trace sign `sign`. */
  function Params(env: Setting, sign: int): TraceParams
  {
    TraceParams(env.field, env.normalize, sign, env.delta, env.lo, env.hi)
  }

  /** The body of the loop over the nulls, for the null `p`. */
  function Analyse(p: Vec3, env: Setting): Outcome
    requires Spaced(env.g)
  {
    var m := GradField(env.field, p, Width(env.g));
    var e := env.eig(m);
    match Classify(Det(m), e)
    case NotXType => Skipped
    case XType(sign, fan) =>
      if |fan| < 2 then NoFan
      else
        var normal := env.normalize(Cross(fan[0], fan[1]));
        var head := Head(Values(e), Vectors(e), sign, fan, normal);
        if env.density < 1 then Raised(head)
        else
          var ring := SeedRing(p, normal, fan[0], env.circle, env.density, env.delta);
          var t := Trace(SeedState(p, ring), Params(env, sign), Budget(env.iterMax));
          Traced(head, t.points, t.edges)
  }

  /** The eight lists of a `Separatrix` object but `lines`. */
  datatype Layers = Layers(values: seq<seq<real>>, vectors: seq<seq<Vec3>>, signs: seq<int>,
                           fans: seq<seq<Vec3>>, normals: seq<Vec3>,
                           surfaces: seq<seq<Vec3>>, connections: seq<seq<Edge>>)

  /** The lists after a scan, and whether it ran to the end without raising. */
  datatype Scanned = Scanned(ok: bool, layers: Layers)

  function WithHead(l: Layers, h: Head): Layers
  {
    l.(values := l.values + [h.values], vectors := l.vectors + [h.vectors], signs := l.signs + [h.sign],
       fans := l.fans + [h.fan], normals := l.normals + [h.normal])
  }

  function WithSurface(l: Layers, points: seq<Vec3>, edges: seq<Edge>): Layers
  {
    l.(surfaces := l.surfaces + [points], connections := l.connections + [edges])
  }

  /** Storing the outcome of one null. */
  function Record(l: Layers, o: Outcome): Scanned
  {
    match o
    case Skipped => Scanned(true, l)
    case NoFan => Scanned(false, l)
    case Raised(h) => Scanned(false, WithHead(l, h))
    case Traced(h, points, edges) => Scanned(true, WithSurface(WithHead(l, h), points, edges))
  }

  /** The loop over the nulls from the lists `start`, stopping at the first
      null that raises. */
  function Scan(start: Layers, nulls: seq<Vec3>, env: Setting): Scanned
    requires Spaced(env.g)
  {
    if nulls == [] then Scanned(true, start)
    else
      var before := Scan(start, nulls[..|nulls| - 1], env);
      if !before.ok then before else Record(before.layers, Analyse(nulls[|nulls| - 1], env))
  }

  /** A null the loop passes over without raising. */
  predicate Continues(o: Outcome)
  {
    o.Skipped? || o.Traced?
  }

  function TracedHere(env: Setting): Vec3 -> bool
    requires Spaced(env.g)
  {
    p => Analyse(p, env).Traced?
  }

  // ---------------------------------------------------------------------
  // The fan and the classification

  /** The fan holds exactly the eigenvectors whose eigenvalue has sign `s`,
      and no more vectors than there are eigenpairs. */
  lemma {:induction false} FanMembers(e: seq<Eigen>, s: int)
    ensures |Fan(e, s)| <= |e|
    ensures forall v :: v in Fan(e, s) <==>
      exists i :: 0 <= i < |e| && e[i].vector == v && Sign(e[i].value) == s
  {
    if e != [] {
      var init := e[..|e| - 1];
      FanMembers(init, s);
      forall v | v in Fan(e, s)
        ensures exists i :: 0 <= i < |e| && e[i].vector == v && Sign(e[i].value) == s
      {
        if v in Fan(init, s) {
          var i :| 0 <= i < |init| && init[i].vector == v && Sign(init[i].value) == s;
          assert e[i] == init[i];
        } else {
          assert e[|e| - 1].vector == v;
        }
      }
      forall v | exists i :: 0 <= i < |e| && e[i].vector == v && Sign(e[i].value) == s
        ensures v in Fan(e, s)
      {
        var i :| 0 <= i < |e| && e[i].vector == v && Sign(e[i].value) == s;
        if i < |e| - 1 {
          assert init[i] == e[i];
        }
      }
    }
  }

  /** Every eigenpair with its eigenvalue negated. */
  function Negated(e: seq<Eigen>): (n: seq<Eigen>)
    ensures |n| == |e|
    ensures forall i :: 0 <= i < |e| ==> n[i] == Eigen(-e[i].value, e[i].vector)
  {
    seq(|e|, i requires 0 <= i < |e| => Eigen(-e[i].value, e[i].vector))
  }

  lemma {:induction false} FanOfNegated(e: seq<Eigen>, s: int)
    ensures Fan(Negated(e), -s) == Fan(e, s)
  {
    if e != [] {
      var init := e[..|e| - 1];
      assert Negated(e)[..|e| - 1] == Negated(init);
      FanOfNegated(init, s);
    }
  }

  /** Negating the determinant and every eigenvalue keeps the fan and
      reverses the trace direction. */
  lemma ClassifyMirror(det: real, e: seq<Eigen>)
    ensures match Classify(det, e)
      case NotXType => Classify(-det, Negated(e)) == NotXType
      case XType(s, fan) => Classify(-det, Negated(e)) == XType(-s, fan)
  {
    FanOfNegated(e, 1);
    FanOfNegated(e, -1);
  }

  /** The field reversed, as `-B`. */
  function Reversed(field: Vec3 -> Vec3): Vec3 -> Vec3
  {
    p => Scale(field(p), -1.0)
  }

  lemma NegatedQuotient(a: real, b: real, r: real)
    ensures (a * -1.0 - b * -1.0) * r == ((a - b) * r) * -1.0
  {
  }

  lemma NegatedDifference(a: Vec3, b: Vec3, r: real)
    ensures Scale(Sub(Scale(a, -1.0), Scale(b, -1.0)), r) == Scale(Scale(Sub(a, b), r), -1.0)
  {
    NegatedQuotient(a.x, b.x, r);
    NegatedQuotient(a.y, b.y, r);
    NegatedQuotient(a.z, b.z, r);
  }

  lemma ReversedDifference(field: Vec3 -> Vec3, p: Vec3, e: Vec3, dd: real)
    requires dd != 0.0
    ensures Difference(Reversed(field), p, e, dd) == Scale(Difference(field, p, e, dd), -1.0)
  {
    var a, b := field(Add(p, e)), field(Sub(p, e));
    assert Reversed(field)(Add(p, e)) == Scale(a, -1.0);
    assert Reversed(field)(Sub(p, e)) == Scale(b, -1.0);
    NegatedDifference(a, b, 1.0 / (2.0 * dd));
  }

  lemma DetNegated(m: Mat3)
    ensures Det(MatScale(m, -1.0)) == -Det(m)
  {
  }

  /** Reversing the field negates its linearisation and hence its
      determinant. */
  lemma ReversedGradField(field: Vec3 -> Vec3, p: Vec3, dd: real)
    requires dd != 0.0
    ensures GradField(Reversed(field), p, dd) == MatScale(GradField(field, p, dd), -1.0)
    ensures Det(GradField(Reversed(field), p, dd)) == -Det(GradField(field, p, dd))
  {
    ReversedDifference(field, p, Vec3(dd, 0.0, 0.0), dd);
    ReversedDifference(field, p, Vec3(0.0, dd, 0.0), dd);
    ReversedDifference(field, p, Vec3(0.0, 0.0, dd), dd);
    DetNegated(GradField(field, p, dd));
  }

  /** Reversing the field reverses the trace direction at every null and
      keeps its fan, provided the eigen-decomposition of the negated matrix
      is the negated eigen-decomposition, as it is for exact arithmetic. */
  lemma ReversedFieldMirror(p: Vec3, env: Setting)
    requires Spaced(env.g)
    requires var m := GradField(env.field, p, Width(env.g));
      env.eig(MatScale(m, -1.0)) == Negated(env.eig(m))
    ensures var m := GradField(env.field, p, Width(env.g));
      var r := GradField(Reversed(env.field), p, Width(env.g));
      match Classify(Det(m), env.eig(m))
      case NotXType => Classify(Det(r), env.eig(r)) == NotXType
      case XType(s, fan) => Classify(Det(r), env.eig(r)) == XType(-s, fan)
  {
    var m := GradField(env.field, p, Width(env.g));
    ReversedGradField(env.field, p, Width(env.g));
    ClassifyMirror(Det(m), env.eig(m));
  }

  // ---------------------------------------------------------------------
  // One null

  /** The outcome of a null is decided, in this order, by a zero
      determinant, by fewer than two fan vectors and by a non-positive ring
      density. */
  lemma AnalyseCases(p: Vec3, env: Setting)
    requires Spaced(env.g)
    ensures var m := GradField(env.field, p, Width(env.g));
      var k := Classify(Det(m), env.eig(m));
      && (Analyse(p, env).Skipped? <==> Det(m) == 0.0)
      && (Analyse(p, env).NoFan? <==> Det(m) != 0.0 && |k.fan| < 2)
      && (Analyse(p, env).Raised? <==> Det(m) != 0.0 && |k.fan| >= 2 && env.density < 1)
      && (Analyse(p, env).Traced? <==> Det(m) != 0.0 && |k.fan| >= 2 && env.density >= 1)
  {
  }

  /** A stored head has trace sign 1 or -1, at least two fan vectors, each an
      eigenvector whose eigenvalue has the trace sign, and eigenvalues and
      eigenvectors in matching number. */
  predicate GoodHead(h: Head)
  {
    && (h.sign == 1 || h.sign == -1)
    && |h.fan| >= 2
    && |h.values| == |h.vectors|
    && forall v :: v in h.fan ==>
         exists i :: 0 <= i < |h.values| && h.vectors[i] == v && Sign(h.values[i]) == h.sign
  }

  lemma HeadIsGood(p: Vec3, env: Setting)
    requires Spaced(env.g)
    requires Analyse(p, env).Raised? || Analyse(p, env).Traced?
    ensures GoodHead(Analyse(p, env).head)
  {
    var m := GradField(env.field, p, Width(env.g));
    var e := env.eig(m);
    var h := Analyse(p, env).head;
    FanMembers(e, h.sign);
    forall v | v in h.fan
      ensures exists i :: 0 <= i < |h.values| && h.vectors[i] == v && Sign(h.values[i]) == h.sign
    {
      var i :| 0 <= i < |e| && e[i].vector == v && Sign(e[i].value) == h.sign;
      assert h.vectors[i] == v && h.values[i] == e[i].value;
    }
  }

  /** `normalize` only rescales its argument. */
  ghost predicate Rescales(normalize: Vec3 -> Vec3)
  {
    forall v :: exists k :: normalize(v) == Scale(v, k)
  }

  /** When the normalisation only rescales, the stored normal is
      perpendicular to the first two fan vectors. */
  lemma NormalIsPerpendicular(p: Vec3, env: Setting)
    requires Spaced(env.g) && Rescales(env.normalize)
    requires Analyse(p, env).Raised? || Analyse(p, env).Traced?
    ensures var h := Analyse(p, env).head;
      |h.fan| >= 2 && Perpendicular(h.normal, h.fan[0]) && Perpendicular(h.normal, h.fan[1])
  {
    var h := Analyse(p, env).head;
    var c := Cross(h.fan[0], h.fan[1]);
    var k :| env.normalize(c) == Scale(c, k);
    CrossIsPerpendicular(h.fan[0], h.fan[1]);
    PerpendicularIsSymmetric(h.fan[0], c);
    PerpendicularIsSymmetric(h.fan[1], c);
    PerpendicularScaled(h.fan[0], c, k);
    PerpendicularScaled(h.fan[1], c, k);
    PerpendicularIsSymmetric(h.fan[0], h.normal);
    PerpendicularIsSymmetric(h.fan[1], h.normal);
  }

  /** A traced surface starts with the null, then the seed ring, its spokes
      and its closing edges, and every edge but possibly the last joins two
      stored points. */
  lemma SurfaceShape(p: Vec3, env: Setting)
    requires Spaced(env.g)
    requires Analyse(p, env).Traced?
    ensures var o := Analyse(p, env);
      var d := env.density;
      && d >= 1
      && |o.points| >= d + 1 && o.points[0] == p
      && o.points[1..d + 1] == SeedRing(p, o.head.normal, o.head.fan[0], env.circle, d, env.delta)
      && |o.edges| >= 2 * d && o.edges[..2 * d] == SeedEdges(d)
      && EdgesWithin(o.edges[..|o.edges| - 1], 0, |o.points|)
  {
    var o := Analyse(p, env);
    var ring := SeedRing(p, o.head.normal, o.head.fan[0], env.circle, env.density, env.delta);
    var t := Trace(SeedState(p, ring), Params(env, o.head.sign), Budget(env.iterMax));
    TraceFromSeed(p, ring, Params(env, o.head.sign), Budget(env.iterMax));
    if WellFormed(t) {
      forall e | e in t.edges[..|t.edges| - 1] ensures 0 <= e.a < |t.points| && 0 <= e.b < |t.points| {
        assert e in t.edges;
      }
    }
  }

  /** The stored seed ring lies on the circle `SeedRingOnCircle` gives. */
  lemma StoredRingOnCircle(points: seq<Vec3>, p: Vec3, normal: Vec3, fan0: Vec3,
                           circle: (nat, nat) -> Trig, d: nat, delta: real)
    requires |points| >= d + 1 && points[1..d + 1] == SeedRing(p, normal, fan0, circle, d, delta)
    requires Unit(normal) && Perpendicular(normal, fan0)
    requires forall k :: 0 <= k < d ==> OnUnitCircle(circle(k, d))
    ensures forall k :: 1 <= k <= d ==>
      var v := Sub(points[k], p);
      Perpendicular(normal, v) && NormSq(v) == NormSq(Scale(fan0, delta))
  {
    SeedRingOnCircle(p, normal, fan0, circle, d, delta);
    forall k | 1 <= k <= d
      ensures var v := Sub(points[k], p);
        Perpendicular(normal, v) && NormSq(v) == NormSq(Scale(fan0, delta))
    {
      assert points[k] == points[1..d + 1][k - 1];
    }
  }

  /** With a unit normal from a rescaling normalisation and exact cosines
      and sines, every seed lies in the fan plane through the null at
      distance `|delta fan[0]|` from it. */
  lemma SeedsOnFanCircle(p: Vec3, env: Setting)
    requires Spaced(env.g) && Rescales(env.normalize)
    requires Analyse(p, env).Traced? && Unit(Analyse(p, env).head.normal)
    requires forall k :: 0 <= k < env.density ==> OnUnitCircle(env.circle(k, env.density))
    ensures var o := Analyse(p, env);
      && |o.points| >= env.density + 1
      && forall k :: 1 <= k <= env.density ==>
        var v := Sub(o.points[k], p);
        Perpendicular(o.head.normal, v) && NormSq(v) == NormSq(Scale(o.head.fan[0], env.delta))
  {
    var o := Analyse(p, env);
    NormalIsPerpendicular(p, env);
    SurfaceShape(p, env);
    StoredRingOnCircle(o.points, p, o.head.normal, o.head.fan[0], env.circle, env.density, env.delta);
  }

  // ---------------------------------------------------------------------
  // The loop over the nulls

  /** Once a null raises, later nulls change nothing. */
  lemma {:induction false} ScanStops(start: Layers, s: seq<Vec3>, t: seq<Vec3>, env: Setting)
    requires Spaced(env.g) && !Scan(start, s, env).ok
    ensures Scan(start, s + t, env) == Scan(start, s, env)
  {
    if t == [] {
      assert s + t == s;
    } else {
      ScanStops(start, s, t[..|t| - 1], env);
      assert (s + t)[..|s + t| - 1] == s + t[..|t| - 1];
    }
  }

  /** A scan one null further records that null's outcome. */
  lemma ScanNext(start: Layers, s: seq<Vec3>, n: nat, env: Setting)
    requires Spaced(env.g) && n < |s| && Scan(start, s[..n], env).ok
    ensures Scan(start, s[..n + 1], env) == Record(Scan(start, s[..n], env).layers, Analyse(s[n], env))
  {
    assert s[..n + 1][..n] == s[..n];
  }

  /** The loop runs to the end exactly when no null raises. */
  lemma {:induction false} ScanOk(start: Layers, s: seq<Vec3>, env: Setting)
    requires Spaced(env.g)
    ensures Scan(start, s, env).ok <==> forall i :: 0 <= i < |s| ==> Continues(Analyse(s[i], env))
  {
    if s != [] {
      var init := s[..|s| - 1];
      ScanOk(start, init, env);
      if Scan(start, init, env).ok {
        assert forall i :: 0 <= i < |init| ==> s[i] == init[i];
      } else {
        var i :| 0 <= i < |init| && !Continues(Analyse(init[i], env));
        assert s[i] == init[i];
      }
    }
  }

  /** The five head lists grow together, as do the two surface lists; a
      null that raises may leave one head without a surface, and a complete
      scan adds one head and one surface per traced null. */
  predicate Aligned(l: Layers)
  {
    && |l.vectors| == |l.values| && |l.signs| == |l.values|
    && |l.fans| == |l.values| && |l.normals| == |l.values|
    && |l.connections| == |l.surfaces|
  }

  lemma {:induction false} ScanCounts(start: Layers, s: seq<Vec3>, env: Setting)
    requires Spaced(env.g) && Aligned(start)
    ensures var r := Scan(start, s, env);
      && Aligned(r.layers)
      && |r.layers.normals| - |start.normals| <= |s|
      && (r.ok ==> |r.layers.normals| - |start.normals| == |r.layers.surfaces| - |start.surfaces|
                                                     == |Filter(s, TracedHere(env))|)
      && (!r.ok ==> |r.layers.surfaces| - |start.surfaces| <= |r.layers.normals| - |start.normals|
                                                      <= |r.layers.surfaces| - |start.surfaces| + 1)
  {
    if s != [] {
      var init := s[..|s| - 1];
      ScanCounts(start, init, env);
    }
  }

  /** Every list of `a` is a prefix of the same list of `b`. */
  predicate Grows(a: Layers, b: Layers)
  {
    && a.values <= b.values && a.vectors <= b.vectors && a.signs <= b.signs && a.fans <= b.fans
    && a.normals <= b.normals && a.surfaces <= b.surfaces && a.connections <= b.connections
  }

  /** Every head from index `from` on is good. */
  predicate GoodFrom(l: Layers, from: nat)
    requires Aligned(l)
  {
    forall j :: from <= j < |l.values| ==>
      GoodHead(Head(l.values[j], l.vectors[j], l.signs[j], l.fans[j], l.normals[j]))
  }

  lemma RecordGrows(l: Layers, p: Vec3, env: Setting, from: nat)
    requires Spaced(env.g) && Aligned(l) && GoodFrom(l, from)
    ensures var r := Record(l, Analyse(p, env)).layers;
      Grows(l, r) && Aligned(r) && GoodFrom(r, from)
  {
    var o := Analyse(p, env);
    if o.Raised? || o.Traced? {
      HeadIsGood(p, env);
    }
  }

  /** A scan only appends to the lists, and every head it adds is good. */
  lemma {:induction false} ScanHeads(start: Layers, s: seq<Vec3>, env: Setting)
    requires Spaced(env.g) && Aligned(start)
    ensures var l := Scan(start, s, env).layers;
      Grows(start, l) && Aligned(l) && GoodFrom(l, |start.values|)
  {
    if s != [] {
      var init := s[..|s| - 1];
      ScanHeads(start, init, env);
      var b := Scan(start, init, env);
      if b.ok {
        RecordGrows(b.layers, s[|s| - 1], env, |start.values|);
      }
    }
  }

  // ---------------------------------------------------------------------
  // The object

  /** The separatrix layers of a field: `lines` is never filled; the other
      lists grow by one entry per x-type null. */
  class Separatrix {
    var lines: seq<seq<Vec3>>
    var eigenValues: seq<seq<real>>
    var eigenVectors: seq<seq<Vec3>>
    var signTrace: seq<int>
    var fanVectors: seq<seq<Vec3>>
    var normals: seq<Vec3>
    var separatrices: seq<seq<Vec3>>
    var connectivity: seq<seq<Edge>>

    function Contents(): Layers
      reads this
    {
      Layers(eigenValues, eigenVectors, signTrace, fanVectors, normals, separatrices, connectivity)
    }

    constructor ()
      ensures lines == []
      ensures Contents() == Layers([], [], [], [], [], [], [])
    {
      lines := [];
      eigenValues := [];
      eigenVectors := [];
      signTrace := [];
      fanVectors := [];
      normals := [];
      separatrices := [];
      connectivity := [];
    }

    /** `find_separatrices`: the lists grow by the scan of the nulls of
        `nullPoint`; `ok` is false when a null raised and the loop stopped
        there. */
    method FindSeparatrices(nullPoint: NullPoint, env: Setting) returns (ok: bool)
      requires Spaced(env.g)
      modifies this
      ensures lines == old(lines)
      ensures Scan(old(Contents()), nullPoint.nulls, env) == Scanned(ok, Contents())
    {
      var nulls := nullPoint.nulls;
      ghost var start := Contents();
      ok := true;
      var n := 0;
      while n < |nulls|
        invariant 0 <= n <= |nulls|
        invariant lines == old(lines) && nulls == nullPoint.nulls
        invariant Scan(start, nulls[..n], env) == Scanned(true, Contents())
      {
        ScanNext(start, nulls, n, env);
        ok := StoreNull(nulls[n], env);
        if !ok {
          ScanStops(start, nulls[..n + 1], nulls[n + 1..], env);
          assert nulls[..n + 1] + nulls[n + 1..] == nulls;
          return;
        }
        n := n + 1;
      }
      assert nulls[..n] == nulls;
    }

    /** The body of the loop over the nulls: linearise, classify, store the
        head and trace the surface. `ok` is false where the source raises. */
    method StoreNull(origin: Vec3, env: Setting) returns (ok: bool)
      requires Spaced(env.g)
      modifies this
      ensures lines == old(lines)
      ensures Record(old(Contents()), Analyse(origin, env)) == Scanned(ok, Contents())
    {
      var gradField := GradField(env.field, origin, Width(env.g));
      var eigen := env.eig(gradField);
      var signTr: int, fan: seq<Vec3>;
      if Det(gradField) < 0.0 {
        signTr, fan := 1, Fan(eigen, 1);
      } else if Det(gradField) > 0.0 {
        signTr, fan := -1, Fan(eigen, -1);
      } else {
        return true;
      }
      if |fan| < 2 {
        return false;
      }
      var normal := env.normalize(Cross(fan[0], fan[1]));
      eigenValues := eigenValues + [Values(eigen)];
      eigenVectors := eigenVectors + [Vectors(eigen)];
      signTrace := signTrace + [signTr];
      fanVectors := fanVectors + [fan];
      normals := normals + [normal];
      if env.density < 1 {
        return false;
      }
      var points, edges := TraceNull(origin, normal, fan[0], env.circle, env.density,
                                     Params(env, signTr), env.iterMax);
      separatrices := separatrices + [points];
      connectivity := connectivity + [edges];
      ok := true;
    }
  }
}
