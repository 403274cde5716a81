/** Three-component real vectors, the axis-aligned boxes the skeleton finder
    tests points against, and the squared-distance comparisons it makes. */
module Geometry {

  /** A value that may be absent. */
  datatype Option<T> = None | Some(value: T)

  /** A point or a field value: the three components x, y, z. */
  datatype Vec3 = Vec3(x: real, y: real, z: real)

  /** One of the three coordinate axes, also used to name a field component. */
  datatype Axis = X | Y | Z

  function Comp(v: Vec3, a: Axis): real
  {
    match a
    case X => v.x
    case Y => v.y
    case Z => v.z
  }

  function Add(a: Vec3, b: Vec3): Vec3
  {
    Vec3(a.x + b.x, a.y + b.y, a.z + b.z)
  }

  function Sub(a: Vec3, b: Vec3): Vec3
  {
    Vec3(a.x - b.x, a.y - b.y, a.z - b.z)
  }

  function Scale(a: Vec3, s: real): Vec3
  {
    Vec3(a.x * s, a.y * s, a.z * s)
  }

  /** The midpoint `(a + b) / 2` inserted when a ring is densified. */
  function Mid(a: Vec3, b: Vec3): (m: Vec3)
    ensures Sub(m, a) == Sub(b, m)
  {
    Scale(Add(a, b), 0.5)
  }

  function Abs(r: real): (a: real)
    ensures a >= 0.0 && (a == r || a == -r)
  {
    if r < 0.0 then -r else r
  }

  /** The squared Euclidean distance between two points. */
  function DistSq(a: Vec3, b: Vec3): (d: real)
    ensures d >= 0.0
  {
    var e := Sub(a, b);
    e.x * e.x + e.y * e.y + e.z * e.z
  }

  /** `sqrt(DistSq(a, b)) > delta`, written without the square root: a
      non-negative distance exceeds a negative bound always, and a
      non-negative bound exactly when its square is exceeded. */
  predicate Far(a: Vec3, b: Vec3, delta: real)
  {
    delta < 0.0 || DistSq(a, b) > delta * delta
  }

  lemma FarIsSymmetric(a: Vec3, b: Vec3, delta: real)
    ensures DistSq(a, b) == DistSq(b, a)
    ensures Far(a, b, delta) <==> Far(b, a, delta)
  {
  }

  /** Sum of a sequence of vectors, as `np.sum(..., axis=0)`. */
  function Sum(s: seq<Vec3>): Vec3
  {
    if s == [] then Vec3(0.0, 0.0, 0.0) else Add(Sum(s[..|s| - 1]), s[|s| - 1])
  }

  /** The component-wise mean of a non-empty sequence, as `np.mean(..., axis=0)`. */
  function Mean(s: seq<Vec3>): Vec3
    requires s != []
  {
    var t := Sum(s);
    Vec3(Avg(t.x, |s|), Avg(t.y, |s|), Avg(t.z, |s|))
  }

  /** A total divided by the number of terms. */
  function Avg(total: real, n: nat): real
    requires n > 0
  {
    total / (n as real)
  }

  /** A closed axis-aligned box `[lo, hi]`. */
  predicate InClosedBox(p: Vec3, lo: Vec3, hi: Vec3)
  {
    lo.x <= p.x <= hi.x && lo.y <= p.y <= hi.y && lo.z <= p.z <= hi.z
  }

  /** Strictly inside the open box `(lo, hi)`. */
  predicate InOpenBox(p: Vec3, lo: Vec3, hi: Vec3)
  {
    lo.x < p.x < hi.x && lo.y < p.y < hi.y && lo.z < p.z < hi.z
  }

  /** Every point of `s` lies in the closed box `[lo, hi]`. */
  predicate AllInClosedBox(s: seq<Vec3>, lo: Vec3, hi: Vec3)
  {
    forall i :: 0 <= i < |s| ==> InClosedBox(s[i], lo, hi)
  }

  /** `n` copies of `r` added up. */
  function Times(r: real, n: nat): real
  {
    if n == 0 then 0.0 else Times(r, n - 1) + r
  }

  lemma {:induction false} TimesIsProduct(r: real, n: nat)
    ensures Times(r, n) == r * (n as real)
  {
    if n > 0 {
      TimesIsProduct(r, n - 1);
      assert r * (n as real) == r * ((n - 1) as real) + r;
    }
  }

  /** A sum of `|s|` points of the box `[lo, hi]` lies, component by
      component, between `|s|` times `lo` and `|s|` times `hi`. */
  lemma {:induction false} SumBounds(s: seq<Vec3>, lo: Vec3, hi: Vec3)
    requires AllInClosedBox(s, lo, hi)
    ensures Times(lo.x, |s|) <= Sum(s).x <= Times(hi.x, |s|)
    ensures Times(lo.y, |s|) <= Sum(s).y <= Times(hi.y, |s|)
    ensures Times(lo.z, |s|) <= Sum(s).z <= Times(hi.z, |s|)
  {
    if s != [] {
      var init := s[..|s| - 1];
      assert AllInClosedBox(init, lo, hi);
      assert InClosedBox(s[|s| - 1], lo, hi);
      SumBounds(init, lo, hi);
    }
  }

  /** The mean of points that all lie in a closed box lies in that box. */
  lemma MeanInBox(s: seq<Vec3>, lo: Vec3, hi: Vec3)
    requires s != []
    requires AllInClosedBox(s, lo, hi)
    ensures InClosedBox(Mean(s), lo, hi)
  {
    SumBounds(s, lo, hi);
    var t := Sum(s);
    AvgBounds(lo.x, t.x, hi.x, |s|);
    AvgBounds(lo.y, t.y, hi.y, |s|);
    AvgBounds(lo.z, t.z, hi.z, |s|);
  }

  /** A total of `n` terms that all lie in `[lo, hi]` averages into `[lo, hi]`. */
  lemma AvgBounds(lo: real, t: real, hi: real, n: nat)
    requires n > 0
    requires Times(lo, n) <= t <= Times(hi, n)
    ensures lo <= Avg(t, n) <= hi
  {
    TimesIsProduct(lo, n);
    TimesIsProduct(hi, n);
    var m := n as real;
    var q := t / m;
    assert t == q * m;
    assert (lo - q) * m <= 0.0;
    assert (q - hi) * m <= 0.0;
  }
}
