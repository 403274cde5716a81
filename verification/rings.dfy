/** The ring operations of the separatrix tracer: refining a ring where
    neighbouring points drift apart, dropping the points that leave the
    domain, and the connectivity recorded between ring points. */
module Rings {
  import opened Geometry
  import opened Sequences

  /** A line segment between two entries of the separatrix point list, by
      index (a row of `connectivity`). */
  datatype Edge = Edge(a: int, b: int)

  /** The first `n` points of the ring, with the midpoint of every
      consecutive pair further apart than `delta` inserted between them. */
  function Walk(r: seq<Vec3>, delta: real, n: nat): seq<Vec3>
    requires 1 <= n <= |r|
  {
    if n == 1 then [r[0]]
    else Walk(r, delta, n - 1)
         + (if Far(r[n - 2], r[n - 1], delta) then [Mid(r[n - 2], r[n - 1])] else [])
         + [r[n - 1]]
  }

  /** The closing midpoint: appended when the first and the last point are
      further apart than `delta`. */
  function Closing(r: seq<Vec3>, delta: real): seq<Vec3>
    requires |r| >= 1
  {
    if Far(r[0], r[|r| - 1], delta) then [Mid(r[0], r[|r| - 1])] else []
  }

  /** The refined ring: the walk over all consecutive pairs, then the
      closing midpoint. */
  function Densified(r: seq<Vec3>, delta: real): seq<Vec3>
    requires |r| >= 1
  {
    Walk(r, delta, |r|) + Closing(r, delta)
  }

  /** A point the refinement may insert: the midpoint of a consecutive pair,
      or of the closing pair, that is further apart than `delta`. */
  predicate Inserted(r: seq<Vec3>, delta: real, x: Vec3)
    requires |r| >= 1
  {
    || (exists i :: 0 <= i < |r| - 1 && Far(r[i], r[i + 1], delta) && x == Mid(r[i], r[i + 1]))
    || (Far(r[0], r[|r| - 1], delta) && x == Mid(r[0], r[|r| - 1]))
  }

  lemma {:induction false} WalkShape(r: seq<Vec3>, delta: real, n: nat)
    requires 1 <= n <= |r|
    ensures n <= |Walk(r, delta, n)| <= 2 * n - 1
    ensures Walk(r, delta, n)[0] == r[0]
    ensures Walk(r, delta, n)[|Walk(r, delta, n)| - 1] == r[n - 1]
    ensures Subseq(r[..n], Walk(r, delta, n))
    ensures forall x :: x in Walk(r, delta, n) ==> x in r[..n] || Inserted(r, delta, x)
  {
    if n > 1 {
      WalkShape(r, delta, n - 1);
      var w := Walk(r, delta, n - 1);
      var mid := if Far(r[n - 2], r[n - 1], delta) then [Mid(r[n - 2], r[n - 1])] else [];
      assert Walk(r, delta, n) == (w + mid) + [r[n - 1]];
      assert r[..n] == r[..n - 1] + [r[n - 1]];
      SubseqAppend(r[..n - 1], w, mid);
      SubseqTake(r[..n - 1], w + mid, r[n - 1]);
      forall x | x in Walk(r, delta, n) ensures x in r[..n] || Inserted(r, delta, x) {
        if x in w {
          assert x in r[..n - 1] || Inserted(r, delta, x);
        } else if x in mid {
          assert x == Mid(r[n - 2], r[n - 1]) && Far(r[n - 2], r[n - 1], delta);
        }
      }
    }
  }

  lemma SubseqAppend(r: seq<Vec3>, s: seq<Vec3>, t: seq<Vec3>)
    requires Subseq(r, s) && |t| <= 1
    ensures Subseq(r, s + t)
  {
    if |t| == 1 {
      assert s + t == s + [t[0]];
      SubseqSkip(r, s, t[0]);
    } else {
      assert s + t == s;
    }
  }

  /** Refinement starts with the first ring point, keeps every ring point in
      order, at most doubles the ring, and adds only midpoints of pairs that
      are further apart than `delta`. */
  lemma DensifiedShape(r: seq<Vec3>, delta: real)
    requires |r| >= 1
    ensures |r| <= |Densified(r, delta)| <= 2 * |r|
    ensures Densified(r, delta)[0] == r[0]
    ensures Subseq(r, Densified(r, delta))
    ensures forall x :: x in Densified(r, delta) ==> x in r || Inserted(r, delta, x)
  {
    WalkShape(r, delta, |r|);
    assert r[..|r|] == r;
    SubseqAppend(r, Walk(r, delta, |r|), Closing(r, delta));
  }

  /** The closing midpoint, when there is one, is the last point; otherwise
      the ring's last point is. */
  lemma DensifiedEnd(r: seq<Vec3>, delta: real)
    requires |r| >= 1
    ensures var d := Densified(r, delta);
      d[|d| - 1] == if Far(r[0], r[|r| - 1], delta) then Mid(r[0], r[|r| - 1]) else r[|r| - 1]
  {
    WalkShape(r, delta, |r|);
  }

  lemma {:induction false} WalkOfCloseRing(r: seq<Vec3>, delta: real, n: nat)
    requires 1 <= n <= |r|
    requires forall i :: 0 <= i < |r| - 1 ==> !Far(r[i], r[i + 1], delta)
    ensures Walk(r, delta, n) == r[..n]
  {
    if n > 1 {
      WalkOfCloseRing(r, delta, n - 1);
      assert r[..n] == r[..n - 1] + [r[n - 1]];
    }
  }

  /** A ring whose neighbours (the closing pair included) are all within
      `delta` of each other is left as it is. */
  lemma DensifiedCloseRing(r: seq<Vec3>, delta: real)
    requires |r| >= 1
    requires forall i :: 0 <= i < |r| - 1 ==> !Far(r[i], r[i + 1], delta)
    requires !Far(r[0], r[|r| - 1], delta)
    ensures Densified(r, delta) == r
  {
    WalkOfCloseRing(r, delta, |r|);
    assert r[..|r|] == r;
  }

  /** The refinement loop over the advected ring: `ring_new` starts with the
      first point, then takes a midpoint (when needed) and the next point
      for every consecutive pair, and finally the closing midpoint. */
  method Densify(ring: array<Vec3>, delta: real) returns (dense: seq<Vec3>)
    requires ring.Length >= 1
    ensures dense == Densified(ring[..], delta)
  {
    ghost var r := ring[..];
    dense := [ring[0]];
    for i := 0 to ring.Length - 1
      invariant dense == Walk(r, delta, i + 1)
    {
      if Far(ring[i], ring[i + 1], delta) {
        dense := dense + [Mid(ring[i], ring[i + 1])];
      }
      dense := dense + [ring[i + 1]];
    }
    if Far(ring[0], ring[ring.Length - 1], delta) {
      dense := dense + [Mid(ring[0], ring[ring.Length - 1])];
    }
  }

  /** `__inside_domain` as a predicate on points. */
  function Inside(lo: Vec3, hi: Vec3): Vec3 -> bool
  {
    p => InOpenBox(p, lo, hi)
  }

  /** The ring points strictly inside the domain, in order. */
  function Clipped(r: seq<Vec3>, lo: Vec3, hi: Vec3): seq<Vec3>
  {
    Filter(r, Inside(lo, hi))
  }

  /** Clipping keeps, in order, exactly the points strictly inside the open
      box, and clipping again changes nothing. */
  lemma ClippedExact(r: seq<Vec3>, lo: Vec3, hi: Vec3)
    ensures Subseq(Clipped(r, lo, hi), r) && |Clipped(r, lo, hi)| <= |r|
    ensures forall x :: x in Clipped(r, lo, hi) <==> x in r && InOpenBox(x, lo, hi)
    ensures Clipped(Clipped(r, lo, hi), lo, hi) == Clipped(r, lo, hi)
  {
    FilterSubseq(r, Inside(lo, hi));
    FilterMembers(r, Inside(lo, hi));
    FilterIdempotent(r, Inside(lo, hi));
  }

  /** The edges `[offset + p, offset + p + 1]` for `p < n`. */
  function Chain(offset: int, n: nat): seq<Edge>
  {
    if n == 0 then [] else Chain(offset, n - 1) + [Edge(offset + n - 1, offset + n)]
  }

  lemma {:induction false} ChainShape(offset: int, n: nat)
    ensures |Chain(offset, n)| == n
    ensures forall p :: 0 <= p < n ==> Chain(offset, n)[p] == Edge(offset + p, offset + p + 1)
  {
    if n > 0 {
      ChainShape(offset, n - 1);
    }
  }

  /** The edges along a ring of `m` points stored from index `offset` on:
      each point to the next, then the first to the last. */
  function RingEdges(offset: int, m: nat): seq<Edge>
  {
    Chain(offset, if m == 0 then 0 else m - 1) + [Edge(offset, offset + m - 1)]
  }

  /** A ring of `m` points has `m` edges, and an empty one has one. */
  lemma RingEdgesLength(offset: int, m: nat)
    ensures |RingEdges(offset, m)| == if m == 0 then 1 else m
  {
    ChainShape(offset, if m == 0 then 0 else m - 1);
  }

  /** Every edge index lies in `[lo, hi)`. */
  predicate EdgesWithin(es: seq<Edge>, lo: int, hi: int)
  {
    forall e :: e in es ==> lo <= e.a < hi && lo <= e.b < hi
  }

  /** A non-empty ring is closed into a cycle whose edges all stay among the
      ring's own indices; an empty ring still contributes the edge
      `[offset, offset - 1]`, whose first index is one past the stored
      points. */
  lemma RingEdgesRange(offset: int, m: nat)
    ensures |RingEdges(offset, m)| == if m == 0 then 1 else m
    ensures m >= 1 ==> EdgesWithin(RingEdges(offset, m), offset, offset + m)
    ensures forall p :: 0 <= p < m - 1 ==> RingEdges(offset, m)[p] == Edge(offset + p, offset + p + 1)
    ensures RingEdges(offset, m)[|RingEdges(offset, m)| - 1] == Edge(offset, offset + m - 1)
    ensures m == 0 ==> RingEdges(offset, m) == [Edge(offset, offset - 1)]
  {
    var chain := Chain(offset, if m == 0 then 0 else m - 1);
    ChainShape(offset, if m == 0 then 0 else m - 1);
    if m >= 1 {
      forall e | e in RingEdges(offset, m) ensures offset <= e.a < offset + m && offset <= e.b < offset + m {
        if e in chain {
          var p :| 0 <= p < |chain| && chain[p] == e;
        }
      }
    }
  }

  /** The part of `RingEdgesRange` a pass needs: where the edges of a ring
      lie. */
  lemma RingEdgesBounds(offset: int, m: nat)
    ensures m >= 1 ==> EdgesWithin(RingEdges(offset, m), offset, offset + m)
    ensures m == 0 ==> RingEdges(offset, m) == [Edge(offset, offset - 1)]
  {
    RingEdgesRange(offset, m);
  }

  /** The index of the ring point nearest to `p` among the first `n`, the
      first one on ties. */
  function NearestUpTo(p: Vec3, ring: seq<Vec3>, n: nat): (k: nat)
    requires 1 <= n <= |ring|
    ensures k < n
  {
    if n == 1 then 0
    else
      var k := NearestUpTo(p, ring, n - 1);
      if DistSq(p, ring[n - 1]) < DistSq(p, ring[k]) then n - 1 else k
  }

  /** `idx_min`: the nearest ring point to `p`, or -1 for an empty ring. */
  function Nearest(p: Vec3, ring: seq<Vec3>): int
  {
    if ring == [] then -1 else NearestUpTo(p, ring, |ring|)
  }

  lemma {:induction false} NearestUpToIsFirstMinimum(p: Vec3, ring: seq<Vec3>, n: nat)
    requires 1 <= n <= |ring|
    ensures forall j :: 0 <= j < n ==> DistSq(p, ring[NearestUpTo(p, ring, n)]) <= DistSq(p, ring[j])
    ensures forall j :: 0 <= j < NearestUpTo(p, ring, n) ==>
              DistSq(p, ring[j]) > DistSq(p, ring[NearestUpTo(p, ring, n)])
  {
    if n > 1 {
      NearestUpToIsFirstMinimum(p, ring, n - 1);
    }
  }

  /** The nearest index is -1 exactly for an empty ring; otherwise it is a
      ring index at minimal distance, and every earlier index is strictly
      further away. */
  lemma NearestIsFirstMinimum(p: Vec3, ring: seq<Vec3>)
    ensures Nearest(p, ring) == -1 <==> ring == []
    ensures ring != [] ==> 0 <= Nearest(p, ring) < |ring|
    ensures ring != [] ==> forall j :: 0 <= j < |ring| ==>
              DistSq(p, ring[Nearest(p, ring)]) <= DistSq(p, ring[j])
    ensures ring != [] ==> forall j :: 0 <= j < Nearest(p, ring) ==>
              DistSq(p, ring[j]) > DistSq(p, ring[Nearest(p, ring)])
  {
    if ring != [] {
      NearestUpToIsFirstMinimum(p, ring, |ring|);
    }
  }

  /** The search loop: starting from "no point, infinite distance", a point
      replaces the current best only when strictly nearer. */
  method NearestIndex(p: Vec3, ring: array<Vec3>) returns (idxMin: int)
    ensures idxMin == Nearest(p, ring[..])
  {
    idxMin := -1;
    var distMin := 0.0;
    for i := 0 to ring.Length
      invariant i == 0 <==> idxMin == -1
      invariant i > 0 ==> idxMin == NearestUpTo(p, ring[..], i) && distMin == DistSq(p, ring[idxMin])
    {
      var dist := DistSq(p, ring[i]);
      if idxMin == -1 || dist < distMin {
        distMin := dist;
        idxMin := i;
      }
    }
  }

  /** The edges from every point of the previous ring to the nearest point
      of the next ring (none when the next ring is empty), for the first `n`
      previous points: previous point `i` is entry `offset + i` and next point
      `k` is entry `offset + |prev| + k` of the point list. The distances are
      measured from `prev`, the previous ring's current positions. */
  function LinksUpTo(prev: seq<Vec3>, next: seq<Vec3>, offset: int, n: nat): seq<Edge>
    requires n <= |prev|
  {
    if n == 0 then []
    else
      var k := Nearest(prev[n - 1], next);
      LinksUpTo(prev, next, offset, n - 1)
      + (if k > -1 then [Edge(offset + n - 1, offset + k + |prev|)] else [])
  }

  function Links(prev: seq<Vec3>, next: seq<Vec3>, offset: int): seq<Edge>
  {
    LinksUpTo(prev, next, offset, |prev|)
  }

  lemma {:induction false} LinksUpToShape(prev: seq<Vec3>, next: seq<Vec3>, offset: int, n: nat)
    requires n <= |prev|
    ensures next == [] ==> LinksUpTo(prev, next, offset, n) == []
    ensures next != [] ==> |LinksUpTo(prev, next, offset, n)| == n
    ensures next != [] ==> forall i :: 0 <= i < n ==>
              LinksUpTo(prev, next, offset, n)[i] == Edge(offset + i, offset + |prev| + Nearest(prev[i], next))
  {
    if n > 0 {
      LinksUpToShape(prev, next, offset, n - 1);
      NearestIsFirstMinimum(prev[n - 1], next);
    }
  }

  /** With an empty next ring there are no links; otherwise previous point `i`
      (entry `offset + i`) is linked to the next point nearest to it, and all
      link ends lie in the previous ring and the next ring respectively. */
  lemma LinksShape(prev: seq<Vec3>, next: seq<Vec3>, offset: int)
    ensures next == [] ==> Links(prev, next, offset) == []
    ensures next != [] ==> |Links(prev, next, offset)| == |prev|
    ensures next != [] ==> forall i :: 0 <= i < |prev| ==>
              Links(prev, next, offset)[i] == Edge(offset + i, offset + |prev| + Nearest(prev[i], next))
    ensures forall e :: e in Links(prev, next, offset) ==>
              offset <= e.a < offset + |prev| && offset + |prev| <= e.b < offset + |prev| + |next|
  {
    LinksUpToShape(prev, next, offset, |prev|);
    var ls := Links(prev, next, offset);
    forall e | e in ls ensures offset <= e.a < offset + |prev| && offset + |prev| <= e.b < offset + |prev| + |next| {
      var i :| 0 <= i < |ls| && ls[i] == e;
      NearestIsFirstMinimum(prev[i], next);
    }
  }

  /** The part of `LinksShape` a pass needs: where the links lie. */
  lemma LinksBounds(prev: seq<Vec3>, next: seq<Vec3>, offset: int)
    ensures next == [] ==> Links(prev, next, offset) == []
    ensures forall e :: e in Links(prev, next, offset) ==>
              offset <= e.a < offset + |prev| && offset + |prev| <= e.b < offset + |prev| + |next|
  {
    LinksShape(prev, next, offset);
  }

  /** Link `i` alone: previous point `i` is linked to its nearest next
      point. */
  lemma LinkAt(prev: seq<Vec3>, next: seq<Vec3>, offset: int, i: nat)
    requires next != [] && i < |prev|
    ensures |Links(prev, next, offset)| == |prev|
    ensures 0 <= Nearest(prev[i], next) < |next|
    ensures Links(prev, next, offset)[i] == Edge(offset + i, offset + |prev| + Nearest(prev[i], next))
  {
    LinksShape(prev, next, offset);
    NearestIsFirstMinimum(prev[i], next);
  }

  /** The connectivity of the seed ring of `d` points, stored at entries 1
      to `d` behind the null at entry 0: a spoke from the null to every ring
      point, then the ring closed into a cycle. */
  function SeedEdges(d: nat): seq<Edge>
  {
    Spokes(d) + RingEdges(1, d)
  }

  /** The spokes `[0, k]` from the null to the first `d` ring points. */
  function Spokes(d: nat): seq<Edge>
  {
    if d == 0 then [] else Spokes(d - 1) + [Edge(0, d)]
  }

  lemma {:induction false} SpokesShape(d: nat)
    ensures |Spokes(d)| == d
    ensures forall k :: 0 <= k < d ==> Spokes(d)[k] == Edge(0, k + 1)
  {
    if d > 0 {
      SpokesShape(d - 1);
    }
  }

  /** The seed connectivity has `d` spokes from the null and `d` ring edges,
      all between the `d + 1` stored points. */
  lemma SeedEdgesShape(d: nat)
    requires d >= 1
    ensures |SeedEdges(d)| == 2 * d
    ensures forall k :: 0 <= k < d ==> SeedEdges(d)[k] == Edge(0, k + 1)
    ensures SeedEdges(d)[d..] == RingEdges(1, d)
    ensures EdgesWithin(SeedEdges(d), 0, d + 1)
  {
    RingEdgesRange(1, d);
    SpokesShape(d);
    var spokes := Spokes(d);
    assert SeedEdges(d)[d..] == RingEdges(1, d);
    forall e | e in SeedEdges(d) ensures 0 <= e.a < d + 1 && 0 <= e.b < d + 1 {
      if e in spokes {
        var k :| 0 <= k < d && spokes[k] == e;
      }
    }
  }
}
