/** The last pass of the null finder: nulls found in neighbouring cells that
    are closer than one grid spacing along every axis are treated as the
    same null, and only the first of them (in visiting order) is kept. */
module CloseNulls {
  import opened Geometry
  import opened Grid
  import opened Sequences

  /** Two nulls differ by less than the grid spacing along all three axes. */
  predicate Close(a: Vec3, b: Vec3, g: Coordinates)
  {
    Abs(a.x - b.x) < g.dx && Abs(a.y - b.y) < g.dy && Abs(a.z - b.z) < g.dz
  }

  /** None of the first `lim` nulls is close to null `m`. */
  predicate NoCloseBefore(s: seq<Vec3>, m: nat, lim: nat, g: Coordinates)
    requires m < |s| && lim <= |s|
  {
    forall i :: 0 <= i < lim ==> !Close(s[i], s[m], g)
  }

  /** Null `m` survives: no earlier null, whether itself kept or not, is
      close to it. */
  predicate Kept(s: seq<Vec3>, m: nat, g: Coordinates)
    requires m < |s|
  {
    NoCloseBefore(s, m, m, g)
  }

  /** The surviving nulls among the first `n`, in order. */
  function DedupPrefix(s: seq<Vec3>, n: nat, g: Coordinates): seq<Vec3>
    requires n <= |s|
  {
    if n == 0 then []
    else DedupPrefix(s, n - 1, g) + (if Kept(s, n - 1, g) then [s[n - 1]] else [])
  }

  function Dedup(s: seq<Vec3>, g: Coordinates): seq<Vec3>
  {
    DedupPrefix(s, |s|, g)
  }

  predicate NoClosePair(s: seq<Vec3>, g: Coordinates)
  {
    forall t, u :: 0 <= t < u < |s| ==> !Close(s[t], s[u], g)
  }

  /** The keep-mask pass: every pair `a < b` is compared, and a close pair
      clears the mark of the later null, whether or not the earlier one is
      itself still marked; then the marked nulls are kept in order. */
  method DiscardClose(nulls: seq<Vec3>, g: Coordinates) returns (kept: seq<Vec3>)
    ensures kept == Dedup(nulls, g)
  {
    var n := |nulls|;
    var keep := new bool[n](_ => true);
    for a := 0 to n
      invariant forall m :: 0 <= m < n ==> keep[m] == NoCloseBefore(nulls, m, if a < m then a else m, g)
    {
      for b := a + 1 to n
        invariant forall m :: 0 <= m < n ==>
          keep[m] == NoCloseBefore(nulls, m, if a < m < b then a + 1 else if a < m then a else m, g)
      {
        if Close(nulls[a], nulls[b], g) {
          keep[b] := false;
        }
      }
    }
    kept := [];
    for m := 0 to n
      invariant kept == DedupPrefix(nulls, m, g)
    {
      if keep[m] {
        kept := kept + [nulls[m]];
      }
    }
  }

  lemma {:induction false} DedupPrefixSubseq(s: seq<Vec3>, n: nat, g: Coordinates)
    requires n <= |s|
    ensures Subseq(DedupPrefix(s, n, g), s[..n])
  {
    if n > 0 {
      DedupPrefixSubseq(s, n - 1, g);
      assert s[..n] == s[..n - 1] + [s[n - 1]];
      if Kept(s, n - 1, g) {
        SubseqTake(DedupPrefix(s, n - 1, g), s[..n - 1], s[n - 1]);
      } else {
        assert DedupPrefix(s, n, g) == DedupPrefix(s, n - 1, g);
        SubseqSkip(DedupPrefix(s, n - 1, g), s[..n - 1], s[n - 1]);
      }
    }
  }

  /** The kept nulls are the input with some nulls deleted, in the original
      order. */
  lemma DedupIsSubseq(s: seq<Vec3>, g: Coordinates)
    ensures Subseq(Dedup(s, g), s)
    ensures |Dedup(s, g)| <= |s|
    ensures forall x :: x in Dedup(s, g) ==> x in s
  {
    DedupPrefixSubseq(s, |s|, g);
    assert s[..|s|] == s;
    SubseqLength(Dedup(s, g), s);
    SubseqMembers(Dedup(s, g), s);
  }

  lemma {:induction false} DedupPrefixStart(s: seq<Vec3>, n: nat, g: Coordinates)
    requires 1 <= n <= |s|
    ensures |DedupPrefix(s, n, g)| >= 1 && DedupPrefix(s, n, g)[0] == s[0]
  {
    if n > 1 {
      DedupPrefixStart(s, n - 1, g);
    }
  }

  /** The first null is always kept. */
  lemma FirstNullKept(s: seq<Vec3>, g: Coordinates)
    requires |s| >= 1
    ensures |Dedup(s, g)| >= 1 && Dedup(s, g)[0] == s[0]
  {
    DedupPrefixStart(s, |s|, g);
  }

  lemma {:induction false} DedupPrefixSeparated(s: seq<Vec3>, n: nat, g: Coordinates)
    requires n <= |s|
    ensures NoClosePair(DedupPrefix(s, n, g), g)
    ensures forall x :: x in DedupPrefix(s, n, g) ==> x in s[..n]
  {
    if n > 0 {
      DedupPrefixSeparated(s, n - 1, g);
      var d := DedupPrefix(s, n - 1, g);
      assert s[..n] == s[..n - 1] + [s[n - 1]];
      if Kept(s, n - 1, g) {
        var d' := d + [s[n - 1]];
        forall t, u | 0 <= t < u < |d'| ensures !Close(d'[t], d'[u], g) {
          if u == |d| {
            assert d'[t] == d[t] && d[t] in s[..n - 1];
            var i :| 0 <= i < n - 1 && s[i] == d[t];
          } else {
            assert d'[t] == d[t] && d'[u] == d[u];
          }
        }
      }
    }
  }

  /** No two kept nulls are within one grid spacing of each other along all
      three axes. */
  lemma KeptAreSeparated(s: seq<Vec3>, g: Coordinates)
    ensures NoClosePair(Dedup(s, g), g)
  {
    DedupPrefixSeparated(s, |s|, g);
  }

  lemma {:induction false} KeptAppears(s: seq<Vec3>, n: nat, m: nat, g: Coordinates)
    requires m < n <= |s| && Kept(s, m, g)
    ensures s[m] in DedupPrefix(s, n, g)
  {
    if m < n - 1 {
      KeptAppears(s, n - 1, m, g);
    }
  }

  /** A null is missing from the result only when some earlier null of the
      input, kept or not, is close to it. */
  lemma DroppedHaveCloseEarlier(s: seq<Vec3>, g: Coordinates)
    ensures forall m :: 0 <= m < |s| && s[m] !in Dedup(s, g) ==>
              exists i :: 0 <= i < m && Close(s[i], s[m], g)
  {
    forall m | 0 <= m < |s| && s[m] !in Dedup(s, g)
      ensures exists i :: 0 <= i < m && Close(s[i], s[m], g)
    {
      if Kept(s, m, g) {
        KeptAppears(s, |s|, m, g);
      }
    }
  }

  lemma {:induction false} SeparatedUnchanged(s: seq<Vec3>, n: nat, g: Coordinates)
    requires n <= |s| && NoClosePair(s, g)
    ensures DedupPrefix(s, n, g) == s[..n]
  {
    if n > 0 {
      SeparatedUnchanged(s, n - 1, g);
      assert Kept(s, n - 1, g);
      assert s[..n] == s[..n - 1] + [s[n - 1]];
    }
  }

  /** Discarding close nulls a second time changes nothing. */
  lemma DedupIdempotent(s: seq<Vec3>, g: Coordinates)
    ensures Dedup(Dedup(s, g), g) == Dedup(s, g)
  {
    var d := Dedup(s, g);
    KeptAreSeparated(s, g);
    SeparatedUnchanged(d, |d|, g);
    assert d[..|d|] == d;
  }

  /** A discarded null still discards: on a unit grid, the chain 0, 0.6, 1.2
      along x keeps only the first null, although the third is more than one
      spacing away from it. */
  lemma DiscardedNullStillDiscards()
    ensures Dedup([Vec3(0.0, 0.0, 0.0), Vec3(0.6, 0.0, 0.0), Vec3(1.2, 0.0, 0.0)],
                  Coordinates([], [], [], 1.0, 1.0, 1.0))
         == [Vec3(0.0, 0.0, 0.0)]
  {
    var s := [Vec3(0.0, 0.0, 0.0), Vec3(0.6, 0.0, 0.0), Vec3(1.2, 0.0, 0.0)];
    var g := Coordinates([], [], [], 1.0, 1.0, 1.0);
    assert Close(s[0], s[1], g) && Close(s[1], s[2], g) && !Close(s[0], s[2], g);
    assert !Kept(s, 1, g) && !Kept(s, 2, g);
    assert DedupPrefix(s, 1, g) == [s[0]];
    assert DedupPrefix(s, 2, g) == [s[0]];
  }
}
