/**
 * What the passes of serial_visimergesort achieve: every pass turns aligned
 * runs that are sorted by angle into sorted runs twice as long, keeps the
 * angles and directions of the rays, and keeps every limit that faces a
 * neighbour finite. For a power-of-two count of segments, each opening no
 * later than it closes, the output is one sorted run.
 */
module VisimergesortProperties {
  import opened CMath
  import opened Vectors
  import opened Segments
  import opened ViewRays
  import opened SerialVisimerge
  import opened SerialVisimergesort

  // ---------------------------------------------------------------------------
  // Aligned runs

  /** Every aligned block of length len in s[..e] satisfies P. */
  predicate RunsAll(P: seq<ViewRay> -> bool, s: seq<ViewRay>, len: nat, e: nat)
    requires len > 0 && Divides(len, e) && e <= |s|
    decreases e
  {
    e == 0 || (P(s[e - len..e]) && RunsAll(P, s, len, e - len))
  }

  /** RunsAll only looks at s[..e]. */
  lemma {:induction false} RunsAllPrefix(P: seq<ViewRay> -> bool, s: seq<ViewRay>, t: seq<ViewRay>, len: nat, e: nat)
    requires len > 0 && Divides(len, e) && e <= |s| && e <= |t| && s[..e] == t[..e]
    ensures RunsAll(P, s, len, e) == RunsAll(P, t, len, e)
    decreases e
  {
    if e > 0 {
      assert s[e - len..e] == s[..e][e - len..e] == t[..e][e - len..e] == t[e - len..e];
      assert s[..e - len] == s[..e][..e - len] == t[..e][..e - len] == t[..e - len];
      RunsAllPrefix(P, s, t, len, e - len);
    }
  }

  /** A run of 2 * sub rays holds two runs of sub rays. */
  lemma DividesHalf(sub: nat, e: nat)
    requires sub > 0 && Divides(2 * sub, e)
    ensures Divides(sub, e)
  {
    assert Divides(sub, 2 * sub - sub - sub);
    assert Divides(sub, 2 * sub - sub);
    DividesTransitive(sub, 2 * sub, e);
  }

  /** P holds of the merge of any two runs of equal length that satisfy it. */
  ghost predicate MergeKeeps(m: Libm, P: seq<ViewRay> -> bool)
  {
    forall a, b {:trigger MergeRuns(m, a, b)} :: |a| == |b| && P(a) && P(b) ==> P(MergeRuns(m, a, b))
  }

  /** merge keeps P: the merge of two runs of equal length that satisfy P
      satisfies P. */
  ghost predicate Keeps(merge: Merge, P: seq<ViewRay> -> bool)
  {
    forall a, b {:trigger merge(a, b)} :: |a| == |b| && P(a) && P(b) ==> P(merge(a, b))
  }

  lemma MergerKeeps(m: Libm, P: seq<ViewRay> -> bool)
    requires MergeKeeps(m, P)
    ensures Keeps(Merger(m), P)
  {
    forall a, b | |a| == |b| && P(a) && P(b)
      ensures P(Merger(m)(a, b))
    {
      assert Merger(m)(a, b) == MergeRuns(m, a, b);
    }
  }

  /** One pass of merges turns runs of sub rays that satisfy P, a property the
      merge keeps, into runs of 2 * sub rays that satisfy it. */
  lemma {:induction false} PassKeeps(merge: Merge, P: seq<ViewRay> -> bool, s: seq<ViewRay>, sub: nat, e: nat)
    requires Keeps(merge, P)
    requires sub > 0 && Divides(2 * sub, e) && e <= |s|
    requires Divides(sub, e) && RunsAll(P, s, sub, e)
    ensures RunsAll(P, Pass(merge, s, sub, e), 2 * sub, e)
    decreases e
  {
    if e > 0 {
      var a, b := s[e - 2 * sub..e - sub], s[e - sub..e];
      assert Divides(sub, e - sub) && Divides(sub, e - 2 * sub);
      assert P(a) && P(b) && RunsAll(P, s, sub, e - 2 * sub);
      PassKeeps(merge, P, s, sub, e - 2 * sub);
      var d, q := Pass(merge, s, sub, e), Pass(merge, s, sub, e - 2 * sub);
      assert d == q + merge(a, b);
      assert d[e - 2 * sub..e] == merge(a, b);
      assert d[..e - 2 * sub] == q[..e - 2 * sub];
      RunsAllPrefix(P, d, q, 2 * sub, e - 2 * sub);
    }
  }

  /** After p passes the runs of 2^(p+1) rays satisfy P, when the initial pairs
      do and the merge keeps P. */
  lemma {:induction false} PassesKeep(merge: Merge, P: seq<ViewRay> -> bool, s: seq<ViewRay>, p: nat)
    requires Keeps(merge, P)
    requires Divides(Pow2(p + 1), |s|)
    requires Divides(2, |s|) && RunsAll(P, s, 2, |s|)
    ensures RunsAll(P, Passes(merge, s, p), Pow2(p + 1), |s|)
    decreases p
  {
    if p == 0 {
      assert Pow2(1) == 2;
    } else {
      Pow2Halves(p, |s|);
      PassesKeep(merge, P, s, p - 1);
      DividesHalf(Pow2(p), |s|);
      PassKeeps(merge, P, Passes(merge, s, p - 1), Pow2(p), |s|);
    }
  }

  /** 2 * n rays split into n pairs. */
  lemma {:induction false} EvenCountDivides(n: nat)
    ensures Divides(2, 2 * n)
  {
    if n > 0 {
      EvenCountDivides(n - 1);
      assert 2 * n - 2 == 2 * (n - 1);
    }
  }

  /** The pairs of init_viewrays satisfy P when the rays of every segment
      do. */
  lemma {:induction false} InitialPairs(m: Libm, P: seq<ViewRay> -> bool, segs: seq<Segment>, n: nat)
    requires forall i :: 0 <= i < |segs| ==> OffOrigin(m, segs[i])
    requires forall i :: 0 <= i < |segs| ==> P(SegmentRays(m, segs[i]))
    requires n <= |segs|
    ensures Divides(2, 2 * n) && RunsAll(P, InitialRays(m, segs), 2, 2 * n)
    decreases n
  {
    EvenCountDivides(n);
    if n > 0 {
      var s := InitialRays(m, segs);
      InitialPairs(m, P, segs, n - 1);
      InitialRaysAt(m, segs, n - 1);
      assert s[2 * n - 2..2 * n] == SegmentRays(m, segs[n - 1]);
      assert 2 * n - 2 == 2 * (n - 1);
    }
  }

  /** When the sort produces one run of all 2 * count rays, P holds of it. */
  lemma {:induction false} VisimergesortKeeps(m: Libm, P: seq<ViewRay> -> bool, segs: seq<Segment>)
    requires |segs| == 0 || IsPowerOfTwo(|segs|)
    requires forall i :: 0 <= i < |segs| ==> OffOrigin(m, segs[i])
    requires forall i :: 0 <= i < |segs| ==> P(SegmentRays(m, segs[i]))
    requires MergeKeeps(m, P)
    ensures |segs| > 0 ==> P(Visimergesort(m, segs))
  {
    if |segs| > 0 {
      var s, p := InitialRays(m, segs), Log2(|segs|, 0);
      CountDivides(|segs|);
      MergerKeeps(m, P);
      InitialPairs(m, P, segs, |segs|);
      PassesKeep(Merger(m), P, s, p);
      var d := Passes(Merger(m), s, p);
      assert d[|d| - |d|..|d|] == d;
    }
  }

  // ---------------------------------------------------------------------------
  // Sorted output

  /** The opening ray of the segment comes no later than its closing ray:
      the segment does not cross the positive x-axis. */
  predicate OpensBeforeCloses(m: Libm, seg: Segment)
    requires OffOrigin(m, seg)
  {
    SegmentRays(m, seg)[0].t <= SegmentRays(m, seg)[1].t
  }

  lemma MergeKeepsSorted(m: Libm)
    ensures MergeKeeps(m, s => SortedByAngle(s))
  {
    forall a, b | |a| == |b| && SortedByAngle(a) && SortedByAngle(b)
      ensures SortedByAngle(MergeRuns(m, a, b))
    {
      MergeRunsSorted(m, a, b);
    }
  }

  /** serial_visimergesort sorts the rays by angle when every initial pair is
      in order. */
  lemma {:induction false} VisimergesortSorted(m: Libm, segs: seq<Segment>)
    requires |segs| == 0 || IsPowerOfTwo(|segs|)
    requires forall i :: 0 <= i < |segs| ==> OffOrigin(m, segs[i])
    requires forall i :: 0 <= i < |segs| ==> OpensBeforeCloses(m, segs[i])
    ensures SortedByAngle(Visimergesort(m, segs))
  {
    var P := s => SortedByAngle(s);
    forall i | 0 <= i < |segs|
      ensures P(SegmentRays(m, segs[i]))
    {
      assert OpensBeforeCloses(m, segs[i]);
    }
    MergeKeepsSorted(m);
    VisimergesortKeeps(m, P, segs);
  }

  /** The sort is sorted after each pass in the sense of aligned blocks: after
      pass p the blocks of 2^(p+2) rays are sorted. */
  lemma {:induction false} PassesSortBlocks(m: Libm, segs: seq<Segment>, p: nat)
    requires forall i :: 0 <= i < |segs| ==> OffOrigin(m, segs[i])
    requires forall i :: 0 <= i < |segs| ==> OpensBeforeCloses(m, segs[i])
    requires Divides(Pow2(p + 1), 2 * |segs|)
    ensures RunsAll(s => SortedByAngle(s), Passes(Merger(m), InitialRays(m, segs), p), Pow2(p + 1), 2 * |segs|)
  {
    var P := s => SortedByAngle(s);
    forall i | 0 <= i < |segs|
      ensures P(SegmentRays(m, segs[i]))
    {
      assert OpensBeforeCloses(m, segs[i]);
    }
    MergeKeepsSorted(m);
    MergerKeeps(m, P);
    InitialPairs(m, P, segs, |segs|);
    PassesKeep(Merger(m), P, InitialRays(m, segs), p);
  }

  // ---------------------------------------------------------------------------
  // Finite limits

  lemma MergeKeepsInteriorFinite(m: Libm)
    ensures MergeKeeps(m, s => InteriorFinite(s))
  {
    forall a, b | |a| == |b| && InteriorFinite(a) && InteriorFinite(b)
      ensures InteriorFinite(MergeRuns(m, a, b))
    {
      MergeRunsInteriorFinite(m, a, b);
    }
  }

  /** Every run handed to serial_visimerge by the sort has finite facing
      limits, so the bracketing pairs find_right_left_limit reads never carry
      an infinite limit. */
  lemma {:induction false} PassesInteriorFinite(m: Libm, segs: seq<Segment>, p: nat)
    requires forall i :: 0 <= i < |segs| ==> OffOrigin(m, segs[i])
    requires Divides(Pow2(p + 1), 2 * |segs|)
    ensures RunsAll(s => InteriorFinite(s), Passes(Merger(m), InitialRays(m, segs), p), Pow2(p + 1), 2 * |segs|)
  {
    var P := s => InteriorFinite(s);
    forall i | 0 <= i < |segs|
      ensures P(SegmentRays(m, segs[i]))
    {
      SegmentRaysProperties(m, segs[i]);
    }
    MergeKeepsInteriorFinite(m);
    MergerKeeps(m, P);
    InitialPairs(m, P, segs, |segs|);
    PassesKeep(Merger(m), P, InitialRays(m, segs), p);
  }

  /** In the output every limit that faces a neighbour is finite. */
  lemma {:induction false} VisimergesortInteriorFinite(m: Libm, segs: seq<Segment>)
    requires |segs| == 0 || IsPowerOfTwo(|segs|)
    requires forall i :: 0 <= i < |segs| ==> OffOrigin(m, segs[i])
    ensures InteriorFinite(Visimergesort(m, segs))
  {
    var P := s => InteriorFinite(s);
    forall i | 0 <= i < |segs|
      ensures P(SegmentRays(m, segs[i]))
    {
      SegmentRaysProperties(m, segs[i]);
    }
    MergeKeepsInteriorFinite(m);
    VisimergesortKeeps(m, P, segs);
  }

  // ---------------------------------------------------------------------------
  // The rays themselves

  /** How many of the rays have angle and direction h. */
  function Count(s: seq<ViewRay>, h: (real, Vec2)): nat
  {
    if s == [] then 0 else (if Heading(s[0]) == h then 1 else 0) + Count(s[1..], h)
  }

  lemma {:induction false} CountIsMultiplicity(s: seq<ViewRay>, h: (real, Vec2))
    ensures Count(s, h) == multiset(Headings(s))[h]
  {
    if s != [] {
      CountIsMultiplicity(s[1..], h);
      assert Headings(s) == [Heading(s[0])] + Headings(s[1..]);
    }
  }

  lemma {:induction false} CountAppend(x: seq<ViewRay>, y: seq<ViewRay>, h: (real, Vec2))
    ensures Count(x + y, h) == Count(x, h) + Count(y, h)
  {
    if x == [] {
      assert x + y == y;
    } else {
      assert (x + y)[1..] == x[1..] + y;
      CountAppend(x[1..], y, h);
    }
  }

  /** The rays before k are those before i, then those from i to j, then
      those from j to k. */
  lemma CountPrefix(s: seq<ViewRay>, i: nat, j: nat, k: nat, h: (real, Vec2))
    requires i <= j <= k <= |s|
    ensures Count(s[..k], h) == Count(s[..i], h) + Count(s[i..j], h) + Count(s[j..k], h)
  {
    assert s[..k] == s[..i] + s[i..j] + s[j..k];
    CountAppend(s[..i] + s[i..j], s[j..k], h);
    CountAppend(s[..i], s[i..j], h);
  }

  /** The merge keeps the angles and directions of both runs. */
  lemma MergerCount(m: Libm, a: seq<ViewRay>, b: seq<ViewRay>, h: (real, Vec2))
    ensures Count(Merger(m)(a, b), h) == Count(a, h) + Count(b, h)
  {
    MergeRunsPermutation(m, a, b);
    CountIsMultiplicity(MergeRuns(m, a, b), h);
    CountIsMultiplicity(a, h);
    CountIsMultiplicity(b, h);
  }

  ghost predicate KeepsCounts(merge: Merge)
  {
    forall a, b, h {:trigger Count(merge(a, b), h)} :: Count(merge(a, b), h) == Count(a, h) + Count(b, h)
  }

  lemma MergerKeepsCounts(m: Libm)
    ensures KeepsCounts(Merger(m))
  {
    forall a, b, h
      ensures Count(Merger(m)(a, b), h) == Count(a, h) + Count(b, h)
    {
      MergerCount(m, a, b, h);
    }
  }

  lemma PassCount(merge: Merge, s: seq<ViewRay>, sub: nat, e: nat, h: (real, Vec2))
    requires KeepsCounts(merge)
    requires sub > 0 && Divides(2 * sub, e) && e <= |s| && e > 0
    ensures 2 * sub <= e && Divides(2 * sub, e - 2 * sub)
    ensures Count(Pass(merge, s, sub, e), h)
            == Count(Pass(merge, s, sub, e - 2 * sub), h) + Count(s[e - 2 * sub..e - sub], h) + Count(s[e - sub..e], h)
  {
    var a, b := s[e - 2 * sub..e - sub], s[e - sub..e];
    assert Pass(merge, s, sub, e) == Pass(merge, s, sub, e - 2 * sub) + merge(a, b);
    CountAppend(Pass(merge, s, sub, e - 2 * sub), merge(a, b), h);
  }

  /** The last merge of a pass changes the counts of the pass and of the rays
      it covers by the same amount. */
  lemma PassCountStep(merge: Merge, s: seq<ViewRay>, sub: nat, e: nat, h: (real, Vec2))
    requires KeepsCounts(merge)
    requires sub > 0 && Divides(2 * sub, e) && e <= |s| && e > 0
    ensures 2 * sub <= e && Divides(2 * sub, e - 2 * sub)
    ensures Count(Pass(merge, s, sub, e), h) - Count(s[..e], h)
            == Count(Pass(merge, s, sub, e - 2 * sub), h) - Count(s[..e - 2 * sub], h)
  {
    PassCount(merge, s, sub, e, h);
    CountPrefix(s, e - 2 * sub, e - sub, e, h);
  }

  lemma {:induction false} PassHeadings(merge: Merge, s: seq<ViewRay>, sub: nat, e: nat, h: (real, Vec2))
    requires KeepsCounts(merge)
    requires sub > 0 && Divides(2 * sub, e) && e <= |s|
    ensures Count(Pass(merge, s, sub, e), h) == Count(s[..e], h)
    decreases e
  {
    if e > 0 {
      PassCountStep(merge, s, sub, e, h);
      PassHeadings(merge, s, sub, e - 2 * sub, h);
    } else {
      assert s[..e] == [];
    }
  }

  /** Pass p keeps the counts of the passes before it. */
  lemma PassesCountStep(merge: Merge, s: seq<ViewRay>, p: nat, h: (real, Vec2))
    requires KeepsCounts(merge)
    requires p > 0 && Divides(Pow2(p + 1), |s|)
    ensures Divides(Pow2(p - 1 + 1), |s|)
    ensures Count(Passes(merge, s, p), h) == Count(Passes(merge, s, p - 1), h)
  {
    PassesLast(merge, s, p);
    var q := Passes(merge, s, p - 1);
    PassHeadings(merge, q, Pow2(p), |s|, h);
    assert q[..|q|] == q;
  }

  lemma {:induction false} PassesHeadings(merge: Merge, s: seq<ViewRay>, p: nat, h: (real, Vec2))
    requires KeepsCounts(merge)
    requires Divides(Pow2(p + 1), |s|)
    ensures Count(Passes(merge, s, p), h) == Count(s, h)
    decreases p
  {
    if p > 0 {
      PassesCountStep(merge, s, p, h);
      PassesHeadings(merge, s, p - 1, h);
    }
  }

  /** The output holds the angle and direction of every ray init_viewrays
      produced, each exactly as often. */
  lemma VisimergesortPermutation(m: Libm, segs: seq<Segment>)
    requires |segs| == 0 || IsPowerOfTwo(|segs|)
    requires forall i :: 0 <= i < |segs| ==> OffOrigin(m, segs[i])
    ensures multiset(Headings(Visimergesort(m, segs))) == multiset(Headings(InitialRays(m, segs)))
  {
    var d, s := Visimergesort(m, segs), InitialRays(m, segs);
    CountDivides(|segs|);
    MergerKeepsCounts(m);
    forall h
      ensures multiset(Headings(d))[h] == multiset(Headings(s))[h]
    {
      PassesHeadings(Merger(m), s, Log2(|segs|, 0), h);
      CountIsMultiplicity(d, h);
      CountIsMultiplicity(s, h);
    }
  }

  // ---------------------------------------------------------------------------
  // The limits of the output

  /** Pass p > 0 runs over the result of the passes before it. */
  lemma PassesLast(merge: Merge, s: seq<ViewRay>, p: nat)
    requires p > 0 && Divides(Pow2(p + 1), |s|)
    ensures Divides(Pow2(p), |s|) && Divides(2 * Pow2(p), |s|)
    ensures Passes(merge, s, p) == Pass(merge, Passes(merge, s, p - 1), Pow2(p), |s|)
  {
    Pow2Halves(p, |s|);
  }

  /** A pass whose runs are the two halves of the array merges just those. */
  lemma PassWhole(merge: Merge, q: seq<ViewRay>, n: nat)
    requires n > 0 && |q| == 2 * n
    ensures Divides(2 * n, |q|) && Pass(merge, q, n, |q|) == merge(q[..n], q[n..])
  {
    assert Divides(2 * n, 2 * n - 2 * n);
    assert q[0..n] == q[..n] && q[n..2 * n] == q[n..];
  }

  /** After p >= 1 passes over 2^(p+1) rays, the last pass is one merge of
      the two halves. */
  lemma PassesEndInOneMerge(merge: Merge, s: seq<ViewRay>, p: nat)
    requires p >= 1 && |s| == Pow2(p + 1)
    ensures Divides(Pow2(p + 1), |s|) && Divides(Pow2(p), |s|)
    ensures var q := Passes(merge, s, p - 1);
            Passes(merge, s, p) == merge(q[..Pow2(p)], q[Pow2(p)..])
  {
    assert Divides(|s|, |s| - |s|);
    PassesLast(merge, s, p);
    PassWhole(merge, Passes(merge, s, p - 1), Pow2(p));
  }

  /** The limits facing each other across boundary k of the last merge. */
  lemma LastMergeLimits(m: Libm, merge: Merge, s: seq<ViewRay>, p: nat, k: nat)
    requires Merges(m, merge)
    requires p >= 1 && |s| == Pow2(p + 1)
    requires ValidLibm(m) && k + 1 < |s|
    ensures Divides(Pow2(p + 1), |s|)
    ensures var d := Passes(merge, s, p);
            d[k].l.Fin? && d[k + 1].r.Fin? &&
            ((d[k].l == Fin(-1.0) && d[k + 1].r == Fin(-1.0)) || (d[k].l.value >= 0.0 && d[k + 1].r.value >= 0.0))
  {
    PassesEndInOneMerge(merge, s, p);
    var q, n := Passes(merge, s, p - 1), Pow2(p);
    MergeRunsBoundaryLimits(m, q[..n], q[n..], k);
  }

  /** For one segment the output is the two rays init_viewrays made. */
  lemma VisimergesortSingle(m: Libm, segs: seq<Segment>)
    requires |segs| == 1 && OffOrigin(m, segs[0])
    ensures Visimergesort(m, segs) == SegmentRays(m, segs[0])
  {
    assert Log2(1, 0) == 0;
    assert InitialRays(m, segs) == SegmentRays(m, segs[0]) + InitialRays(m, segs[1..]);
  }

  /** With a valid sqrt the two rays of a segment face each other across
      their distances from the origin. */
  lemma SegmentRaysLimits(m: Libm, seg: Segment)
    requires ValidLibm(m) && OffOrigin(m, seg)
    ensures var d := SegmentRays(m, seg);
            d[0].l.Fin? && d[1].r.Fin? && d[0].l.value >= 0.0 && d[1].r.value >= 0.0
  {
    NormNonNegative(m, Oriented(seg).a);
    NormNonNegative(m, Oriented(seg).b);
  }

  /** With a valid sqrt no limit of the output that faces a neighbour is
      negative, apart from the -1 that marks "no limit": each is -1 on both
      sides of a boundary or a non-negative distance on both sides. */
  lemma VisimergesortLimits(m: Libm, segs: seq<Segment>, k: nat)
    requires |segs| == 0 || IsPowerOfTwo(|segs|)
    requires forall i :: 0 <= i < |segs| ==> OffOrigin(m, segs[i])
    requires ValidLibm(m) && k + 1 < 2 * |segs|
    ensures var d := Visimergesort(m, segs);
            d[k].l.Fin? && d[k + 1].r.Fin? &&
            ((d[k].l == Fin(-1.0) && d[k + 1].r == Fin(-1.0)) || (d[k].l.value >= 0.0 && d[k + 1].r.value >= 0.0))
  {
    var n := |segs|;
    if n == 1 {
      VisimergesortSingle(m, segs);
      SegmentRaysLimits(m, segs[0]);
    } else {
      CountDivides(n);
      assert Log2(n, 0) == Log2(n / 2, 0) + 1;
      MergerMerges(m);
      LastMergeLimits(m, Merger(m), InitialRays(m, segs), Log2(n, 0), k);
    }
  }
}
