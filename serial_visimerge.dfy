/**
 * The two-run merge of src/visimerge/serial_visimerge.h: the ray/segment
 * intersection, the cut of a segment by two rays, the "keep the closer pair"
 * limit update, and the merge itself, which interleaves two runs by angle and
 * rewrites the limits at every boundary between consecutive output rays.
 */
module SerialVisimerge {
  import opened Options
  import opened Util
  import opened CMath
  import opened Vectors
  import opened Segments
  import opened ViewRays

  // ---------------------------------------------------------------------------
  // ray_segment_intersection

  /** The acceptance test on the line parameter i, as written. */
  predicate Accepts(i: real)
  {
    (AlmostEqual(i, 0.0) || i >= 0.0) || (AlmostEqual(i, 1.0) || i >= 1.0)
  }

  /** Where the line through the origin along `ray` meets the line of `seg`:
      None when the two are (almost) parallel or the parameter is rejected. */
  function Intersection(ray: Vec2, seg: Segment): Option<Vec2>
  {
    var u := Sub(seg.b, seg.a);
    var s := Cross(u, ray);
    if AlmostEqual(s, 0.0) then None
    else
      var i := Cross(ray, Div(seg.a, s));
      if Accepts(i) then Some(Add(seg.a, Scale(u, i))) else None
  }

  /** The `≈1 || ≥1` half of the test adds nothing: it accepts exactly the
      parameters that are non-negative or almost zero, with no upper bound. */
  lemma AcceptsIsLowerBoundOnly(i: real)
    ensures Accepts(i) <==> (i >= 0.0 || AlmostEqual(i, 0.0))
  {
  }

  /** The algebra behind IntersectionOnBothLines, on coordinates: with
      s = cross(u, c) non-zero and i = cross(c, a / s), the point a + u*i is
      on the line through the origin along c. */
  lemma LineParameterHits(cx: real, cy: real, ax: real, ay: real, ux: real, uy: real, s: real)
    requires s == ux * cy - uy * cx && s != 0.0
    ensures var i := cx * (ay / s) - cy * (ax / s);
            cx * (ay + uy * i) - cy * (ax + ux * i) == 0.0
  {
    var p := ay / s;
    var q := ax / s;
    assert p * s == ay;
    assert q * s == ax;
    var i := cx * p - cy * q;
    assert i * s == cx * (p * s) - cy * (q * s);
    assert i * s == cx * ay - cy * ax;
    calc {
      cx * (ay + uy * i) - cy * (ax + ux * i);
      (cx * ay - cy * ax) + i * (cx * uy - cy * ux);
      i * s + i * (cx * uy - cy * ux);
      i * (s + cx * uy - cy * ux);
    }
  }

  /** A found point lies both on the line of the ray and on the line of the
      segment; parallel lines (and in particular a zero-length segment) give
      no point. */
  lemma IntersectionOnBothLines(ray: Vec2, seg: Segment)
    ensures AlmostEqual(Cross(Sub(seg.b, seg.a), ray), 0.0) ==> Intersection(ray, seg) == None
    ensures seg.a == seg.b ==> Intersection(ray, seg) == None
    ensures Intersection(ray, seg).Some? ==>
              Cross(ray, Intersection(ray, seg).value) == 0.0 &&
              Cross(Sub(Intersection(ray, seg).value, seg.a), Sub(seg.b, seg.a)) == 0.0
  {
    var u := Sub(seg.b, seg.a);
    var s := Cross(u, ray);
    if seg.a == seg.b {
      assert u == Zero();
      assert s == 0.0;
    }
    if Intersection(ray, seg).Some? {
      NotAlmostZeroIsNonZero(s);
      var i := Cross(ray, Div(seg.a, s));
      var p := Add(seg.a, Scale(u, i));
      assert Intersection(ray, seg).value == p;
      LineParameterHits(ray.x, ray.y, seg.a.x, seg.a.y, u.x, u.y, s);
      assert Cross(ray, p) == 0.0;
      assert Sub(p, seg.a) == Scale(u, i);
      assert Cross(Scale(u, i), u) == (u.x * i) * u.y - (u.y * i) * u.x;
    }
  }

  /** The missing upper bound in action: a ray that meets the segment's line
      beyond its endpoint b (at parameter 2) is still reported as a hit. */
  lemma IntersectionBeyondEndpoint()
    ensures Intersection(Vec2(1.0, 3.0), Segment(Vec2(1.0, 1.0), Vec2(1.0, 2.0))) == Some(Vec2(1.0, 3.0))
  {
    assert Add(Vec2(1.0, 1.0), Scale(Vec2(0.0, 1.0), 2.0)) == Vec2(1.0, 3.0);
    assert Sub(Vec2(1.0, 2.0), Vec2(1.0, 1.0)) == Vec2(0.0, 1.0);
    assert Cross(Vec2(0.0, 1.0), Vec2(1.0, 3.0)) == -1.0;
    assert !AlmostEqual(-1.0, 0.0);
    assert Div(Vec2(1.0, 1.0), -1.0) == Vec2(-1.0, -1.0);
    assert Cross(Vec2(1.0, 3.0), Vec2(-1.0, -1.0)) == 2.0;
    assert Accepts(2.0);
  }

  /** ray_segment_intersection: the out-parameter is written on success only. */
  method RaySegmentIntersection(ray: Vec2, seg: Segment, a: Vec2) returns (hit: bool, a': Vec2)
    ensures hit == Intersection(ray, seg).Some?
    ensures a' == if hit then Intersection(ray, seg).value else a
  {
    var u := Sub(seg.b, seg.a);
    var s := Cross(u, ray);
    if AlmostEqual(s, 0.0) {
      return false, a;
    }
    var r := Div(seg.a, s);
    var i := Cross(ray, r);
    if (AlmostEqual(i, 0.0) || i >= 0.0) || (AlmostEqual(i, 1.0) || i >= 1.0) {
      return true, Add(seg.a, Scale(u, i));
    }
    return false, a;
  }

  // ---------------------------------------------------------------------------
  // cut_segment

  /** The two points where rays p and q meet a non-degenerate segment. */
  function Cut(seg: Segment, p: Vec2, q: Vec2): Option<Segment>
  {
    if AlmostEqualVec(seg.a, seg.b) then None
    else
      var c := Intersection(p, seg);
      var d := Intersection(q, seg);
      if c.Some? && d.Some? then Some(Segment(c.value, d.value)) else None
  }

  lemma CutProperties(seg: Segment, p: Vec2, q: Vec2)
    ensures Cut(seg, p, q).Some? <==>
              !AlmostEqualVec(seg.a, seg.b) && Intersection(p, seg).Some? && Intersection(q, seg).Some?
    ensures Cut(seg, p, q).Some? ==>
              Cut(seg, p, q).value == Segment(Intersection(p, seg).value, Intersection(q, seg).value)
    ensures Cut(seg, p, q).Some? ==>
              Cross(p, Cut(seg, p, q).value.a) == 0.0 && Cross(q, Cut(seg, p, q).value.b) == 0.0
  {
    IntersectionOnBothLines(p, seg);
    IntersectionOnBothLines(q, seg);
  }

  /** cut_segment: `a` may already be written when the second ray misses. */
  method CutSegment(seg: Segment, p: Vec2, q: Vec2, a: Vec2, b: Vec2) returns (ok: bool, a': Vec2, b': Vec2)
    ensures ok == Cut(seg, p, q).Some?
    ensures ok ==> Segment(a', b') == Cut(seg, p, q).value
    ensures !ok ==> b' == b
    ensures !ok ==> a' == if !AlmostEqualVec(seg.a, seg.b) && Intersection(p, seg).Some?
                         then Intersection(p, seg).value else a
  {
    a', b' := a, b;
    if AlmostEqualVec(seg.a, seg.b) {
      return false, a', b';
    }
    var hit;
    hit, a' := RaySegmentIntersection(p, seg, a');
    if !hit {
      return false, a', b';
    }
    hit, b' := RaySegmentIntersection(q, seg, b');
    if !hit {
      return false, a', b';
    }
    return true, a', b';
  }

  // ---------------------------------------------------------------------------
  // find_right_left_limit

  /** The new (l, r) pair that the limits of bracketing rays a, b offer to the
      rays p, q, or None when they offer nothing closer than (l, r). A bracket
      with an infinite limit offers nothing: the source multiplies by IEEE
      infinity there, which the model does not follow. */
  function TighterLimits(m: Libm, p: Vec2, q: Vec2, a: ViewRay, b: ViewRay, l: real, r: real): Option<(real, real)>
  {
    if !(Positive(a.l) && Positive(b.r)) || a.l.Inf? || b.r.Inf? then None
    else
      var cd := Cut(Segment(Scale(a.v, a.l.value), Scale(b.v, b.r.value)), p, q);
      if cd.None? then None
      else
        var nc := Norm(m, cd.value.a);
        var nd := Norm(m, cd.value.b);
        if l + r < 0.0 || l + r > nc + nd then Some((nc, nd)) else None
  }

  /** An update happens only for positive bracket limits and a successful cut,
      yields the norms of the two cut points, and makes a non-negative sum
      strictly smaller; with a valid sqrt the new pair is non-negative. */
  lemma TighterLimitsProperties(m: Libm, p: Vec2, q: Vec2, a: ViewRay, b: ViewRay, l: real, r: real)
    ensures TighterLimits(m, p, q, a, b, l, r).Some? ==>
              Positive(a.l) && Positive(b.r) && a.l.Fin? && b.r.Fin? &&
              Cut(Segment(Scale(a.v, a.l.value), Scale(b.v, b.r.value)), p, q).Some?
    ensures TighterLimits(m, p, q, a, b, l, r).Some? ==>
              var c := Cut(Segment(Scale(a.v, a.l.value), Scale(b.v, b.r.value)), p, q).value;
              TighterLimits(m, p, q, a, b, l, r).value == (Norm(m, c.a), Norm(m, c.b))
    ensures TighterLimits(m, p, q, a, b, l, r).Some? && l + r >= 0.0 ==>
              TighterLimits(m, p, q, a, b, l, r).value.0 + TighterLimits(m, p, q, a, b, l, r).value.1 < l + r
    ensures ValidLibm(m) && TighterLimits(m, p, q, a, b, l, r).Some? ==>
              TighterLimits(m, p, q, a, b, l, r).value.0 >= 0.0 && TighterLimits(m, p, q, a, b, l, r).value.1 >= 0.0
  {
    if ValidLibm(m) && TighterLimits(m, p, q, a, b, l, r).Some? {
      var c := Cut(Segment(Scale(a.v, a.l.value), Scale(b.v, b.r.value)), p, q).value;
      NormNonNegative(m, c.a);
      NormNonNegative(m, c.b);
    }
  }

  /** find_right_left_limit: l and r are in-out parameters. */
  method FindRightLeftLimit(m: Libm, p: Vec2, q: Vec2, a: ViewRay, b: ViewRay, l: real, r: real)
    returns (found: bool, l': real, r': real)
    ensures found == TighterLimits(m, p, q, a, b, l, r).Some?
    ensures (l', r') == if found then TighterLimits(m, p, q, a, b, l, r).value else (l, r)
  {
    found, l', r' := false, l, r;
    if Positive(a.l) && Positive(b.r) {
      if a.l.Inf? || b.r.Inf? {
        return;
      }
      var seg := Segment(Scale(a.v, a.l.value), Scale(b.v, b.r.value));
      var ok, c, d := CutSegment(seg, p, q, Zero(), Zero());
      if !ok {
        return;
      }
      var nc := Norm(m, c);
      var nd := Norm(m, d);
      if l + r < 0.0 || l + r > nc + nd {
        found, l', r' := true, nc, nd;
      }
    }
  }

  // ---------------------------------------------------------------------------
  // serial_visimerge: the specification

  /** Whether the step with cursors ai, bi copies from run a: when b is
      exhausted, or a is not and its ray does not come later (ties go to a). */
  predicate TakesA(a: seq<ViewRay>, b: seq<ViewRay>, ai: nat, bi: nat)
  {
    if bi >= |b| then true else if ai >= |a| then false else a[ai].t <= b[bi].t
  }

  /** The rays the merge copies from cursors ai, bi onward, in output order. */
  function MergedFrom(a: seq<ViewRay>, b: seq<ViewRay>, ai: nat, bi: nat): (o: seq<ViewRay>)
    requires ai <= |a| && bi <= |b|
    ensures |o| == |a| - ai + |b| - bi
    decreases |a| - ai + |b| - bi
  {
    if ai == |a| && bi == |b| then []
    else if TakesA(a, b, ai, bi) then [a[ai]] + MergedFrom(a, b, ai + 1, bi)
    else [b[bi]] + MergedFrom(a, b, ai, bi + 1)
  }

  /** The cursors (ai, bi) after i steps of the merge: ai rays of a and bi rays
      of b have been copied. */
  function Cursors(a: seq<ViewRay>, b: seq<ViewRay>, i: nat): (c: (nat, nat))
    requires i <= |a| + |b|
    ensures c.0 <= |a| && c.1 <= |b| && c.0 + c.1 == i
  {
    if i == 0 then (0, 0)
    else
      var c := Cursors(a, b, i - 1);
      if TakesA(a, b, c.0, c.1) then (c.0 + 1, c.1) else (c.0, c.1 + 1)
  }

  function Updated(u: Option<(real, real)>, lr: (real, real)): (real, real)
  {
    if u.Some? then u.value else lr
  }

  /** The limits written at a boundary between consecutive output rays prev
      and cur, when lai rays of a and lbi rays of b precede cur: 0 for equal
      angles, otherwise -1 unless the bracketing pair of run a, then that of
      run b, offers a tighter pair. */
  function BoundaryLimits(m: Libm, a: seq<ViewRay>, b: seq<ViewRay>, prev: ViewRay, cur: ViewRay,
                          lai: nat, lbi: nat): (real, real)
  {
    if cur.t == prev.t then (0.0, 0.0)
    else
      var fromA := if 0 < lai < |a|
                   then Updated(TighterLimits(m, prev.v, cur.v, a[lai - 1], a[lai], -1.0, -1.0), (-1.0, -1.0))
                   else (-1.0, -1.0);
      if 0 < lbi < |b|
      then Updated(TighterLimits(m, prev.v, cur.v, b[lbi - 1], b[lbi], fromA.0, fromA.1), fromA)
      else fromA
  }

  /** Only the angles and directions of the two boundary rays matter. */
  lemma BoundaryLimitsUseHeadings(m: Libm, a: seq<ViewRay>, b: seq<ViewRay>, prev: ViewRay, prev': ViewRay,
                                  cur: ViewRay, cur': ViewRay, lai: nat, lbi: nat)
    requires prev.t == prev'.t && prev.v == prev'.v && cur.t == cur'.t && cur.v == cur'.v
    ensures BoundaryLimits(m, a, b, prev, cur, lai, lbi) == BoundaryLimits(m, a, b, prev', cur', lai, lbi)
  {
  }

  /** The limits written at step i to the left side of output ray i-1 and the
      right side of output ray i. */
  function StepLimits(m: Libm, a: seq<ViewRay>, b: seq<ViewRay>, o: seq<ViewRay>, i: nat): (real, real)
    requires |o| == |a| + |b| && 0 < i < |o|
  {
    var c := Cursors(a, b, i);
    BoundaryLimits(m, a, b, o[i - 1], o[i], c.0, c.1)
  }

  /** Output ray k: the copied ray with its left limit from step k+1 and its
      right limit from step k; the first right and last left limits are kept. */
  function Relimited(m: Libm, a: seq<ViewRay>, b: seq<ViewRay>, o: seq<ViewRay>, k: nat): ViewRay
    requires |o| == |a| + |b| && k < |o|
  {
    o[k].(l := if k + 1 < |o| then Fin(StepLimits(m, a, b, o, k + 1).0) else o[k].l,
          r := if 0 < k then Fin(StepLimits(m, a, b, o, k).1) else o[k].r)
  }

  /** What serial_visimerge writes to dest[0 .. |a|+|b|). */
  function MergeRuns(m: Libm, a: seq<ViewRay>, b: seq<ViewRay>): (d: seq<ViewRay>)
    ensures |d| == |a| + |b|
  {
    RelimitedFrom(m, a, b, MergedFrom(a, b, 0, 0), 0)
  }

  /** Output rays k, k+1, ... of the merge. */
  function RelimitedFrom(m: Libm, a: seq<ViewRay>, b: seq<ViewRay>, o: seq<ViewRay>, k: nat): (d: seq<ViewRay>)
    requires |o| == |a| + |b| && k <= |o|
    ensures |d| == |o| - k
    decreases |o| - k
  {
    if k == |o| then [] else [Relimited(m, a, b, o, k)] + RelimitedFrom(m, a, b, o, k + 1)
  }

  lemma {:induction false} RelimitedFromAt(m: Libm, a: seq<ViewRay>, b: seq<ViewRay>, o: seq<ViewRay>, k: nat, j: nat)
    requires |o| == |a| + |b| && k + j < |o|
    ensures RelimitedFrom(m, a, b, o, k)[j] == Relimited(m, a, b, o, k + j)
    decreases j
  {
    var d := RelimitedFrom(m, a, b, o, k);
    assert d == [Relimited(m, a, b, o, k)] + RelimitedFrom(m, a, b, o, k + 1);
    if j > 0 {
      RelimitedFromAt(m, a, b, o, k + 1, j - 1);
      assert d[j] == RelimitedFrom(m, a, b, o, k + 1)[j - 1];
    }
  }

  /** Output ray k of the merge is the copied ray o[k] with limits from the
      two boundaries around it. */
  lemma MergeRunsAt(m: Libm, a: seq<ViewRay>, b: seq<ViewRay>, k: nat)
    requires k < |a| + |b|
    ensures MergeRuns(m, a, b)[k] == Relimited(m, a, b, MergedFrom(a, b, 0, 0), k)
  {
    RelimitedFromAt(m, a, b, MergedFrom(a, b, 0, 0), 0, k);
  }

  // ---------------------------------------------------------------------------
  // serial_visimerge: the method

  /** The limit update of one merge step: the limits for the boundary between
      prev and cur, consulting the bracketing pairs of both runs. */
  method ComputeBoundaryLimits(m: Libm, a: seq<ViewRay>, b: seq<ViewRay>, prev: ViewRay, cur: ViewRay,
                               lai: nat, lbi: nat) returns (l: real, r: real)
    ensures (l, r) == BoundaryLimits(m, a, b, prev, cur, lai, lbi)
  {
    l, r := -1.0, -1.0;
    if cur.t == prev.t {
      l, r := 0.0, 0.0;
    } else {
      var found;
      if 0 < lai < |a| {
        found, l, r := FindRightLeftLimit(m, prev.v, cur.v, a[lai - 1], a[lai], l, r);
      }
      if 0 < lbi < |b| {
        found, l, r := FindRightLeftLimit(m, prev.v, cur.v, b[lbi - 1], b[lbi], l, r);
      }
    }
  }

  /** Where the limits of the merged output come from: output ray k is the
      copied ray o[k]; its right limit is the one computed at step k and its
      left limit the one computed at step k+1, except that the first ray keeps
      its right limit and the last its left limit. */
  lemma MergeRunsShape(m: Libm, a: seq<ViewRay>, b: seq<ViewRay>, k: nat)
    requires k < |a| + |b|
    ensures var o, d := MergedFrom(a, b, 0, 0), MergeRuns(m, a, b);
            d[k].t == o[k].t && d[k].v == o[k].v &&
            d[k].l == (if k + 1 < |o| then Fin(StepLimits(m, a, b, o, k + 1).0) else o[k].l) &&
            d[k].r == (if 0 < k then Fin(StepLimits(m, a, b, o, k).1) else o[k].r)
  {
    MergeRunsAt(m, a, b, k);
  }

  /** The limits computed at step i from the copied ray before it (with its
      angle and direction) are those of output rays i-1 and i. */
  lemma MergeRunsBoundary(m: Libm, a: seq<ViewRay>, b: seq<ViewRay>, i: nat, prev: ViewRay, l: real, r: real)
    requires 0 < i < |a| + |b|
    requires prev == MergeRuns(m, a, b)[i - 1].(l := MergedFrom(a, b, 0, 0)[i - 1].l)
    requires (l, r) == BoundaryLimits(m, a, b, prev, MergedFrom(a, b, 0, 0)[i], Cursors(a, b, i).0, Cursors(a, b, i).1)
    ensures MergeRuns(m, a, b)[i - 1].l == Fin(l)
    ensures MergeRuns(m, a, b)[i] == MergedFrom(a, b, 0, 0)[i].(l := MergeRuns(m, a, b)[i].l, r := Fin(r))
  {
    var o := MergedFrom(a, b, 0, 0);
    MergeRunsShape(m, a, b, i - 1);
    MergeRunsShape(m, a, b, i);
    BoundaryLimitsUseHeadings(m, a, b, prev, o[i - 1], o[i], o[i], Cursors(a, b, i).0, Cursors(a, b, i).1);
  }

  // ---------------------------------------------------------------------------
  // serial_visimerge: what the merge promises

  lemma MultisetOfSuffix<T>(s: seq<T>, i: nat)
    requires i < |s|
    ensures multiset(s[i..]) == multiset{s[i]} + multiset(s[i + 1..])
  {
    assert s[i..] == [s[i]] + s[i + 1..];
  }

  lemma HeadingsOfCons(x: ViewRay, s: seq<ViewRay>)
    ensures Headings([x] + s) == [Heading(x)] + Headings(s)
  {
    assert forall k :: 0 <= k < |s| + 1 ==> Headings([x] + s)[k] == ([Heading(x)] + Headings(s))[k];
  }

  /** The merge copies the angle and direction of every ray of both runs
      exactly once. */
  lemma {:induction false} MergedFromHeadings(a: seq<ViewRay>, b: seq<ViewRay>, ai: nat, bi: nat)
    requires ai <= |a| && bi <= |b|
    ensures multiset(Headings(MergedFrom(a, b, ai, bi))) == multiset(Headings(a)[ai..]) + multiset(Headings(b)[bi..])
    decreases |a| - ai + |b| - bi
  {
    var o := MergedFrom(a, b, ai, bi);
    if ai == |a| && bi == |b| {
      assert Headings(a)[ai..] == [] && Headings(b)[bi..] == [];
    } else if TakesA(a, b, ai, bi) {
      var rest := MergedFrom(a, b, ai + 1, bi);
      assert o == [a[ai]] + rest;
      calc {
        multiset(Headings(o));
        == { HeadingsOfCons(a[ai], rest); }
        multiset([Heading(a[ai])] + Headings(rest));
        == { MergedFromHeadings(a, b, ai + 1, bi); }
        multiset{Heading(a[ai])} + (multiset(Headings(a)[ai + 1..]) + multiset(Headings(b)[bi..]));
        == { MultisetOfSuffix(Headings(a), ai); }
        multiset(Headings(a)[ai..]) + multiset(Headings(b)[bi..]);
      }
    } else {
      var rest := MergedFrom(a, b, ai, bi + 1);
      assert o == [b[bi]] + rest;
      calc {
        multiset(Headings(o));
        == { HeadingsOfCons(b[bi], rest); }
        multiset([Heading(b[bi])] + Headings(rest));
        == { MergedFromHeadings(a, b, ai, bi + 1); }
        multiset{Heading(b[bi])} + (multiset(Headings(a)[ai..]) + multiset(Headings(b)[bi + 1..]));
        == { MultisetOfSuffix(Headings(b), bi); }
        multiset(Headings(a)[ai..]) + multiset(Headings(b)[bi..]);
      }
    }
  }

  /** Every ray the merge copies from cursors ai, bi onward has an angle of at
      least any bound the two cursor rays respect. */
  lemma {:induction false} MergedFromBounded(a: seq<ViewRay>, b: seq<ViewRay>, ai: nat, bi: nat, t: real)
    requires ai <= |a| && bi <= |b| && SortedByAngle(a) && SortedByAngle(b)
    requires ai < |a| ==> t <= a[ai].t
    requires bi < |b| ==> t <= b[bi].t
    ensures forall k :: 0 <= k < |MergedFrom(a, b, ai, bi)| ==> t <= MergedFrom(a, b, ai, bi)[k].t
    decreases |a| - ai + |b| - bi
  {
    if ai == |a| && bi == |b| {
    } else if TakesA(a, b, ai, bi) {
      MergedFromBounded(a, b, ai + 1, bi, t);
    } else {
      MergedFromBounded(a, b, ai, bi + 1, t);
    }
  }

  /** A ray no later than any ray of a sorted run can be put in front of it. */
  lemma ConsSorted(x: ViewRay, rest: seq<ViewRay>)
    requires SortedByAngle(rest)
    requires forall k :: 0 <= k < |rest| ==> x.t <= rest[k].t
    ensures SortedByAngle([x] + rest)
  {
    var s := [x] + rest;
    forall i, j | 0 <= i < j < |s|
      ensures s[i].t <= s[j].t
    {
      if i > 0 {
        assert s[i] == rest[i - 1] && s[j] == rest[j - 1];
      } else {
        assert s[j] == rest[j - 1];
      }
    }
  }

  /** Two runs sorted by angle merge into one. */
  lemma {:induction false} MergedFromSorted(a: seq<ViewRay>, b: seq<ViewRay>, ai: nat, bi: nat)
    requires ai <= |a| && bi <= |b| && SortedByAngle(a) && SortedByAngle(b)
    ensures SortedByAngle(MergedFrom(a, b, ai, bi))
    decreases |a| - ai + |b| - bi
  {
    if ai == |a| && bi == |b| {
    } else if TakesA(a, b, ai, bi) {
      var rest := MergedFrom(a, b, ai + 1, bi);
      MergedFromSorted(a, b, ai + 1, bi);
      MergedFromBounded(a, b, ai + 1, bi, a[ai].t);
      ConsSorted(a[ai], rest);
    } else {
      var rest := MergedFrom(a, b, ai, bi + 1);
      MergedFromSorted(a, b, ai, bi + 1);
      MergedFromBounded(a, b, ai, bi + 1, b[bi].t);
      ConsSorted(b[bi], rest);
    }
  }

  /** The output of serial_visimerge has the angles and directions of the
      rays in merge order; only the limits are rewritten. */
  lemma MergeRunsKeepsHeadings(m: Libm, a: seq<ViewRay>, b: seq<ViewRay>)
    ensures Headings(MergeRuns(m, a, b)) == Headings(MergedFrom(a, b, 0, 0))
  {
    var o, d := MergedFrom(a, b, 0, 0), MergeRuns(m, a, b);
    forall k | 0 <= k < |d|
      ensures Headings(d)[k] == Headings(o)[k]
    {
      MergeRunsShape(m, a, b, k);
    }
  }

  /** The output of serial_visimerge holds the angles and directions of both
      runs, each once. */
  lemma MergeRunsPermutation(m: Libm, a: seq<ViewRay>, b: seq<ViewRay>)
    ensures multiset(Headings(MergeRuns(m, a, b))) == multiset(Headings(a)) + multiset(Headings(b))
  {
    MergeRunsKeepsHeadings(m, a, b);
    MergedFromHeadings(a, b, 0, 0);
    assert Headings(a)[0..] == Headings(a) && Headings(b)[0..] == Headings(b);
  }

  /** The output of serial_visimerge is sorted by angle when both runs are. */
  lemma MergeRunsSorted(m: Libm, a: seq<ViewRay>, b: seq<ViewRay>)
    requires SortedByAngle(a) && SortedByAngle(b)
    ensures SortedByAngle(MergeRuns(m, a, b))
  {
    var o, d := MergedFrom(a, b, 0, 0), MergeRuns(m, a, b);
    MergeRunsKeepsHeadings(m, a, b);
    MergedFromSorted(a, b, 0, 0);
    forall i, j | 0 <= i < j < |d|
      ensures d[i].t <= d[j].t
    {
      assert Headings(d)[i] == Headings(o)[i] && Headings(d)[j] == Headings(o)[j];
    }
  }

  /** With a valid sqrt, a boundary gets 0 on both sides for equal angles,
      and otherwise either the -1 pair or a pair of non-negative distances. */
  lemma BoundaryLimitsRange(m: Libm, a: seq<ViewRay>, b: seq<ViewRay>, prev: ViewRay, cur: ViewRay, lai: nat, lbi: nat)
    requires ValidLibm(m)
    ensures cur.t == prev.t ==> BoundaryLimits(m, a, b, prev, cur, lai, lbi) == (0.0, 0.0)
    ensures BoundaryLimits(m, a, b, prev, cur, lai, lbi) == (-1.0, -1.0) ||
            (BoundaryLimits(m, a, b, prev, cur, lai, lbi).0 >= 0.0 && BoundaryLimits(m, a, b, prev, cur, lai, lbi).1 >= 0.0)
  {
    if cur.t != prev.t {
      if 0 < lai < |a| {
        TighterLimitsProperties(m, prev.v, cur.v, a[lai - 1], a[lai], -1.0, -1.0);
      }
      var fromA := if 0 < lai < |a|
                   then Updated(TighterLimits(m, prev.v, cur.v, a[lai - 1], a[lai], -1.0, -1.0), (-1.0, -1.0))
                   else (-1.0, -1.0);
      if 0 < lbi < |b| {
        TighterLimitsProperties(m, prev.v, cur.v, b[lbi - 1], b[lbi], fromA.0, fromA.1);
      }
    }
  }

  /** The boundary between output rays k and k+1: both facing limits are
      finite, 0 for equal angles, and with a valid sqrt either both -1 or both
      non-negative distances. */
  lemma MergeRunsBoundaryLimits(m: Libm, a: seq<ViewRay>, b: seq<ViewRay>, k: nat)
    requires k + 1 < |a| + |b|
    ensures var d := MergeRuns(m, a, b);
            d[k].l.Fin? && d[k + 1].r.Fin? &&
            (d[k].t == d[k + 1].t ==> d[k].l == Fin(0.0) && d[k + 1].r == Fin(0.0)) &&
            (ValidLibm(m) ==>
               (d[k].l == Fin(-1.0) && d[k + 1].r == Fin(-1.0)) || (d[k].l.value >= 0.0 && d[k + 1].r.value >= 0.0))
  {
    var o := MergedFrom(a, b, 0, 0);
    MergeRunsShape(m, a, b, k);
    MergeRunsShape(m, a, b, k + 1);
    if ValidLibm(m) {
      BoundaryLimitsRange(m, a, b, o[k], o[k + 1], Cursors(a, b, k + 1).0, Cursors(a, b, k + 1).1);
    }
  }

  /** All facing limits of the merged output are finite: the infinite limits
      of the initial rays survive only at the two ends, which keep the limits
      of the rays copied there. */
  lemma MergeRunsInteriorFinite(m: Libm, a: seq<ViewRay>, b: seq<ViewRay>)
    ensures var o, d := MergedFrom(a, b, 0, 0), MergeRuns(m, a, b);
            InteriorFinite(d) && (0 < |d| ==> d[0].r == o[0].r && d[|d| - 1].l == o[|d| - 1].l)
  {
    var d := MergeRuns(m, a, b);
    forall k | 0 <= k < |d| - 1
      ensures d[k].l.Fin?
    {
      MergeRunsBoundaryLimits(m, a, b, k);
    }
    assert forall k :: 0 < k < |d| ==> d[k].r.Fin? by {
      forall k | 0 < k < |d|
        ensures d[k].r.Fin?
      {
        MergeRunsBoundaryLimits(m, a, b, k - 1);
      }
    }
    if 0 < |d| {
      MergeRunsShape(m, a, b, 0);
      MergeRunsShape(m, a, b, |d| - 1);
    }
  }

  /** The contents w of dest after i merge steps producing d from the copied
      rays o at offset dOff, when it held init before: rays 0 .. i-2 are final,
      ray i-1 still has the left limit it was copied with, nothing else has
      changed. */
  ghost predicate MergeState(o: seq<ViewRay>, d: seq<ViewRay>, init: seq<ViewRay>, w: seq<ViewRay>,
                             dOff: nat, i: nat)
  {
    |o| == |d| && |w| == |init| && dOff + |d| <= |w| && i <= |d| &&
    (forall k :: 0 <= k < |w| && !(dOff <= k < dOff + i) ==> w[k] == init[k]) &&
    (forall k :: 0 <= k < i - 1 ==> w[dOff + k] == d[k]) &&
    (0 < i ==> w[dOff + i - 1] == d[i - 1].(l := o[i - 1].l))
  }

  /** The first step keeps MergeState when d[0] differs from o[0] only in its
      left limit. */
  lemma MergeStateFirst(o: seq<ViewRay>, d: seq<ViewRay>, init: seq<ViewRay>, w: seq<ViewRay>, dOff: nat)
    requires MergeState(o, d, init, w, dOff, 0) && 0 < |d|
    requires d[0].(l := o[0].l) == o[0]
    ensures MergeState(o, d, init, w[dOff := o[0]], dOff, 1)
  {
  }

  /** Step i > 0 keeps MergeState: dest[dOff+i] receives o[i], then output ray
      i-1 is completed and ray i gets its right limit. */
  lemma MergeStateStep(o: seq<ViewRay>, d: seq<ViewRay>, init: seq<ViewRay>, w: seq<ViewRay>,
                       dOff: nat, i: nat, l: real, r: real)
    requires MergeState(o, d, init, w, dOff, i) && 0 < i < |d|
    requires d[i - 1].l == Fin(l) && d[i] == o[i].(l := d[i].l, r := Fin(r))
    ensures MergeState(o, d, init, w[dOff + i := o[i]][dOff + i - 1 := w[dOff + i - 1].(l := Fin(l))]
                                     [dOff + i := o[i].(r := Fin(r))], dOff, i + 1)
  {
  }

  /** After the last step the merged run is in place. */
  lemma MergeStateDone(o: seq<ViewRay>, d: seq<ViewRay>, init: seq<ViewRay>, w: seq<ViewRay>, dOff: nat)
    requires MergeState(o, d, init, w, dOff, |d|)
    requires 0 < |d| ==> d[|d| - 1].l == o[|d| - 1].l
    ensures w[dOff..dOff + |d|] == d
    ensures forall k :: 0 <= k < |w| && !(dOff <= k < dOff + |d|) ==> w[k] == init[k]
  {
    assert forall k :: 0 <= k < |d| ==> w[dOff..dOff + |d|][k] == d[k];
  }

  /** The cursors and the rest of the merged output advance together. */
  lemma CursorsStep(a: seq<ViewRay>, b: seq<ViewRay>, i: nat, ai: nat, bi: nat)
    requires i < |a| + |b| && Cursors(a, b, i) == (ai, bi)
    requires MergedFrom(a, b, 0, 0)[i..] == MergedFrom(a, b, ai, bi)
    ensures MergedFrom(a, b, 0, 0)[i] == MergedFrom(a, b, ai, bi)[0]
    ensures var c := if TakesA(a, b, ai, bi) then (ai + 1, bi) else (ai, bi + 1);
            Cursors(a, b, i + 1) == c && MergedFrom(a, b, 0, 0)[i + 1..] == MergedFrom(a, b, c.0, c.1)
  {
    var o := MergedFrom(a, b, 0, 0);
    assert o[i + 1..] == o[i..][1..];
  }

  /** The first copy of a merge: the first copied ray is stored as it is. */
  method StoreFirst(m: Libm, a: seq<ViewRay>, b: seq<ViewRay>, dest: array<ViewRay>, dOff: nat, cur: ViewRay,
                    ghost d: seq<ViewRay>, ghost init: seq<ViewRay>)
    requires d == MergeRuns(m, a, b) && 0 < |a| + |b| && cur == MergedFrom(a, b, 0, 0)[0]
    requires MergeState(MergedFrom(a, b, 0, 0), d, init, dest[..], dOff, 0)
    modifies dest
    ensures MergeState(MergedFrom(a, b, 0, 0), d, init, dest[..], dOff, 1)
  {
    ghost var w := dest[..];
    MergeRunsShape(m, a, b, 0);
    MergeStateFirst(MergedFrom(a, b, 0, 0), d, init, w, dOff);
    dest[dOff] := cur;
    assert dest[..] == w[dOff := cur];
  }

  /** A later step i > 0 of a merge: store the copied ray cur, then the limits of
      the boundary between output rays i-1 and i. */
  method StoreSealed(m: Libm, a: seq<ViewRay>, b: seq<ViewRay>, dest: array<ViewRay>, dOff: nat,
                     i: nat, ai: nat, bi: nat, cur: ViewRay, ghost d: seq<ViewRay>, ghost init: seq<ViewRay>)
    requires d == MergeRuns(m, a, b) && 0 < i < |a| + |b| && Cursors(a, b, i) == (ai, bi)
    requires cur == MergedFrom(a, b, 0, 0)[i]
    requires MergeState(MergedFrom(a, b, 0, 0), d, init, dest[..], dOff, i)
    modifies dest
    ensures MergeState(MergedFrom(a, b, 0, 0), d, init, dest[..], dOff, i + 1)
  {
    ghost var w := dest[..];
    var l, r := ComputeBoundaryLimits(m, a, b, dest[dOff + i - 1], cur, ai, bi);
    MergeRunsBoundary(m, a, b, i, w[dOff + i - 1], l, r);
    MergeStateStep(MergedFrom(a, b, 0, 0), d, init, w, dOff, i, l, r);
    dest[dOff + i] := cur;
    dest[dOff + i - 1] := dest[dOff + i - 1].(l := Fin(l));
    dest[dOff + i] := dest[dOff + i].(r := Fin(r));
    assert dest[..] == w[dOff + i := cur][dOff + i - 1 := w[dOff + i - 1].(l := Fin(l))][dOff + i := cur.(r := Fin(r))];
  }

  /** One step i of the merge loop: choose the run to copy from,
      copy its next ray into dest[dOff+i] and store the limits of the boundary
      it closes. */
  method MergeStep(m: Libm, a: seq<ViewRay>, b: seq<ViewRay>, dest: array<ViewRay>, dOff: nat,
                   i: nat, ai: nat, bi: nat, ghost d: seq<ViewRay>, ghost init: seq<ViewRay>)
    returns (ai': nat, bi': nat)
    requires d == MergeRuns(m, a, b)
    requires i < |a| + |b| && Cursors(a, b, i) == (ai, bi)
    requires MergedFrom(a, b, 0, 0)[i..] == MergedFrom(a, b, ai, bi)
    requires MergeState(MergedFrom(a, b, 0, 0), d, init, dest[..], dOff, i)
    modifies dest
    ensures Cursors(a, b, i + 1) == (ai', bi')
    ensures MergedFrom(a, b, 0, 0)[i + 1..] == MergedFrom(a, b, ai', bi')
    ensures MergeState(MergedFrom(a, b, 0, 0), d, init, dest[..], dOff, i + 1)
  {
    CursorsStep(a, b, i, ai, bi);
    var p;
    if bi >= |b| {
      p := true;
    } else if ai >= |a| {
      p := false;
    } else {
      p := a[ai].t <= b[bi].t;
    }
    var cur := if p then a[ai] else b[bi];
    if i == 0 {
      StoreFirst(m, a, b, dest, dOff, cur, d, init);
    } else {
      StoreSealed(m, a, b, dest, dOff, i, ai, bi, cur, d, init);
    }
    if p {
      ai', bi' := ai + 1, bi;
    } else {
      ai', bi' := ai, bi + 1;
    }
  }

  /** serial_visimerge: merges the runs a and b into dest[dOff..dOff+|a|+|b|). */
  method SerialVisimerge(m: Libm, a: seq<ViewRay>, b: seq<ViewRay>, dest: array<ViewRay>, dOff: nat)
    requires dOff + |a| + |b| <= dest.Length
    modifies dest
    ensures dest[dOff..dOff + |a| + |b|] == MergeRuns(m, a, b)
    ensures forall k :: 0 <= k < dest.Length && !(dOff <= k < dOff + |a| + |b|) ==> dest[k] == old(dest[k])
  {
    ghost var d := MergeRuns(m, a, b);
    ghost var init := dest[..];
    var count := |a| + |b|;
    var ai, bi := 0, 0;
    for i := 0 to count
      invariant Cursors(a, b, i) == (ai, bi)
      invariant MergedFrom(a, b, 0, 0)[i..] == MergedFrom(a, b, ai, bi)
      invariant MergeState(MergedFrom(a, b, 0, 0), d, init, dest[..], dOff, i)
    {
      ai, bi := MergeStep(m, a, b, dest, dOff, i, ai, bi, d, init);
    }
    if count > 0 {
      MergeRunsShape(m, a, b, count - 1);
    }
    MergeStateDone(MergedFrom(a, b, 0, 0), d, init, dest[..], dOff);
  }

  // ---------------------------------------------------------------------------
  // serial_visimerge as a value

  /** A two-run merge as a value, so that the passes of serial_visimergesort can be
      stated apart from the limit arithmetic of the merge. */
  type Merge = f: (seq<ViewRay>, seq<ViewRay>) -> seq<ViewRay> | forall a, b :: |f(a, b)| == |a| + |b|
    witness (a: seq<ViewRay>, b: seq<ViewRay>) => a + b

  /** MergeRuns as a Merge. */
  function Merger(m: Libm): Merge
  {
    (a, b) => MergeRuns(m, a, b)
  }

  /** merge is the merge of serial_visimerge; the trigger ties each use of the
      fact to a MergeRuns term that is already present. */
  ghost predicate Merges(m: Libm, merge: Merge)
  {
    forall a, b {:trigger MergeRuns(m, a, b)} :: merge(a, b) == MergeRuns(m, a, b)
  }

  lemma MergerMerges(m: Libm)
    ensures Merges(m, Merger(m))
  {
  }

}
