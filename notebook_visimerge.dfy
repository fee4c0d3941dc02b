/**
 * The Python prototype of the algorithm, notebook/visimerge.py: the rays of
 * one segment, the split of a segment that crosses the positive x-axis, the
 * ray/segment intersection and the cut, the two-run merge with its limit
 * rewrite, and the recursive divide-and-conquer over the segment list.
 *
 * The prototype's rays carry real limits with -1 for "no limit" where the
 * C++ code uses an infinity; AsViewRay relates the two representations.
 */
module NotebookVisimerge {
  import opened Options
  import opened Util
  import opened CMath
  import opened Vectors
  import opened Segments
  import V = ViewRays
  import SV = SerialVisimerge
  import S = SerialVisimergesort

  /** The prototype's view ray, fields in its order: angle a, unit direction v,
      right limit r and left limit l. */
  datatype Ray = Ray(a: real, v: Vec2, r: real, l: real)

  /** The sentinel for a missing limit. */
  const NoLimit: real := -1.0

  /** The angle and the direction of a ray: what the merge never rewrites. */
  function Heading(x: Ray): (real, Vec2) { (x.a, x.v) }

  function Headings(s: seq<Ray>): (h: seq<(real, Vec2)>)
    ensures |h| == |s|
  {
    if s == [] then [] else [Heading(s[0])] + Headings(s[1..])
  }

  lemma {:induction false} HeadingsAt(s: seq<Ray>, k: nat)
    requires k < |s|
    ensures Headings(s)[k] == Heading(s[k])
  {
    if k > 0 {
      HeadingsAt(s[1..], k - 1);
    }
  }

  /** Two sequences have the same headings exactly when they are equally
      long and agree on the heading at every index. */
  lemma HeadingsEqual(x: seq<Ray>, y: seq<Ray>)
    ensures Headings(x) == Headings(y) <==> |x| == |y| && forall k :: 0 <= k < |x| ==> Heading(x[k]) == Heading(y[k])
  {
    forall k | 0 <= k < |x| && k < |y| ensures Headings(x)[k] == Heading(x[k]) && Headings(y)[k] == Heading(y[k]) {
      HeadingsAt(x, k);
      HeadingsAt(y, k);
    }
  }

  lemma AppendAssociative<T>(p: seq<T>, q: seq<T>, r: seq<T>)
    ensures p + (q + r) == (p + q) + r
  {
  }

  lemma {:induction false} HeadingsAppend(x: seq<Ray>, y: seq<Ray>)
    ensures Headings(x + y) == Headings(x) + Headings(y)
  {
    if x == [] {
      assert x + y == y;
    } else {
      var z := x + y;
      assert z[0] == x[0] && z[1..] == x[1..] + y;
      HeadingsAppend(x[1..], y);
      AppendAssociative([Heading(x[0])], Headings(x[1..]), Headings(y));
    }
  }

  /** The multiset of the headings of s. */
  function HeadingBag(s: seq<Ray>): multiset<(real, Vec2)>
  {
    multiset(Headings(s))
  }

  lemma HeadingsCons(x: Ray, rest: seq<Ray>)
    ensures Headings([x] + rest) == [Heading(x)] + Headings(rest)
  {
    assert ([x] + rest)[0] == x && ([x] + rest)[1..] == rest;
  }

  predicate Sorted(s: seq<Ray>)
  {
    forall j, k :: 0 <= j < k < |s| ==> s[j].a <= s[k].a
  }

  /** Sortedness is a property of the headings alone. */
  lemma SortedByHeadings(x: seq<Ray>, y: seq<Ray>)
    requires Headings(x) == Headings(y)
    ensures Sorted(x) == Sorted(y)
  {
    HeadingsEqual(x, y);
    assert forall k :: 0 <= k < |x| ==> x[k].a == Heading(x[k]).0 == Heading(y[k]).0 == y[k].a;
  }

  // ---------------------------------------------------------------------------
  // viewrays_for_segment

  /** The opening ray at endpoint a (no right limit, left limit |a|) and the
      closing ray at b (right limit |b|, no left limit), after ordering the
      endpoints so that cross(a, b) >= 0; a closing angle of 0 becomes 2 pi. */
  function ViewraysForSegment(m: Libm, p: Segment): seq<Ray>
    requires S.OffOrigin(m, p)
  {
    var o := S.Oriented(p);
    var atan2b := if Atan2(m, o.b) != 0.0 then Atan2(m, o.b) else 2.0 * m.pi;
    [Ray(Atan2(m, o.a), Normalize(m, o.a), NoLimit, Norm(m, o.a)),
     Ray(atan2b, Normalize(m, o.b), Norm(m, o.b), NoLimit)]
  }

  /** The C++ limit a prototype limit stands for. */
  function Limit(x: real): V.Lim { if x == NoLimit then V.Inf else V.Fin(x) }

  function AsViewRay(x: Ray): V.ViewRay { V.ViewRay(x.a, x.v, Limit(x.l), Limit(x.r)) }

  /** The prototype builds the very rays init_viewrays writes for a segment,
      with -1 in place of the infinite limits. */
  lemma ViewraysMatchInitViewrays(m: Libm, p: Segment)
    requires ValidLibm(m) && S.OffOrigin(m, p)
    ensures var rays, c := ViewraysForSegment(m, p), S.SegmentRays(m, p);
            |rays| == 2 && AsViewRay(rays[0]) == c[0] && AsViewRay(rays[1]) == c[1]
  {
    var o := S.Oriented(p);
    var na, nb := Norm(m, o.a), Norm(m, o.b);
    NormNonNegative(m, o.a);
    NormNonNegative(m, o.b);
    assert Limit(na) == V.Fin(na) && Limit(nb) == V.Fin(nb) && Limit(NoLimit) == V.Inf;
    var rays, c := ViewraysForSegment(m, p), S.SegmentRays(m, p);
    assert rays[0] == Ray(Atan2(m, o.a), Normalize(m, o.a), NoLimit, na);
    assert c[0] == V.ViewRay(Atan2(m, o.a), Normalize(m, o.a), V.Fin(na), V.Inf);
    assert rays[1].a == c[1].t && rays[1].v == c[1].v && rays[1].r == nb && rays[1].l == NoLimit;
  }

  // ---------------------------------------------------------------------------
  // visible_region_for_segment

  /** The split test on ordered endpoints: the segment is not horizontal and
      meets the positive x-axis strictly between a and b. */
  predicate CrossesPositiveXAxis(o: Segment)
  {
    var s := Sub(o.b, o.a);
    s.y != 0.0 && 0.0 < -o.a.y / s.y < 1.0 && o.a.x + s.x * (-o.a.y / s.y) > 0.0
  }

  /** Where a non-horizontal segment's line meets the x-axis. */
  function CrossingPoint(o: Segment): Vec2
    requires Sub(o.b, o.a).y != 0.0
  {
    var s := Sub(o.b, o.a);
    Add(o.a, Scale(s, -o.a.y / s.y))
  }

  /** The rays of one segment, split in two at the positive x-axis when the
      segment crosses it, so that no part wraps around angle 0: a horizontal
      segment, or one that misses the positive x-axis strictly between its
      ordered endpoints, keeps its plain rays. */
  function VisibleRegionForSegment(m: Libm, p: Segment): seq<Ray>
    requires ValidLibm(m) && S.OffOrigin(m, p)
  {
    var o := S.Oriented(p);
    if CrossesPositiveXAxis(o) then
      var c := CrossingPoint(o);
      NormNonNegative(m, c);
      ViewraysForSegment(m, Segment(c, o.b)) + ViewraysForSegment(m, Segment(o.a, c))
    else
      ViewraysForSegment(m, p)
  }

  /** Moving from a towards b by a fraction i of the way scales the two
      cross products with the endpoints by the remaining and the covered part. */
  lemma CrossAlong(a: Vec2, b: Vec2, i: real)
    ensures Cross(Add(a, Scale(Sub(b, a), i)), b) == (1.0 - i) * Cross(a, b)
    ensures Cross(a, Add(a, Scale(Sub(b, a), i))) == i * Cross(a, b)
  {
    var c := Add(a, Scale(Sub(b, a), i));
    assert c.x == a.x + (b.x - a.x) * i && c.y == a.y + (b.y - a.y) * i;
    calc {
      Cross(c, b);
      (a.x + (b.x - a.x) * i) * b.y - (a.y + (b.y - a.y) * i) * b.x;
      (a.x * b.y - a.y * b.x) - i * (a.x * b.y - a.y * b.x);
    }
    calc {
      Cross(a, c);
      a.x * (a.y + (b.y - a.y) * i) - a.y * (a.x + (b.x - a.x) * i);
      i * (a.x * b.y - a.y * b.x);
    }
  }

  /** The crossing point of a counter-clockwise segment lies on the positive
      x-axis, and both halves (c, b) and (a, c) are counter-clockwise again. */
  lemma CrossingPointFacts(o: Segment)
    requires CrossesPositiveXAxis(o) && Cross(o.a, o.b) >= 0.0
    ensures var c := CrossingPoint(o);
            c.y == 0.0 && c.x > 0.0 && Cross(c, o.b) >= 0.0 && Cross(o.a, c) >= 0.0
  {
    var s := Sub(o.b, o.a);
    var i := -o.a.y / s.y;
    var c := CrossingPoint(o);
    assert c == Add(o.a, Scale(s, i));
    assert c.y == o.a.y + s.y * i == 0.0;
    CrossAlong(o.a, o.b, i);
    assert (1.0 - i) * Cross(o.a, o.b) >= 0.0;
    assert i * Cross(o.a, o.b) >= 0.0;
  }

  /** A segment that does not cross the positive x-axis keeps its two rays. One
      that does is split at the crossing c: the rays of (c, b) and then those
      of (a, c), which are the plain rays of b and a between two new rays along
      c at angles 0 and 2 pi. */
  lemma VisibleRegionForSegmentCases(m: Libm, p: Segment)
    requires ValidLibm(m) && S.OffOrigin(m, p)
    ensures var o, rays := S.Oriented(p), VisibleRegionForSegment(m, p);
            !CrossesPositiveXAxis(o) ==> rays == ViewraysForSegment(m, p)
    ensures var o, rays, plain := S.Oriented(p), VisibleRegionForSegment(m, p), ViewraysForSegment(m, p);
            CrossesPositiveXAxis(o) ==>
              var c := CrossingPoint(o);
              c.y == 0.0 && c.x > 0.0 && Norm(m, c) > 0.0 &&
              rays == [Ray(0.0, Normalize(m, c), NoLimit, Norm(m, c)), plain[1],
                       plain[0], Ray(2.0 * m.pi, Normalize(m, c), Norm(m, c), NoLimit)]
  {
    var o := S.Oriented(p);
    if CrossesPositiveXAxis(o) {
      var c := CrossingPoint(o);
      CrossingPointFacts(o);
      NormNonNegative(m, c);
      Atan2PositiveXAxis(m, c);
      var first, second := Segment(c, o.b), Segment(o.a, c);
      assert S.Oriented(first) == first;
      assert S.Oriented(second) == second;
    }
  }

  /** Only a crossing segment yields four rays. */
  lemma VisibleRegionForSegmentSize(m: Libm, p: Segment)
    requires ValidLibm(m) && S.OffOrigin(m, p)
    ensures |VisibleRegionForSegment(m, p)| == (if CrossesPositiveXAxis(S.Oriented(p)) then 4 else 2)
  {
    VisibleRegionForSegmentCases(m, p);
  }

  // ---------------------------------------------------------------------------
  // ray_segment_intersection and cut_segment

  /** Where the line through the origin along v meets segment p: None when the
      two are parallel, or when the meeting point is outside the segment. */
  function RaySegmentIntersection(p: Segment, v: Vec2): Option<Vec2>
  {
    var u := Sub(p.b, p.a);
    var s := Cross(u, v);
    if s == 0.0 then None
    else
      var i := Cross(v, Div(p.a, s));
      if 0.0 <= i <= 1.0 then Some(Add(p.a, Scale(u, i))) else None
  }

  /** The point of segment p at parameter t. */
  function PointAt(p: Segment, t: real): Vec2 { Add(p.a, Scale(Sub(p.b, p.a), t)) }

  /** The one parameter at which the line along v meets the line of p. */
  lemma LineParameterUnique(p: Segment, v: Vec2, t: real)
    requires Cross(Sub(p.b, p.a), v) != 0.0
    ensures Cross(v, PointAt(p, t)) == 0.0 <==> t == Cross(v, Div(p.a, Cross(Sub(p.b, p.a), v)))
  {
    var u := Sub(p.b, p.a);
    var s := Cross(u, v);
    var i := Cross(v, Div(p.a, s));
    var w := Cross(v, p.a);
    calc {
      Cross(v, PointAt(p, t));
      v.x * (p.a.y + u.y * t) - v.y * (p.a.x + u.x * t);
      w + t * (v.x * u.y - v.y * u.x);
      w - t * s;
    }
    calc {
      i * s;
      (v.x * (p.a.y / s) - v.y * (p.a.x / s)) * s;
      v.x * ((p.a.y / s) * s) - v.y * ((p.a.x / s) * s);
      w;
    }
    assert w - t * s == (i - t) * s;
  }

  /** The intersection is exactly the point of the segment, parameter in
      [0, 1], that lies on the line along v, provided the lines are not
      parallel; parallel lines, a zero-length segment included, give None. */
  lemma IntersectionExact(p: Segment, v: Vec2, t: real)
    ensures RaySegmentIntersection(p, v) == Some(PointAt(p, t)) <==>
              Cross(Sub(p.b, p.a), v) != 0.0 && 0.0 <= t <= 1.0 && Cross(v, PointAt(p, t)) == 0.0
    ensures Cross(Sub(p.b, p.a), v) == 0.0 ==> RaySegmentIntersection(p, v) == None
    ensures p.a == p.b ==> RaySegmentIntersection(p, v) == None
  {
    var u := Sub(p.b, p.a);
    var s := Cross(u, v);
    if p.a == p.b {
      assert u == Zero();
    }
    if s != 0.0 {
      var i := Cross(v, Div(p.a, s));
      LineParameterUnique(p, v, t);
      LineParameterUnique(p, v, i);
      if RaySegmentIntersection(p, v) == Some(PointAt(p, t)) {
        assert PointAt(p, i) == PointAt(p, t);
        assert Scale(u, i) == Scale(u, t);
        assert u.x != 0.0 || u.y != 0.0;
        if u.x != 0.0 {
          assert u.x * i == u.x * t;
        } else {
          assert u.y * i == u.y * t;
        }
      }
    }
  }

  /** A found point is on the line along v and on the segment. */
  lemma IntersectionOnSegment(p: Segment, v: Vec2)
    ensures RaySegmentIntersection(p, v).Some? ==>
              exists t :: 0.0 <= t <= 1.0 && RaySegmentIntersection(p, v) == Some(PointAt(p, t)) &&
                          Cross(v, PointAt(p, t)) == 0.0
  {
    var u := Sub(p.b, p.a);
    var s := Cross(u, v);
    if RaySegmentIntersection(p, v).Some? {
      var i := Cross(v, Div(p.a, s));
      IntersectionExact(p, v, i);
      assert RaySegmentIntersection(p, v) == Some(PointAt(p, i));
    }
  }

  /** The part of segment q between the rays along v and w. */
  function CutSegment(q: Segment, v: Vec2, w: Vec2): Option<Segment>
  {
    var a := RaySegmentIntersection(q, v);
    var b := RaySegmentIntersection(q, w);
    if a.None? || b.None? then None else Some(Segment(a.value, b.value))
  }

  /** A cut exists exactly when both rays hit the segment, and runs from the
      hit on v to the hit on w. */
  lemma CutSegmentProperties(q: Segment, v: Vec2, w: Vec2)
    ensures CutSegment(q, v, w).Some? <==>
              RaySegmentIntersection(q, v).Some? && RaySegmentIntersection(q, w).Some?
    ensures CutSegment(q, v, w).Some? ==>
              CutSegment(q, v, w).value.a == RaySegmentIntersection(q, v).value &&
              CutSegment(q, v, w).value.b == RaySegmentIntersection(q, w).value &&
              Cross(v, CutSegment(q, v, w).value.a) == 0.0 &&
              Cross(w, CutSegment(q, v, w).value.b) == 0.0
  {
    IntersectionOnSegment(q, v);
    IntersectionOnSegment(q, w);
  }

  // ---------------------------------------------------------------------------
  // merge: the specification

  /** The run merge takes from next: the run that is left once the other is
      exhausted, else a when its angle is strictly smaller, and b otherwise. */
  function Select(a: seq<Ray>, b: seq<Ray>, i0: nat, i1: nat): (sel: nat)
    requires i0 <= |a| && i1 <= |b| && (i0 < |a| || i1 < |b|)
    ensures sel <= 1 && (sel == 0 ==> i0 < |a|) && (sel == 1 ==> i1 < |b|)
  {
    if i0 == |a| || i1 == |b| then (if i0 < |a| then 0 else 1)
    else if a[i0].a < b[i1].a then 0 else 1
  }

  /** The ray Select picks. */
  function Selected(a: seq<Ray>, b: seq<Ray>, i0: nat, i1: nat): Ray
    requires i0 <= |a| && i1 <= |b| && (i0 < |a| || i1 < |b|)
  {
    if Select(a, b, i0, i1) == 0 then a[i0] else b[i1]
  }

  /** The segment between ray k - 1 and ray k of run c, drawn from the left
      limit of the first to the right limit of the second, when k is interior
      and both limits are positive. */
  function Bracket(c: seq<Ray>, k: nat): seq<Segment>
  {
    if 0 < k < |c| && c[k].r > 0.0 && c[k - 1].l > 0.0 then
      [Segment(Scale(c[k - 1].v, c[k - 1].l), Scale(c[k].v, c[k].r))]
    else []
  }

  /** The brackets of the first j runs, each at its own index. */
  function Brackets(c: seq<seq<Ray>>, i: seq<nat>, j: nat): seq<Segment>
    requires j <= |c| && j <= |i|
  {
    if j == 0 then [] else Brackets(c, i, j - 1) + Bracket(c[j - 1], i[j - 1])
  }

  /** The candidate segments of merge: the brackets of a at i0 and of b at i1. */
  function Candidates(a: seq<Ray>, b: seq<Ray>, i0: nat, i1: nat): seq<Segment>
  {
    Brackets([a, b], [i0, i1], 2)
  }

  /** A function that cuts a segment by two rays: cut_segment in the model of
      merge, any function in the lemmas that do not depend on the geometry. */
  type Cutter = (Segment, Vec2, Vec2) -> Option<Segment>

  /** The cuts of the candidate segments by the rays along v and w, in order,
      with the misses dropped. */
  function Cuts(cut: Cutter, ps: seq<Segment>, v: Vec2, w: Vec2): seq<Segment>
  {
    if ps == [] then []
    else
      var rest := Cuts(cut, ps[1..], v, w);
      match cut(ps[0], v, w)
      case Some(q) => [q] + rest
      case None => rest
  }

  /** Cuts keeps exactly the segments that are cuts of some candidate. */
  lemma {:induction false} CutsAreCuts(cut: Cutter, ps: seq<Segment>, v: Vec2, w: Vec2)
    ensures |Cuts(cut, ps, v, w)| <= |ps|
    ensures forall q :: q in Cuts(cut, ps, v, w) <==> exists p :: p in ps && cut(p, v, w) == Some(q)
  {
    if ps != [] {
      CutsAreCuts(cut, ps[1..], v, w);
      assert forall p :: p in ps <==> p == ps[0] || p in ps[1..];
    }
  }

  /** The sort key of a cut: the distances of its two ends. */
  function Key(m: Libm, q: Segment): (real, real) { (Norm(m, q.a), Norm(m, q.b)) }

  /** Tuple order on keys. */
  predicate KeyLess(x: (real, real), y: (real, real))
  {
    x.0 < y.0 || (x.0 == y.0 && x.1 < y.1)
  }

  /** The first of the cuts a stable sort by Key puts in front: its key is no
      greater than any other and strictly less than every earlier one. */
  function LeastIndex(m: Libm, cs: seq<Segment>): (k: nat)
    requires cs != []
    ensures k < |cs|
    ensures forall j :: 0 <= j < |cs| ==> !KeyLess(Key(m, cs[j]), Key(m, cs[k]))
    ensures forall j :: 0 <= j < k ==> KeyLess(Key(m, cs[k]), Key(m, cs[j]))
  {
    if |cs| == 1 then 0
    else
      var k := LeastIndex(m, cs[1..]) + 1;
      assert cs[k] == cs[1..][k - 1];
      assert forall j :: 1 <= j < |cs| ==> cs[j] == cs[1..][j - 1];
      if KeyLess(Key(m, cs[k]), Key(m, cs[0])) then k else 0
  }

  /** The limit rewrite at the boundary between the last two rays of t: when
      some cut exists, the left limit of the next-to-last ray and the right
      limit of the last ray become the distances of the ends of the least cut. */
  function Relimit(m: Libm, t: seq<Ray>, cs: seq<Segment>): seq<Ray>
    requires |t| >= 2
  {
    if cs == [] then t
    else
      var q := cs[LeastIndex(m, cs)];
      t[|t| - 2 := t[|t| - 2].(l := Norm(m, q.a))][|t| - 1 := t[|t| - 1].(r := Norm(m, q.b))]
  }

  /** One iteration of the loop of merge on the state (i0, i1, s): append the
      selected ray; from the second ray on, cut the bracketing segments of both
      runs (at their current indices) by the last two output rays and rewrite
      the limits between them. */
  function Step(m: Libm, cut: Cutter, a: seq<Ray>, b: seq<Ray>, i0: nat, i1: nat, s: seq<Ray>): seq<Ray>
    requires i0 <= |a| && i1 <= |b| && (i0 < |a| || i1 < |b|)
  {
    var t := s + [Selected(a, b, i0, i1)];
    if |t| == 1 then t
    else Relimit(m, t, Cuts(cut, Candidates(a, b, i0, i1), t[|t| - 2].v, t[|t| - 1].v))
  }

  /** The rest of the merge from state (i0, i1, s). */
  function MergeFrom(m: Libm, cut: Cutter, a: seq<Ray>, b: seq<Ray>, i0: nat, i1: nat, s: seq<Ray>): seq<Ray>
    requires i0 <= |a| && i1 <= |b|
    decreases |a| - i0 + |b| - i1
  {
    if i0 == |a| && i1 == |b| then s
    else
      var t := Step(m, cut, a, b, i0, i1, s);
      if Select(a, b, i0, i1) == 0 then MergeFrom(m, cut, a, b, i0 + 1, i1, t)
      else MergeFrom(m, cut, a, b, i0, i1 + 1, t)
  }

  /** What merge returns. */
  function Merged(m: Libm, a: seq<Ray>, b: seq<Ray>): seq<Ray>
  {
    MergeFrom(m, CutSegment, a, b, 0, 0, [])
  }

  // ---------------------------------------------------------------------------
  // merge: the loop

  /** The boundary work of one turn of merge, after the selected ray has
      been appended to s: collect the bracketing segments of both runs at
      their current indices (the inner loop over j), cut them by the last two
      rays of s, and rewrite s[-2].l and s[-1].r from the first cut in key
      order when there is one. */
  method Boundary(m: Libm, cut: Cutter, c: seq<seq<Ray>>, n: seq<nat>, i: seq<nat>, s: seq<Ray>)
    returns (t: seq<Ray>)
    requires |c| == 2 && |n| == 2 && |i| == 2 && n[0] == |c[0]| && n[1] == |c[1]| && |s| >= 2
    ensures t == Relimit(m, s, Cuts(cut, Candidates(c[0], c[1], i[0], i[1]), s[|s| - 2].v, s[|s| - 1].v))
  {
    var p: seq<Segment> := [];
    for j := 0 to 2
      invariant p == Brackets(c, i, j)
    {
      if 0 < i[j] < n[j] && c[j][i[j]].r > 0.0 && c[j][i[j] - 1].l > 0.0 {
        var v := c[j][i[j]];
        var w := c[j][i[j] - 1];
        p := p + [Segment(Scale(w.v, w.l), Scale(v.v, v.r))];
      }
    }
    assert c == [c[0], c[1]] && i == [i[0], i[1]];
    p := Cuts(cut, p, s[|s| - 2].v, s[|s| - 1].v);
    t := s;
    if p != [] {
      var q := p[LeastIndex(m, p)];
      t := t[|t| - 2 := t[|t| - 2].(l := Norm(m, q.a))];
      t := t[|t| - 1 := t[|t| - 1].(r := Norm(m, q.b))];
    }
  }

  /** One turn of the loop moves the merge to the next state. */
  lemma MergeFromStep(m: Libm, cut: Cutter, a: seq<Ray>, b: seq<Ray>, i0: nat, i1: nat, s: seq<Ray>, t: seq<Ray>)
    requires i0 <= |a| && i1 <= |b| && (i0 < |a| || i1 < |b|)
    requires t == Step(m, cut, a, b, i0, i1, s)
    ensures Select(a, b, i0, i1) == 0 ==> MergeFrom(m, cut, a, b, i0, i1, s) == MergeFrom(m, cut, a, b, i0 + 1, i1, t)
    ensures Select(a, b, i0, i1) == 1 ==> MergeFrom(m, cut, a, b, i0, i1, s) == MergeFrom(m, cut, a, b, i0, i1 + 1, t)
  {
  }

  /** One turn of the loop of merge: pick the run to take from, append its
      next ray, and from the second ray on do the boundary work. The caller
      advances the index of the selected run. */
  method Turn(m: Libm, cut: Cutter, a: seq<Ray>, b: seq<Ray>, c: seq<seq<Ray>>, n: seq<nat>, i: seq<nat>, s: seq<Ray>)
    returns (sel: nat, t: seq<Ray>)
    requires c == [a, b] && n == [|a|, |b|] && |i| == 2
    requires i[0] <= |a| && i[1] <= |b| && (i[0] < |a| || i[1] < |b|)
    ensures sel == Select(a, b, i[0], i[1])
    ensures t == Step(m, cut, a, b, i[0], i[1], s)
  {
    if i[0] == n[0] || i[1] == n[1] {
      sel := if i[0] < n[0] then 0 else 1;
    } else {
      sel := if c[0][i[0]].a < c[1][i[1]].a then 0 else 1;
    }
    assert c[sel][i[sel]] == Selected(a, b, i[0], i[1]);
    t := s + [c[sel][i[sel]]];
    if |t| == 1 {
      return;
    }
    t := Boundary(m, cut, c, n, i, t);
  }

  /** The loop of merge(a, b), with the run list c, the lengths n and the
      index list i of the prototype, over the function it cuts with. Only the
      first of the sorted cuts is read, so the sort is modelled by LeastIndex. */
  method MergeLoop(m: Libm, cut: Cutter, a: seq<Ray>, b: seq<Ray>) returns (s: seq<Ray>)
    ensures s == MergeFrom(m, cut, a, b, 0, 0, [])
  {
    var c: seq<seq<Ray>> := [a, b];
    var n: seq<nat> := [|a|, |b|];
    var i: seq<nat> := [0, 0];
    s := [];
    while i[0] < n[0] || i[1] < n[1]
      invariant |i| == 2 && i[0] <= |a| && i[1] <= |b|
      invariant MergeFrom(m, cut, a, b, i[0], i[1], s) == MergeFrom(m, cut, a, b, 0, 0, [])
      decreases |a| - i[0] + |b| - i[1]
    {
      ghost var j0, j1 := NextIndices(m, cut, a, b, i[0], i[1], s);
      var sel;
      sel, s := Turn(m, cut, a, b, c, n, i, s);
      i := i[sel := i[sel] + 1];
      assert i[0] == j0 && i[1] == j1;
    }
  }

  /** merge(a, b): the loop with cut_segment. */
  method Merge(m: Libm, a: seq<Ray>, b: seq<Ray>) returns (s: seq<Ray>)
    ensures s == Merged(m, a, b)
  {
    s := MergeLoop(m, CutSegment, a, b);
  }

  // ---------------------------------------------------------------------------
  // merge: properties

  /** The interleaving merge performs, without the limit rewrite. */
  function InterleaveFrom(a: seq<Ray>, b: seq<Ray>, i0: nat, i1: nat): (r: seq<Ray>)
    requires i0 <= |a| && i1 <= |b|
    ensures |r| == |a| - i0 + |b| - i1
    decreases |a| - i0 + |b| - i1
  {
    if i0 == |a| && i1 == |b| then []
    else if Select(a, b, i0, i1) == 0 then [a[i0]] + InterleaveFrom(a, b, i0 + 1, i1)
    else [b[i1]] + InterleaveFrom(a, b, i0, i1 + 1)
  }

  /** Rewriting limits leaves the headings alone. */
  lemma RelimitHeadings(m: Libm, t: seq<Ray>, cs: seq<Segment>)
    requires |t| >= 2
    ensures Headings(Relimit(m, t, cs)) == Headings(t)
  {
    if cs != [] {
      var q := cs[LeastIndex(m, cs)];
      var u := t[|t| - 2 := t[|t| - 2].(l := Norm(m, q.a))];
      HeadingsUpdate(t, |t| - 2, t[|t| - 2].(l := Norm(m, q.a)));
      HeadingsUpdate(u, |t| - 1, u[|t| - 1].(r := Norm(m, q.b)));
    }
  }

  /** Replacing one ray by one with the same heading keeps the headings. */
  lemma HeadingsUpdate(t: seq<Ray>, i: nat, y: Ray)
    requires i < |t| && Heading(y) == Heading(t[i])
    ensures Headings(t[i := y]) == Headings(t)
  {
    assert forall k :: 0 <= k < |t| ==> Heading(t[i := y][k]) == Heading(t[k]);
    HeadingsEqual(t[i := y], t);
  }

  /** A step appends the heading of the selected ray and changes no other. */
  lemma StepHeadings(m: Libm, cut: Cutter, a: seq<Ray>, b: seq<Ray>, i0: nat, i1: nat, s: seq<Ray>)
    requires i0 <= |a| && i1 <= |b| && (i0 < |a| || i1 < |b|)
    ensures Headings(Step(m, cut, a, b, i0, i1, s)) == Headings(s) + [Heading(Selected(a, b, i0, i1))]
  {
    var t := s + [Selected(a, b, i0, i1)];
    HeadingsAppend(s, [Selected(a, b, i0, i1)]);
    if |t| > 1 {
      RelimitHeadings(m, t, Cuts(cut, Candidates(a, b, i0, i1), t[|t| - 2].v, t[|t| - 1].v));
    }
  }

  /** The indices after one turn, with what the merge and the interleaving
      become there. */
  lemma NextIndices(m: Libm, cut: Cutter, a: seq<Ray>, b: seq<Ray>, i0: nat, i1: nat, s: seq<Ray>)
    returns (j0: nat, j1: nat)
    requires i0 <= |a| && i1 <= |b| && (i0 < |a| || i1 < |b|)
    ensures (j0, j1) == if Select(a, b, i0, i1) == 0 then (i0 + 1, i1) else (i0, i1 + 1)
    ensures MergeFrom(m, cut, a, b, i0, i1, s) == MergeFrom(m, cut, a, b, j0, j1, Step(m, cut, a, b, i0, i1, s))
    ensures InterleaveFrom(a, b, i0, i1) == [Selected(a, b, i0, i1)] + InterleaveFrom(a, b, j0, j1)
  {
    MergeFromStep(m, cut, a, b, i0, i1, s, Step(m, cut, a, b, i0, i1, s));
    if Select(a, b, i0, i1) == 0 {
      j0, j1 := i0 + 1, i1;
    } else {
      j0, j1 := i0, i1 + 1;
    }
  }

  /** Apart from limits, the rest of the merge is the interleaving of the
      rest of the runs. */
  lemma {:induction false} MergeFromHeadings(m: Libm, cut: Cutter, a: seq<Ray>, b: seq<Ray>, i0: nat, i1: nat, s: seq<Ray>)
    requires i0 <= |a| && i1 <= |b|
    ensures Headings(MergeFrom(m, cut, a, b, i0, i1, s)) == Headings(s) + Headings(InterleaveFrom(a, b, i0, i1))
    decreases |a| - i0 + |b| - i1
  {
    if i0 == |a| && i1 == |b| {
      assert Headings(InterleaveFrom(a, b, i0, i1)) == [];
    } else {
      var t := Step(m, cut, a, b, i0, i1, s);
      StepHeadings(m, cut, a, b, i0, i1, s);
      var j0, j1 := NextIndices(m, cut, a, b, i0, i1, s);
      MergeFromHeadings(m, cut, a, b, j0, j1, t);
      HeadingsStepCombine(s, Selected(a, b, i0, i1), InterleaveFrom(a, b, j0, j1), t, MergeFrom(m, cut, a, b, i0, i1, s));
    }
  }

  /** The heading algebra of one turn of MergeFromHeadings. */
  lemma HeadingsStepCombine(s: seq<Ray>, x: Ray, rest: seq<Ray>, t: seq<Ray>, r: seq<Ray>)
    requires Headings(t) == Headings(s) + [Heading(x)]
    requires Headings(r) == Headings(t) + Headings(rest)
    ensures Headings(r) == Headings(s) + Headings([x] + rest)
  {
    HeadingsAppend([x], rest);
    assert Headings([x]) == [Heading(x)];
    AppendAssociative(Headings(s), [Heading(x)], Headings(rest));
  }

  /** merge returns len(a) + len(b) rays whose headings are those of the
      interleaving. */
  lemma MergedInterleaves(m: Libm, a: seq<Ray>, b: seq<Ray>)
    ensures |Merged(m, a, b)| == |a| + |b|
    ensures Headings(Merged(m, a, b)) == Headings(InterleaveFrom(a, b, 0, 0))
  {
    MergeFromHeadings(m, CutSegment, a, b, 0, 0, []);
    assert Headings([]) == [];
  }

  /** Once one run is exhausted, the interleaving drains the other. */
  lemma {:induction false} InterleaveDrains(a: seq<Ray>, b: seq<Ray>, i0: nat, i1: nat)
    requires i0 <= |a| && i1 <= |b|
    ensures i0 == |a| ==> InterleaveFrom(a, b, i0, i1) == b[i1..]
    ensures i1 == |b| ==> InterleaveFrom(a, b, i0, i1) == a[i0..]
    decreases |a| - i0 + |b| - i1
  {
    if i0 == |a| && i1 < |b| {
      InterleaveDrains(a, b, i0, i1 + 1);
      assert b[i1..] == [b[i1]] + b[i1 + 1..];
    } else if i1 == |b| && i0 < |a| {
      InterleaveDrains(a, b, i0 + 1, i1);
      assert a[i0..] == [a[i0]] + a[i0 + 1..];
    }
  }

  /** Taking the first ray of a rest s[i..] in front of a permutation of
      the shorter rest. */
  lemma ConsPermutation<T>(o: seq<T>, rest: seq<T>, s: seq<T>, i: nat, other: multiset<T>)
    requires i < |s| && o == [s[i]] + rest
    requires multiset(rest) == multiset(s[i + 1..]) + other
    ensures multiset(o) == multiset(s[i..]) + other
  {
    assert s[i..] == [s[i]] + s[i + 1..];
  }

  /** The indices after one turn of the interleaving, and what the rests of
      the two runs lose. */
  lemma InterleaveNext(a: seq<Ray>, b: seq<Ray>, i0: nat, i1: nat) returns (j0: nat, j1: nat)
    requires i0 <= |a| && i1 <= |b| && (i0 < |a| || i1 < |b|)
    ensures (j0, j1) == if Select(a, b, i0, i1) == 0 then (i0 + 1, i1) else (i0, i1 + 1)
    ensures InterleaveFrom(a, b, i0, i1) == [Selected(a, b, i0, i1)] + InterleaveFrom(a, b, j0, j1)
    ensures multiset(a[i0..]) + multiset(b[i1..]) == multiset{Selected(a, b, i0, i1)} + multiset(a[j0..]) + multiset(b[j1..])
  {
    if Select(a, b, i0, i1) == 0 {
      j0, j1 := i0 + 1, i1;
      assert a[i0..] == [a[i0]] + a[j0..];
    } else {
      j0, j1 := i0, i1 + 1;
      assert b[i1..] == [b[i1]] + b[j1..];
    }
  }

  /** The interleaving is a permutation of the rest of the two runs. */
  lemma {:induction false} InterleavePermutation(a: seq<Ray>, b: seq<Ray>, i0: nat, i1: nat)
    requires i0 <= |a| && i1 <= |b|
    ensures multiset(InterleaveFrom(a, b, i0, i1)) == multiset(a[i0..]) + multiset(b[i1..])
    decreases |a| - i0 + |b| - i1
  {
    if i0 == |a| && i1 == |b| {
      assert a[i0..] == [] && b[i1..] == [];
    } else {
      var j0, j1 := InterleaveNext(a, b, i0, i1);
      InterleavePermutation(a, b, j0, j1);
    }
  }

  /** Sorted runs interleave into a sorted sequence whose angles are bounded
      below by any bound of the two rests. */
  lemma {:induction false} InterleaveSorted(a: seq<Ray>, b: seq<Ray>, i0: nat, i1: nat, lo: real)
    requires i0 <= |a| && i1 <= |b|
    requires Sorted(a[i0..]) && Sorted(b[i1..])
    requires forall k :: i0 <= k < |a| ==> lo <= a[k].a
    requires forall k :: i1 <= k < |b| ==> lo <= b[k].a
    ensures Sorted(InterleaveFrom(a, b, i0, i1))
    ensures forall k :: 0 <= k < |InterleaveFrom(a, b, i0, i1)| ==> lo <= InterleaveFrom(a, b, i0, i1)[k].a
    decreases |a| - i0 + |b| - i1
  {
    if i0 < |a| || i1 < |b| {
      var x := Selected(a, b, i0, i1);
      assert forall k :: i0 <= k < |a| ==> a[k] == a[i0..][k - i0];
      assert forall k :: i1 <= k < |b| ==> b[k] == b[i1..][k - i1];
      assert forall k :: i0 < k < |a| ==> x.a <= a[k].a;
      assert forall k :: i1 < k < |b| ==> x.a <= b[k].a;
      var r;
      if Select(a, b, i0, i1) == 0 {
        assert Sorted(a[i0 + 1..]) by { assert a[i0 + 1..] == a[i0..][1..]; }
        InterleaveSorted(a, b, i0 + 1, i1, x.a);
        r := InterleaveFrom(a, b, i0 + 1, i1);
      } else {
        assert Sorted(b[i1 + 1..]) by { assert b[i1 + 1..] == b[i1..][1..]; }
        InterleaveSorted(a, b, i0, i1 + 1, x.a);
        r := InterleaveFrom(a, b, i0, i1 + 1);
      }
      assert InterleaveFrom(a, b, i0, i1) == [x] + r;
      SortedCons(x, r);
    }
  }

  /** A ray in front of a sorted sequence none of whose angles is smaller. */
  lemma SortedCons(x: Ray, r: seq<Ray>)
    requires Sorted(r) && forall k :: 0 <= k < |r| ==> x.a <= r[k].a
    ensures Sorted([x] + r)
  {
    assert forall k :: 1 <= k < |r| + 1 ==> ([x] + r)[k] == r[k - 1];
  }

  /** The bag algebra of one turn of InterleaveHeadingsPermutation: o takes
      s[i] in front of a rest whose headings are those of s[i + 1..] and
      other. */
  lemma BagStep(o: seq<Ray>, rest: seq<Ray>, s: seq<Ray>, i: nat, other: multiset<(real, Vec2)>)
    requires i < |s| && o == [s[i]] + rest
    requires multiset(Headings(rest)) == multiset(Headings(s)[i + 1..]) + other
    ensures multiset(Headings(o)) == multiset(Headings(s)[i..]) + other
  {
    HeadingsCons(s[i], rest);
    HeadingsAt(s, i);
    ConsPermutation(Headings(o), Headings(rest), Headings(s), i, other);
  }

  /** The permutation of InterleavePermutation, on headings. */
  lemma {:induction false} InterleaveHeadingsPermutation(a: seq<Ray>, b: seq<Ray>, i0: nat, i1: nat)
    requires i0 <= |a| && i1 <= |b|
    ensures multiset(Headings(InterleaveFrom(a, b, i0, i1))) == multiset(Headings(a)[i0..]) + multiset(Headings(b)[i1..])
    decreases |a| - i0 + |b| - i1, 1
  {
    if i0 == |a| && i1 == |b| {
      assert Headings(a)[i0..] == [] && Headings(b)[i1..] == [];
    } else {
      InterleaveTakeHeadings(a, b, i0, i1);
    }
  }

  /** One turn of InterleaveHeadingsPermutation: the selected heading leaves
      its run for the front of the interleaving. */
  lemma {:induction false} InterleaveTakeHeadings(a: seq<Ray>, b: seq<Ray>, i0: nat, i1: nat)
    requires i0 <= |a| && i1 <= |b| && (i0 < |a| || i1 < |b|)
    ensures multiset(Headings(InterleaveFrom(a, b, i0, i1))) == multiset(Headings(a)[i0..]) + multiset(Headings(b)[i1..])
    decreases |a| - i0 + |b| - i1, 0
  {
    var o := InterleaveFrom(a, b, i0, i1);
    if Select(a, b, i0, i1) == 0 {
      var rest := InterleaveFrom(a, b, i0 + 1, i1);
      InterleaveHeadingsPermutation(a, b, i0 + 1, i1);
      BagStep(o, rest, a, i0, multiset(Headings(b)[i1..]));
    } else {
      var rest := InterleaveFrom(a, b, i0, i1 + 1);
      InterleaveHeadingsPermutation(a, b, i0, i1 + 1);
      BagStep(o, rest, b, i1, multiset(Headings(a)[i0..]));
    }
  }

  /** merge keeps the multiset of headings of its two runs. */
  lemma MergedPermutation(m: Libm, a: seq<Ray>, b: seq<Ray>)
    ensures HeadingBag(Merged(m, a, b)) == HeadingBag(a) + HeadingBag(b)
  {
    MergedInterleaves(m, a, b);
    InterleaveHeadingsPermutation(a, b, 0, 0);
    assert Headings(a)[0..] == Headings(a) && Headings(b)[0..] == Headings(b);
  }

  /** merge of two sorted runs is sorted. */
  lemma MergedSorted(m: Libm, a: seq<Ray>, b: seq<Ray>)
    requires Sorted(a) && Sorted(b)
    ensures Sorted(Merged(m, a, b))
  {
    var lo := if a != [] then a[0].a else if b != [] then b[0].a else 0.0;
    if b != [] && (a == [] || b[0].a < lo) {
      lo := b[0].a;
    }
    assert a[0..] == a && b[0..] == b;
    InterleaveSorted(a, b, 0, 0, lo);
    MergedInterleaves(m, a, b);
    SortedByHeadings(Merged(m, a, b), InterleaveFrom(a, b, 0, 0));
  }

  /** The first comparison uses a strict <: on equal angles the ray of b
      comes first. */
  lemma MergedTiesGoToB(m: Libm, a: seq<Ray>, b: seq<Ray>)
    requires a != [] && b != []
    ensures |Merged(m, a, b)| == |a| + |b|
    ensures a[0].a < b[0].a ==> Heading(Merged(m, a, b)[0]) == Heading(a[0])
    ensures a[0].a >= b[0].a ==> Heading(Merged(m, a, b)[0]) == Heading(b[0])
  {
    MergedInterleaves(m, a, b);
    HeadingsAt(Merged(m, a, b), 0);
    HeadingsAt(InterleaveFrom(a, b, 0, 0), 0);
  }

  /** A step rewrites at most the left limit of the last ray of s and the
      right limit of the selected ray; it rewrites them exactly when some
      candidate segment is cut by the two rays, and then to the distances of
      the ends of a cut with the least key. */
  lemma StepLimits(m: Libm, cut: Cutter, a: seq<Ray>, b: seq<Ray>, i0: nat, i1: nat, s: seq<Ray>)
    requires i0 <= |a| && i1 <= |b| && (i0 < |a| || i1 < |b|) && s != []
    ensures var t := Step(m, cut, a, b, i0, i1, s);
      var x := Selected(a, b, i0, i1);
      var v := s[|s| - 1].v;
      |t| == |s| + 1 && t[..|s| - 1] == s[..|s| - 1] &&
      ((forall p :: p in Candidates(a, b, i0, i1) ==> cut(p, v, x.v) == None) ==> t == s + [x]) &&
      ((exists p :: p in Candidates(a, b, i0, i1) && cut(p, v, x.v) != None) ==>
        exists q ::
          && (exists p :: p in Candidates(a, b, i0, i1) && cut(p, v, x.v) == Some(q))
          && (forall p, q' :: p in Candidates(a, b, i0, i1) && cut(p, v, x.v) == Some(q') ==> !KeyLess(Key(m, q'), Key(m, q)))
          && t == s[|s| - 1 := s[|s| - 1].(l := Norm(m, q.a))] + [x.(r := Norm(m, q.b))])
  {
    var t := Step(m, cut, a, b, i0, i1, s);
    var x := Selected(a, b, i0, i1);
    var v := s[|s| - 1].v;
    var ps := Candidates(a, b, i0, i1);
    var cs := Cuts(cut, ps, v, x.v);
    var u := s + [x];
    assert u[|u| - 2] == s[|s| - 1] && u[|u| - 1] == x;
    assert t == Relimit(m, u, cs);
    CutsAreCuts(cut, ps, v, x.v);
    if cs == [] {
      forall p | p in ps ensures cut(p, v, x.v) == None {
      }
    } else {
      var q := cs[LeastIndex(m, cs)];
      assert t == s[|s| - 1 := s[|s| - 1].(l := Norm(m, q.a))] + [x.(r := Norm(m, q.b))];
      forall p, q' | p in ps && cut(p, v, x.v) == Some(q') ensures !KeyLess(Key(m, q'), Key(m, q)) {
        assert q' in cs;
      }
      assert q in cs;
    }
  }

  /** Every ray before the last of s is final: later turns never touch it. */
  lemma {:induction false} MergeFromKeepsPrefix(m: Libm, cut: Cutter, a: seq<Ray>, b: seq<Ray>, i0: nat, i1: nat, s: seq<Ray>)
    requires i0 <= |a| && i1 <= |b| && s != []
    ensures |MergeFrom(m, cut, a, b, i0, i1, s)| >= |s|
    ensures MergeFrom(m, cut, a, b, i0, i1, s)[..|s| - 1] == s[..|s| - 1]
    decreases |a| - i0 + |b| - i1
  {
    if i0 < |a| || i1 < |b| {
      var t := Step(m, cut, a, b, i0, i1, s);
      StepPrefix(m, cut, a, b, i0, i1, s);
      var j0, j1 := NextIndices(m, cut, a, b, i0, i1, s);
      MergeFromKeepsPrefix(m, cut, a, b, j0, j1, t);
      assert t[..|s| - 1] == t[..|t| - 1][..|s| - 1];
    }
  }

  /** Rewriting limits touches only the last two rays. */
  lemma RelimitPrefix(m: Libm, t: seq<Ray>, cs: seq<Segment>)
    requires |t| >= 2
    ensures |Relimit(m, t, cs)| == |t| && Relimit(m, t, cs)[..|t| - 2] == t[..|t| - 2]
  {
  }

  /** A step appends one ray and touches only the last ray before it. */
  lemma StepPrefix(m: Libm, cut: Cutter, a: seq<Ray>, b: seq<Ray>, i0: nat, i1: nat, s: seq<Ray>)
    requires i0 <= |a| && i1 <= |b| && (i0 < |a| || i1 < |b|) && s != []
    ensures |Step(m, cut, a, b, i0, i1, s)| == |s| + 1
    ensures Step(m, cut, a, b, i0, i1, s)[..|s| - 1] == s[..|s| - 1]
  {
    var u := s + [Selected(a, b, i0, i1)];
    RelimitPrefix(m, u, Cuts(cut, Candidates(a, b, i0, i1), u[|u| - 2].v, u[|u| - 1].v));
    assert u[..|s| - 1] == s[..|s| - 1];
  }

  // ---------------------------------------------------------------------------
  // visimerge and visible_region

  /** Every segment has both ends off the origin. */
  predicate AllOffOrigin(m: Libm, segs: seq<Segment>)
  {
    forall k :: 0 <= k < |segs| ==> S.OffOrigin(m, segs[k])
  }

  /** A function that maps one segment to its rays: visible_region_for_segment
      in the model of visimerge. */
  type Region = Segment --> seq<Ray>

  /** A function that merges two runs: merge in the model of visimerge, any
      function in the lemmas that use only what merge keeps. */
  type Merger = (seq<Ray>, seq<Ray>) -> seq<Ray>

  /** Every segment is one the region function accepts. */
  ghost predicate Accepts(region: Region, segs: seq<Segment>)
  {
    forall k :: 0 <= k < |segs| ==> region.requires(segs[k])
  }

  /** The recursion of visimerge(s) over the functions it calls: no rays for
      no segment, the region of a single segment, and otherwise the merge of
      the results for the two halves split at n // 2. */
  function VisimergeWith(region: Region, merge: Merger, segs: seq<Segment>): seq<Ray>
    requires Accepts(region, segs)
    decreases |segs|
  {
    if |segs| == 0 then []
    else if |segs| == 1 then region(segs[0])
    else
      var h := |segs| / 2;
      assert Accepts(region, segs[..h]) && Accepts(region, segs[h..]);
      merge(VisimergeWith(region, merge, segs[..h]), VisimergeWith(region, merge, segs[h..]))
  }

  /** visible_region_for_segment as a function value. */
  function RegionFunction(m: Libm): Region
  {
    p requires ValidLibm(m) && S.OffOrigin(m, p) => VisibleRegionForSegment(m, p)
  }

  /** merge as a function value. */
  function MergeFunction(m: Libm): Merger
  {
    (x, y) => Merged(m, x, y)
  }

  /** visimerge(s). */
  function Visimerge(m: Libm, segs: seq<Segment>): seq<Ray>
    requires ValidLibm(m) && AllOffOrigin(m, segs)
  {
    assert Accepts(RegionFunction(m), segs);
    VisimergeWith(RegionFunction(m), MergeFunction(m), segs)
  }

  /** The regions of all segments one after another. */
  function Regions(region: Region, segs: seq<Segment>): seq<Ray>
    requires Accepts(region, segs)
  {
    if segs == [] then []
    else
      assert Accepts(region, segs[1..]);
      region(segs[0]) + Regions(region, segs[1..])
  }

  lemma AcceptsAppend(region: Region, x: seq<Segment>, y: seq<Segment>)
    requires Accepts(region, x) && Accepts(region, y)
    ensures Accepts(region, x + y)
  {
    assert forall k :: 0 <= k < |x| ==> (x + y)[k] == x[k];
    assert forall k :: |x| <= k < |x + y| ==> (x + y)[k] == y[k - |x|];
  }

  lemma {:induction false} RegionsAppend(region: Region, x: seq<Segment>, y: seq<Segment>)
    requires Accepts(region, x) && Accepts(region, y)
    ensures Accepts(region, x + y)
    ensures Regions(region, x + y) == Regions(region, x) + Regions(region, y)
  {
    AcceptsAppend(region, x, y);
    if x == [] {
      assert x + y == y;
    } else {
      var z := x + y;
      assert z[0] == x[0] && z[1..] == x[1..] + y;
      assert Accepts(region, x[1..]);
      RegionsAppend(region, x[1..], y);
      AppendAssociative(region(x[0]), Regions(region, x[1..]), Regions(region, y));
    }
  }

  /** A merge that returns as many rays as its runs hold, with the same
      multiset of headings. */
  ghost predicate KeepsHeadings(merge: Merger)
  {
    forall x, y :: |merge(x, y)| == |x| + |y| && HeadingBag(merge(x, y)) == HeadingBag(x) + HeadingBag(y)
  }

  /** A merge of sorted runs that is sorted. */
  ghost predicate KeepsSorted(merge: Merger)
  {
    forall x, y :: Sorted(x) && Sorted(y) ==> Sorted(merge(x, y))
  }

  lemma MergeKeepsHeadings(m: Libm)
    ensures KeepsHeadings(MergeFunction(m))
  {
    forall x, y ensures |Merged(m, x, y)| == |x| + |y| && HeadingBag(Merged(m, x, y)) == HeadingBag(x) + HeadingBag(y) {
      MergedInterleaves(m, x, y);
      MergedPermutation(m, x, y);
    }
  }

  lemma MergeKeepsSorted(m: Libm)
    ensures KeepsSorted(MergeFunction(m))
  {
    forall x, y | Sorted(x) && Sorted(y) ensures Sorted(Merged(m, x, y)) {
      MergedSorted(m, x, y);
    }
  }

  /** With a merge that keeps headings, the recursion returns the rays of all
      the single-segment regions: as many, and the same multiset of
      headings. */
  lemma {:induction false} VisimergeWithPermutation(region: Region, merge: Merger, segs: seq<Segment>)
    requires Accepts(region, segs) && KeepsHeadings(merge)
    ensures |VisimergeWith(region, merge, segs)| == |Regions(region, segs)|
    ensures HeadingBag(VisimergeWith(region, merge, segs)) == HeadingBag(Regions(region, segs))
    decreases |segs|
  {
    if |segs| == 1 {
      assert segs[1..] == [];
      assert Regions(region, segs[1..]) == [];
      assert Regions(region, segs) == region(segs[0]) + [] == region(segs[0]);
    } else if |segs| > 1 {
      var h := |segs| / 2;
      assert segs[..h] + segs[h..] == segs;
      assert Accepts(region, segs[..h]) && Accepts(region, segs[h..]);
      RegionsAppend(region, segs[..h], segs[h..]);
      VisimergeWithPermutation(region, merge, segs[..h]);
      VisimergeWithPermutation(region, merge, segs[h..]);
      HeadingsAppend(Regions(region, segs[..h]), Regions(region, segs[h..]));
    }
  }

  /** With a merge that keeps runs sorted, the recursion over segments whose
      single regions are sorted returns a sorted sequence. */
  lemma {:induction false} VisimergeWithSorted(region: Region, merge: Merger, segs: seq<Segment>)
    requires Accepts(region, segs) && KeepsSorted(merge)
    requires forall k :: 0 <= k < |segs| ==> Sorted(region(segs[k]))
    ensures Sorted(VisimergeWith(region, merge, segs))
    decreases |segs|
  {
    if |segs| > 1 {
      var h := |segs| / 2;
      assert forall k :: 0 <= k < h ==> segs[..h][k] == segs[k];
      assert forall k :: 0 <= k < |segs| - h ==> segs[h..][k] == segs[h + k];
      VisimergeWithSorted(region, merge, segs[..h]);
      VisimergeWithSorted(region, merge, segs[h..]);
    }
  }

  /** visimerge returns, with rewritten limits, the rays of all the
      single-segment regions: as many, and the same multiset of headings. */
  lemma VisimergePermutation(m: Libm, segs: seq<Segment>)
    requires ValidLibm(m) && AllOffOrigin(m, segs)
    ensures Accepts(RegionFunction(m), segs)
    ensures |Visimerge(m, segs)| == |Regions(RegionFunction(m), segs)|
    ensures HeadingBag(Visimerge(m, segs)) == HeadingBag(Regions(RegionFunction(m), segs))
  {
    MergeKeepsHeadings(m);
    VisimergeWithPermutation(RegionFunction(m), MergeFunction(m), segs);
  }

  /** When every single-segment region is sorted by angle, so is the result
      of visimerge. */
  lemma VisimergeSorted(m: Libm, segs: seq<Segment>)
    requires ValidLibm(m) && AllOffOrigin(m, segs)
    requires forall k :: 0 <= k < |segs| ==> Sorted(VisibleRegionForSegment(m, segs[k]))
    ensures Sorted(Visimerge(m, segs))
  {
    MergeKeepsSorted(m);
    VisimergeWithSorted(RegionFunction(m), MergeFunction(m), segs);
  }

  /** The segments of visible_region's comprehension: those not collinear
      with the origin, in their order. */
  function Visible(segs: seq<Segment>): (r: seq<Segment>)
    ensures |r| <= |segs|
    ensures forall p :: p in r <==> p in segs && !AreCollinear(Zero(), p.a, p.b)
    ensures forall p :: multiset(r)[p] == (if AreCollinear(Zero(), p.a, p.b) then 0 else multiset(segs)[p])
  {
    if segs == [] then []
    else
      var rest := Visible(segs[1..]);
      assert forall p :: p in segs <==> p == segs[0] || p in segs[1..];
      assert segs == [segs[0]] + segs[1..];
      if AreCollinear(Zero(), segs[0].a, segs[0].b) then rest else [segs[0]] + rest
  }

  /** The filter keeps order: the visible segments of a concatenation are
      those of each part, one after the other. */
  lemma {:induction false} VisibleAppend(x: seq<Segment>, y: seq<Segment>)
    ensures Visible(x + y) == Visible(x) + Visible(y)
    decreases |x|
  {
    if x == [] {
      assert x + y == y;
    } else {
      assert (x + y)[1..] == x[1..] + y;
      VisibleAppend(x[1..], y);
    }
  }

  /** A segment not collinear with the origin has both ends off it. */
  lemma NotCollinearOffOrigin(m: Libm, p: Segment)
    requires ValidLibm(m) && !AreCollinear(Zero(), p.a, p.b)
    ensures S.OffOrigin(m, p)
  {
    NormNonNegative(m, p.a);
    NormNonNegative(m, p.b);
    AlmostEqualReflexive(0.0);
    assert Sub(p.a, Zero()) == p.a && Sub(p.b, Zero()) == p.b;
  }

  /** visible_region(s): visimerge of the segments not collinear with the
      origin. */
  function VisibleRegion(m: Libm, segs: seq<Segment>): (r: seq<Ray>)
    requires ValidLibm(m)
    ensures AllOffOrigin(m, Visible(segs))
    ensures |r| == |Regions(RegionFunction(m), Visible(segs))|
    ensures HeadingBag(r) == HeadingBag(Regions(RegionFunction(m), Visible(segs)))
  {
    var vs := Visible(segs);
    assert forall k :: 0 <= k < |vs| ==> S.OffOrigin(m, vs[k]) by {
      forall k | 0 <= k < |vs| ensures S.OffOrigin(m, vs[k]) {
        assert vs[k] in vs;
        NotCollinearOffOrigin(m, vs[k]);
      }
    }
    VisimergePermutation(m, vs);
    Visimerge(m, vs)
  }
}
