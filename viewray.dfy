/** The host-side view ray of src/visimerge/viewray.h. */
module ViewRays {
  import opened Vectors

  /** A distance limit: a finite value (the code's -1 "no limit" sentinel and 0
      included) or the infinity the rays start with. */
  datatype Lim = Fin(value: real) | Inf

  /** An angular sample: angle t, unit direction v, left limit l, right limit r. */
  datatype ViewRay = ViewRay(t: real, v: Vec2, l: Lim, r: Lim)

  /** The default constructor. */
  function DefaultViewRay(): ViewRay { ViewRay(0.0, Zero(), Fin(0.0), Fin(0.0)) }

  function Vx(ray: ViewRay): real { ray.v.x }

  function Vy(ray: ViewRay): real { ray.v.y }

  /** The comparison `limit > 0`, true of infinity. */
  predicate Positive(x: Lim) { x.Inf? || x.value > 0.0 }

  /** A run of rays in non-decreasing angle order. */
  predicate SortedByAngle(s: seq<ViewRay>)
  {
    forall i, j :: 0 <= i < j < |s| ==> s[i].t <= s[j].t
  }

  /** What a ray says about its sample apart from the limits. */
  function Heading(ray: ViewRay): (real, Vec2) { (ray.t, ray.v) }

  function Headings(s: seq<ViewRay>): (h: seq<(real, Vec2)>)
    ensures |h| == |s| && forall k :: 0 <= k < |s| ==> h[k] == Heading(s[k])
  {
    if s == [] then [] else [Heading(s[0])] + Headings(s[1..])
  }

  /** Every limit facing a neighbour in the run is finite: the left limits of
      all rays but the last and the right limits of all rays but the first. */
  predicate InteriorFinite(s: seq<ViewRay>)
  {
    (forall k :: 0 <= k < |s| - 1 ==> s[k].l.Fin?) && (forall k :: 0 < k < |s| ==> s[k].r.Fin?)
  }

  lemma ViewRayFields(t: real, v: Vec2, l: Lim, r: Lim)
    ensures ViewRay(t, v, l, r).t == t && ViewRay(t, v, l, r).v == v
    ensures ViewRay(t, v, l, r).l == l && ViewRay(t, v, l, r).r == r
    ensures Vx(ViewRay(t, v, l, r)) == v.x && Vy(ViewRay(t, v, l, r)) == v.y
    ensures DefaultViewRay() == ViewRay(0.0, Vec2(0.0, 0.0), Fin(0.0), Fin(0.0))
  {
  }
}
