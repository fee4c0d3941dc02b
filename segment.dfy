/** The obstacle segment of src/visimerge/segment.h. */
module Segments {
  import opened Vectors

  datatype Segment = Segment(a: Vec2, b: Vec2)

  /** The default constructor: both endpoints at the origin. */
  function DefaultSegment(): Segment { Segment(Zero(), Zero()) }

  /** operator[]: index 0 selects a, every other index selects b. */
  function Endpoint(s: Segment, i: nat): Vec2 { if i == 0 then s.a else s.b }

  /** Endpoints compared in order, a with a and b with b. */
  predicate AlmostEqualSegment(p: Segment, q: Segment)
  {
    AlmostEqualVec(p.a, q.a) && AlmostEqualVec(p.b, q.b)
  }

  lemma SegmentAccessors(a: Vec2, b: Vec2, i: nat)
    ensures Segment(a, b).a == a && Segment(a, b).b == b
    ensures Endpoint(Segment(a, b), 0) == a
    ensures i != 0 ==> Endpoint(Segment(a, b), i) == b
    ensures DefaultSegment().a == Zero() && DefaultSegment().b == Zero()
  {
  }

  lemma AlmostEqualSegmentProperties(p: Segment, q: Segment)
    ensures AlmostEqualSegment(p, p)
    ensures AlmostEqualSegment(p, q) == AlmostEqualSegment(q, p)
  {
    AlmostEqualVecProperties(p.a, q.a);
    AlmostEqualVecProperties(p.b, q.b);
  }
}
