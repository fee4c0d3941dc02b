/** The two-dimensional vector of src/visimerge/vec2.h over exact reals. */
module Vectors {
  import opened Util
  import opened CMath

  datatype Vec2 = Vec2(x: real, y: real)

  /** The default constructor: the origin. */
  function Zero(): Vec2 { Vec2(0.0, 0.0) }

  /** operator[]: index 0 selects x, every other index selects y. */
  function Component(v: Vec2, i: nat): real { if i == 0 then v.x else v.y }

  function Cross(a: Vec2, b: Vec2): real { a.x * b.y - a.y * b.x }

  function Add(a: Vec2, b: Vec2): Vec2 { Vec2(a.x + b.x, a.y + b.y) }

  function Sub(a: Vec2, b: Vec2): Vec2 { Vec2(a.x - b.x, a.y - b.y) }

  function Scale(a: Vec2, s: real): Vec2 { Vec2(a.x * s, a.y * s) }

  function Div(a: Vec2, s: real): Vec2
    requires s != 0.0
  {
    Vec2(a.x / s, a.y / s)
  }

  function Norm(m: Libm, a: Vec2): real { m.sqrt(a.x * a.x + a.y * a.y) }

  /** a / norm(a); the source leaves the zero vector to its callers. */
  function Normalize(m: Libm, a: Vec2): Vec2
    requires Norm(m, a) != 0.0
  {
    Div(a, Norm(m, a))
  }

  /** The angle of a, with a negative library result shifted by 2 pi. */
  function Atan2(m: Libm, a: Vec2): real
  {
    var t := m.atan2(a.y, a.x);
    if t >= 0.0 then t else t + 2.0 * m.pi
  }

  predicate AreCollinear(a: Vec2, b: Vec2, c: Vec2)
  {
    AlmostEqual(Cross(Sub(b, a), Sub(c, a)), 0.0)
  }

  predicate AlmostEqualVec(a: Vec2, b: Vec2)
  {
    AlmostEqual(a.x, b.x) && AlmostEqual(a.y, b.y)
  }

  lemma ComponentSelects(v: Vec2, i: nat)
    ensures Component(v, 0) == v.x
    ensures i != 0 ==> Component(v, i) == v.y
    ensures Zero().x == 0.0 && Zero().y == 0.0
  {
  }

  lemma CrossAntisymmetric(a: Vec2, b: Vec2)
    ensures Cross(a, a) == 0.0
    ensures Cross(b, a) == -Cross(a, b)
  {
  }

  /** Over the reals, subtraction undoes addition and division undoes scaling. */
  lemma AddSubInverse(a: Vec2, b: Vec2, s: real)
    ensures Sub(Add(a, b), b) == a
    ensures Add(Sub(a, b), b) == a
    ensures s != 0.0 ==> Div(Scale(a, s), s) == a
  {
  }

  lemma NormNonNegative(m: Libm, a: Vec2)
    requires ValidLibm(m)
    ensures Norm(m, a) >= 0.0
    ensures a != Zero() ==> Norm(m, a) > 0.0
  {
    assert a.x * a.x >= 0.0 && a.y * a.y >= 0.0;
    if a != Zero() {
      assert a.x != 0.0 ==> a.x * a.x > 0.0;
      assert a.y != 0.0 ==> a.y * a.y > 0.0;
    }
  }

  /** normalize is undone by scaling with the norm. */
  lemma NormalizeRoundTrip(m: Libm, a: Vec2)
    requires Norm(m, a) != 0.0
    ensures Scale(Normalize(m, a), Norm(m, a)) == a
  {
  }

  /** The remapped angle lies in [0, 2 pi). */
  lemma Atan2Range(m: Libm, a: Vec2)
    requires ValidLibm(m)
    ensures 0.0 <= Atan2(m, a) < 2.0 * m.pi
  {
    var t := m.atan2(a.y, a.x);
    assert -m.pi <= t <= m.pi;
  }

  /** Points on the positive x-axis have angle 0. */
  lemma Atan2PositiveXAxis(m: Libm, a: Vec2)
    requires ValidLibm(m)
    requires a.y == 0.0 && a.x > 0.0
    ensures Atan2(m, a) == 0.0
  {
    assert m.atan2(0.0, a.x) == 0.0;
  }

  lemma AreCollinearProperties(a: Vec2, b: Vec2, c: Vec2)
    ensures AreCollinear(a, a, c)
    ensures AreCollinear(a, b, c) == AreCollinear(a, c, b)
  {
    CrossAntisymmetric(Sub(b, a), Sub(c, a));
  }

  lemma AlmostEqualVecProperties(a: Vec2, b: Vec2)
    ensures AlmostEqualVec(a, a)
    ensures AlmostEqualVec(a, b) == AlmostEqualVec(b, a)
  {
    AlmostEqualSymmetric(a.x, b.x);
    AlmostEqualSymmetric(a.y, b.y);
  }
}
