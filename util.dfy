/** The relative-epsilon comparison of src/visimerge/util.h. */
module Util {
  /** The tolerance used by almost_equal: 1e-9. */
  const EPS: real := 0.000000001

  function Abs(x: real): real { if x < 0.0 then -x else x }

  /** std::max: returns the first argument unless it is less than the second. */
  function Max(a: real, b: real): real { if a < b then b else a }

  /** |a - b| is within EPS scaled by the larger of 1, |a| and |b|. */
  predicate AlmostEqual(a: real, b: real)
  {
    Abs(a - b) <= EPS * Max(1.0, Max(Abs(a), Abs(b)))
  }

  lemma AlmostEqualReflexive(a: real)
    ensures AlmostEqual(a, a)
  {
  }

  lemma AlmostEqualSymmetric(a: real, b: real)
    ensures AlmostEqual(a, b) == AlmostEqual(b, a)
  {
  }

  /** Small operands are compared with the absolute bound EPS, large ones relative
      to the larger magnitude. */
  lemma AlmostEqualScale(a: real, b: real)
    ensures Abs(a) <= 1.0 && Abs(b) <= 1.0 ==> (AlmostEqual(a, b) <==> Abs(a - b) <= EPS)
    ensures !(Abs(a) <= 1.0 && Abs(b) <= 1.0) ==>
              (AlmostEqual(a, b) <==> Abs(a - b) <= EPS * Max(Abs(a), Abs(b)))
  {
  }

  /** Comparing with zero is the absolute test |x| <= EPS. */
  lemma AlmostEqualZero(x: real)
    ensures AlmostEqual(x, 0.0) <==> Abs(x) <= EPS
  {
  }

  /** A value almost equal to zero is not zero only within EPS; in particular a
      value that is not almost zero can be divided by. */
  lemma NotAlmostZeroIsNonZero(x: real)
    ensures !AlmostEqual(x, 0.0) ==> x != 0.0
  {
  }
}
