/**
 * The parts of the C maths library (and of Python's `math`/`numpy`) that the
 * geometry calls: `sqrt`, `atan2` and the constant pi. Their floating-point
 * definitions are outside the model, so they are passed in as a value and
 * only the ranges the model relies on are assumed of them, through ValidLibm.
 */
module CMath {
  datatype Libm = Libm(sqrt: real -> real, atan2: (real, real) -> real, pi: real)

  /** The ranges of the library functions: sqrt is non-negative and zero only at
      zero, atan2 lies in [-pi, pi] and is 0 along the positive x-axis. */
  ghost predicate ValidLibm(m: Libm)
  {
    && m.pi > 0.0
    && (forall x :: 0.0 <= x ==> 0.0 <= m.sqrt(x))
    && (forall x :: 0.0 < x ==> 0.0 < m.sqrt(x))
    && (forall y, x :: -m.pi <= m.atan2(y, x) <= m.pi)
    && (forall x :: 0.0 < x ==> m.atan2(0.0, x) == 0.0)
  }
}
