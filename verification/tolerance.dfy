/**
 * The shared numeric tolerance of AbstractLinearConstruct and the
 * tolerance predicates of the external validation library the kernel calls.
 * The library's source is not part of this model: the meaning given to
 * each predicate below is an explicit assumption about it.
 */
module Tolerance {

  /** The margin of error for comparing coordinates (1e-7). */
  const EPSILON: real := 0.0000001

  /** `a` equals `b` within `e`. */
  predicate IsEqual(a: real, b: real, e: real) {
    -e <= a - b <= e
  }

  /** `a` is below `b` by more than `e`. */
  predicate IsLessThan(a: real, b: real, e: real) {
    a < b - e
  }

  /** `a` is above `b` by more than `e`. */
  predicate IsGreaterThan(a: real, b: real, e: real) {
    a > b + e
  }

  /** `a` is at most `b`, allowing `e` of slack. */
  predicate IsLessThanOrEqual(a: real, b: real, e: real) {
    a <= b + e
  }

  /** `a` is at least `b`, allowing `e` of slack. */
  predicate IsGreaterThanOrEqual(a: real, b: real, e: real) {
    a >= b - e
  }
}
