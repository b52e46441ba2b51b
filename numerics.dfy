/**
 * The floating-point library functions the renderers call (std::sqrt, std::pow,
 * glm::normalize, glm::length) are not modelled: every operation takes them as
 * function values, and only the facts below are assumed about them.
 */
module Numerics {
  import opened Affine

  datatype Math = Math(sqrt: real -> real, pow: (real, real) -> real,
                       normalize: Vec3 -> Vec3, length: Vec3 -> real)
  {
    /** What the model relies on: a square root that squares back, a power of a
        positive base that is not negative, and a positive length for a non-zero vector. */
    ghost predicate Valid() {
      (forall x: real :: 0.0 <= x ==> 0.0 <= sqrt(x) && sqrt(x) * sqrt(x) == x) &&
      (forall base: real, e: real :: 0.0 < base ==> 0.0 <= pow(base, e)) &&
      (forall v: Vec3 :: v != Zero ==> 0.0 < length(v))
    }
  }
}
