/** The numeric helpers and random samplers the engine calls whose definitions
    lie outside the modelled files: `sqrt` (libm), `unit_vector`, `refract`,
    `near_zero`, `reflectance` (vector and utility headers), and the random
    samplers `random_on_unit_sphere`, `random_in_unit_sphere` and
    `RANDOM_DOUBLE_UNIT`. They are passed in as values, and each carries only
    the facts the proofs use. */
module Primitives {
  import opened Vectors

  datatype MathLib = MathLib(
    sqrt: real -> real,
    unitVector: Vec3 -> Vec3,
    refract: (Vec3, Vec3, real) -> Vec3,
    nearZero: Vec3 -> bool,
    reflectance: (real, real) -> real)

  /** `sqrt` on its domain: the non-negative root. */
  ghost predicate IsSqrt(sqrt: real -> real) {
    forall d :: 0.0 <= d ==> 0.0 <= sqrt(d) && Times(sqrt(d), sqrt(d)) == d
  }

  /** `unit_vector` on nonzero vectors: a positive multiple of length 1. */
  ghost predicate IsUnitVector(unitVector: Vec3 -> Vec3) {
    forall v :: Dot(v, v) > 0.0 ==>
      && Dot(unitVector(v), unitVector(v)) == 1.0
      && exists k :: k > 0.0 && unitVector(v) == Scale(k, v)
  }

  /** The facts the model relies on:
      - `sqrt` is the square root on non-negative reals;
      - `unit_vector` of a nonzero vector is a positive multiple of it of length 1;
      - `refract` of unit vectors is never the zero vector (its two parts are
        orthogonal and one of them has length at least 1 or they sum to 1);
      - the zero vector is "near zero". */
  ghost predicate Valid(m: MathLib) {
    && IsSqrt(m.sqrt)
    && IsUnitVector(m.unitVector)
    && (forall u, n, ratio :: Dot(u, u) == 1.0 && Dot(n, n) == 1.0 ==> m.refract(u, n, ratio) != Zero)
    && m.nearZero(Zero)
  }

  /** The random samples one bounce may consume. */
  datatype Draw = Draw(onUnitSphere: Vec3, inUnitSphere: Vec3, unit: real)

  /** `random_on_unit_sphere` returns a unit vector, and
      `random_in_unit_sphere` a point strictly inside the unit sphere. */
  predicate ValidDraw(d: Draw) {
    && Dot(d.onUnitSphere, d.onUnitSphere) == 1.0
    && Dot(d.inUnitSphere, d.inUnitSphere) < 1.0
  }
}
