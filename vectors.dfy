/** Three-component real vectors (vec3_t, and color_t, which is the same type),
    with the arithmetic the engine uses. Doubles are modelled as exact reals. */
module Vectors {

  datatype Vec3 = Vec3(x: real, y: real, z: real)

  const Zero: Vec3 := Vec3(0.0, 0.0, 0.0)

  /** The colour constant `black` declared in color.h (defined outside the
      modelled files): the zero vector, under its colour name. */
  const Black: Vec3 := Zero

  /** The attenuation of a dielectric: glass absorbs nothing. */
  const White: Vec3 := Vec3(1.0, 1.0, 1.0)

  /** Multiplication of two reals. Squares and other products that the proofs
      reason about are written with it, so that they are handled as terms. */
  function Times(a: real, b: real): real {
    a * b
  }

  function Add(u: Vec3, v: Vec3): Vec3 {
    Vec3(u.x + v.x, u.y + v.y, u.z + v.z)
  }

  function Sub(u: Vec3, v: Vec3): Vec3 {
    Vec3(u.x - v.x, u.y - v.y, u.z - v.z)
  }

  /** `mul(k, &v)`: scaling by a scalar. */
  function Scale(k: real, v: Vec3): Vec3 {
    Vec3(k * v.x, k * v.y, k * v.z)
  }

  /** Componentwise product, as used to attenuate a colour. */
  function Mul(u: Vec3, v: Vec3): Vec3 {
    Vec3(u.x * v.x, u.y * v.y, u.z * v.z)
  }

  function Dot(u: Vec3, v: Vec3): real {
    Times(u.x, v.x) + Times(u.y, v.y) + Times(u.z, v.z)
  }

  /** Mirror reflection of `v` about the normal `n`: v - 2(v.n)n. */
  function Reflect(v: Vec3, n: Vec3): Vec3 {
    Sub(v, Scale(2.0 * Dot(v, n), n))
  }

  // ---------------------------------------------------------------------------
  // Facts about products of reals

  lemma PositiveProduct(a: real, b: real)
    requires a > 0.0 && b > 0.0
    ensures Times(a, b) > 0.0
  {
  }

  /** A product is zero exactly when one of its factors is. */
  lemma ZeroProduct(a: real, b: real)
    ensures Times(a, b) == 0.0 <==> a == 0.0 || b == 0.0
  {
    if a > 0.0 && b > 0.0 {
      PositiveProduct(a, b);
    } else if a > 0.0 && b < 0.0 {
      PositiveProduct(a, -b);
      assert Times(a, -b) == -Times(a, b);
    } else if a < 0.0 && b > 0.0 {
      PositiveProduct(-a, b);
      assert Times(-a, b) == -Times(a, b);
    } else if a < 0.0 && b < 0.0 {
      PositiveProduct(-a, -b);
      assert Times(-a, -b) == Times(a, b);
    }
  }

  /** A product is negative exactly when its factors have opposite signs. */
  lemma NegativeProduct(a: real, b: real)
    ensures Times(a, b) < 0.0 <==> (a > 0.0 && b < 0.0) || (a < 0.0 && b > 0.0)
  {
    ZeroProduct(a, b);
    if a > 0.0 && b > 0.0 {
      PositiveProduct(a, b);
    } else if a > 0.0 && b < 0.0 {
      PositiveProduct(a, -b);
      assert Times(a, -b) == -Times(a, b);
    } else if a < 0.0 && b > 0.0 {
      PositiveProduct(-a, b);
      assert Times(-a, b) == -Times(a, b);
    } else if a < 0.0 && b < 0.0 {
      PositiveProduct(-a, -b);
      assert Times(-a, -b) == Times(a, b);
    }
  }

  /** A square is never negative, and is positive for a nonzero real. */
  lemma Square(a: real)
    ensures Times(a, a) >= 0.0
    ensures a != 0.0 ==> Times(a, a) > 0.0
  {
    if a > 0.0 {
      PositiveProduct(a, a);
    } else if a < 0.0 {
      PositiveProduct(-a, -a);
      assert Times(-a, -a) == Times(a, a);
    }
  }

  /** Squaring is strictly increasing on the non-negative reals. */
  lemma SquareIncreasing(p: real, q: real)
    requires p > q >= 0.0
    ensures Times(p, p) > Times(q, q)
  {
    assert Times(p, p) - Times(q, q) == Times(p - q, p + q);
    PositiveProduct(p - q, p + q);
  }

  /** If p*p <= q*q with q >= 0, then -q <= p <= q. */
  lemma SquareBound(p: real, q: real)
    requires q >= 0.0 && Times(p, p) <= Times(q, q)
    ensures -q <= p <= q
  {
    if p > q {
      SquareIncreasing(p, q);
    }
    if p < -q {
      assert Times(-p, -p) == Times(p, p);
      SquareIncreasing(-p, q);
    }
  }

  /** If p*p < q*q with q >= 0, then -q < p < q. */
  lemma SquareStrictBound(p: real, q: real)
    requires q >= 0.0 && Times(p, p) < Times(q, q)
    ensures -q < p < q
  {
    if p > q {
      SquareIncreasing(p, q);
    }
    if -p > q {
      assert Times(-p, -p) == Times(p, p);
      SquareIncreasing(-p, q);
    }
  }

  /** The product of two values in [0, 1] lies in [0, 1]. */
  lemma UnitIntervalProduct(a: real, b: real)
    requires 0.0 <= a <= 1.0 && 0.0 <= b <= 1.0
    ensures 0.0 <= a * b <= 1.0
  {
    if a > 0.0 && b > 0.0 {
      PositiveProduct(a, b);
      if a < 1.0 {
        PositiveProduct(1.0 - a, b);
        assert b - Times(a, b) == Times(1.0 - a, b);
      }
    }
  }

  // ---------------------------------------------------------------------------
  // Facts about vectors

  /** The squared length is never negative, and is positive for a nonzero vector. */
  lemma DotSelf(v: Vec3)
    ensures Dot(v, v) >= 0.0
    ensures v != Zero ==> Dot(v, v) > 0.0
  {
    Square(v.x);
    Square(v.y);
    Square(v.z);
  }

  /** Lagrange's identity for three-component vectors, on scalars. */
  lemma Lagrange(a1: real, a2: real, a3: real, b1: real, b2: real, b3: real)
    ensures (a1 * a1 + a2 * a2 + a3 * a3) * (b1 * b1 + b2 * b2 + b3 * b3)
            - (a1 * b1 + a2 * b2 + a3 * b3) * (a1 * b1 + a2 * b2 + a3 * b3)
         == (a2 * b3 - a3 * b2) * (a2 * b3 - a3 * b2)
            + (a3 * b1 - a1 * b3) * (a3 * b1 - a1 * b3)
            + (a1 * b2 - a2 * b1) * (a1 * b2 - a2 * b1)
  {
  }

  /** Cauchy-Schwarz on scalars: uv * uv <= uu * vv for the three sums. */
  lemma ScalarCauchySchwarz(a1: real, a2: real, a3: real, b1: real, b2: real, b3: real)
    ensures (a1 * b1 + a2 * b2 + a3 * b3) * (a1 * b1 + a2 * b2 + a3 * b3)
         <= (a1 * a1 + a2 * a2 + a3 * a3) * (b1 * b1 + b2 * b2 + b3 * b3)
  {
    Lagrange(a1, a2, a3, b1, b2, b3);
    Square(a2 * b3 - a3 * b2);
    Square(a3 * b1 - a1 * b3);
    Square(a1 * b2 - a2 * b1);
  }

  /** Cauchy-Schwarz in squared form, from Lagrange's identity. */
  lemma CauchySchwarz(u: Vec3, v: Vec3)
    ensures Times(Dot(u, v), Dot(u, v)) <= Times(Dot(u, u), Dot(v, v))
  {
    ScalarCauchySchwarz(u.x, u.y, u.z, v.x, v.y, v.z);
    MultiplyEquals(Dot(u, v), Dot(u, v), u.x * v.x + u.y * v.y + u.z * v.z, u.x * v.x + u.y * v.y + u.z * v.z);
    MultiplyEquals(Dot(u, u), Dot(v, v), u.x * u.x + u.y * u.y + u.z * u.z, v.x * v.x + v.y * v.y + v.z * v.z);
  }

  /** Solver aid, modelling nothing: products of equal factors are equal,
      stated on names so that the solver does not have to match the
      arithmetic terms itself. */
  lemma MultiplyEquals(a: real, b: real, c: real, d: real)
    requires a == c && b == d
    ensures Times(a, b) == c * d
  {
  }

  /** For a unit vector `u` and a vector `w` shorter than one, -1 < u.w < 1. */
  lemma DotBelowOne(u: Vec3, w: Vec3)
    requires Dot(u, u) == 1.0 && Dot(w, w) < 1.0
    ensures -1.0 < Dot(u, w) < 1.0
  {
    CauchySchwarz(u, w);
    assert Times(Dot(u, u), Dot(w, w)) == Dot(w, w);
    SquareStrictBound(Dot(u, w), 1.0);
  }

  /** For unit vectors, -1 <= u.n <= 1. */
  lemma DotOfUnits(u: Vec3, n: Vec3)
    requires Dot(u, u) == 1.0 && Dot(n, n) == 1.0
    ensures -1.0 <= Dot(u, n) <= 1.0
  {
    CauchySchwarz(u, n);
    SquareBound(Dot(u, n), 1.0);
  }

  /** The y component of a unit vector lies in [-1, 1]. */
  lemma UnitComponentY(u: Vec3)
    requires Dot(u, u) == 1.0
    ensures -1.0 <= u.y <= 1.0
  {
    Square(u.x);
    Square(u.z);
    SquareBound(u.y, 1.0);
  }

  lemma DotSymmetric(u: Vec3, v: Vec3)
    ensures Dot(u, v) == Dot(v, u)
  {
  }

  /** The dot product distributes over a sum on the left. */
  lemma DotAdd(u: Vec3, v: Vec3, w: Vec3)
    ensures Dot(Add(u, v), w) == Dot(u, w) + Dot(v, w)
  {
  }

  /** Scaling one side scales the dot product. */
  lemma DotScale(k: real, v: Vec3, n: Vec3)
    ensures Dot(Scale(k, v), n) == Times(k, Dot(v, n))
  {
    assert Times(k * v.x, n.x) + Times(k * v.y, n.y) + Times(k * v.z, n.z)
        == k * (Times(v.x, n.x) + Times(v.y, n.y) + Times(v.z, n.z));
  }

  /** Reflecting about a unit normal keeps the length of the vector. */
  lemma ReflectKeepsLength(v: Vec3, n: Vec3)
    requires Dot(n, n) == 1.0
    ensures Dot(Reflect(v, n), Reflect(v, n)) == Dot(v, v)
  {
    var k := 2.0 * Dot(v, n);
    var r := Reflect(v, n);
    assert Dot(r, r) == Dot(v, v) - 2.0 * k * Dot(v, n) + k * k * Dot(n, n);
  }

  /** Reflecting about a unit normal negates the component along the normal. */
  lemma ReflectFlipsNormalPart(v: Vec3, n: Vec3)
    requires Dot(n, n) == 1.0
    ensures Dot(Reflect(v, n), n) == -Dot(v, n)
  {
    assert Dot(Reflect(v, n), n) == Dot(v, n) - 2.0 * Dot(v, n) * Dot(n, n);
  }

  /** Dividing a vector of length |r| by r gives a unit vector. */
  lemma UnitScale(v: Vec3, r: real)
    requires r != 0.0 && Dot(v, v) == Times(r, r)
    ensures Dot(Scale(1.0 / r, v), Scale(1.0 / r, v)) == 1.0
  {
    var k := 1.0 / r;
    assert k * r == 1.0;
    assert Dot(Scale(k, v), Scale(k, v)) == k * k * Dot(v, v);
    assert k * k * Times(r, r) == (k * r) * (k * r);
  }
}
