/** Facts of real arithmetic used by the geometry. Each lemma states one
    non-linear step on plain reals, so that the proofs about vectors and
    spheres only ever combine these facts linearly. */
module RealFacts {

  lemma SquareOfPositive(a: real)
    requires a > 0.0
    ensures a * a > 0.0
  {
  }

  lemma SquareOfNegative(a: real)
    requires a < 0.0
    ensures a * a > 0.0
  {
    SquareOfPositive(-a);
    assert a * a == (-a) * (-a);
  }

  lemma SquareNonNegative(a: real)
    ensures a * a >= 0.0
  {
    if a > 0.0 {
      SquareOfPositive(a);
    } else if a < 0.0 {
      SquareOfNegative(a);
    }
  }

  lemma ProductPositive(a: real, b: real)
    requires a > 0.0 && b > 0.0
    ensures a * b > 0.0
  {
  }

  /** A product of two non-zero reals is non-zero. */
  lemma ProductNonZero(a: real, b: real)
    requires a != 0.0 && b != 0.0
    ensures a * b != 0.0
  {
    if a > 0.0 && b > 0.0 {
      ProductPositive(a, b);
    } else if a > 0.0 {
      ProductPositive(a, -b);
      assert a * b == -(a * (-b));
    } else if b > 0.0 {
      ProductPositive(-a, b);
      assert a * b == -((-a) * b);
    } else {
      ProductPositive(-a, -b);
      assert a * b == (-a) * (-b);
    }
  }

  lemma SumOfSquaresNonNegative(a: real, b: real, c: real)
    ensures a * a + b * b + c * c >= 0.0
  {
    SquareNonNegative(a);
    SquareNonNegative(b);
    SquareNonNegative(c);
  }

  /** Lagrange's identity in three dimensions. */
  lemma Lagrange(a: real, b: real, c: real, x: real, y: real, z: real)
    ensures (a * a + b * b + c * c) * (x * x + y * y + z * z) - (a * x + b * y + c * z) * (a * x + b * y + c * z)
         == (a * y - b * x) * (a * y - b * x) + (b * z - c * y) * (b * z - c * y) + (c * x - a * z) * (c * x - a * z)
  {
  }

  lemma CauchySchwarz(a: real, b: real, c: real, x: real, y: real, z: real)
    ensures (a * x + b * y + c * z) * (a * x + b * y + c * z) <= (a * a + b * b + c * c) * (x * x + y * y + z * z)
  {
    Lagrange(a, b, c, x, y, z);
    SquareNonNegative(a * y - b * x);
    SquareNonNegative(b * z - c * y);
    SquareNonNegative(c * x - a * z);
  }

  /** Comparing non-negative reals by their squares: from d^2 <= m^2 follows
      d <= m, since otherwise d^2 - m^2 = (d - m)(d + m) would be positive. */
  lemma SquareMonotone(d: real, m: real)
    requires 0.0 < d && 0.0 <= m && d * d <= m * m
    ensures d <= m
  {
    if m < d {
      ProductPositive(d - m, d + m);
    }
  }

  /** The product of two roots is a root of the product. */
  lemma ProductOfRoots(s: real, t: real, x: real, y: real)
    requires s * s == x && t * t == y
    ensures (s * t) * (s * t) == x * y
  {
    assert (s * t) * (s * t) == (s * s) * (t * t);
  }

  lemma ProductNonNegative(a: real, b: real)
    requires 0.0 <= a && 0.0 <= b
    ensures 0.0 <= a * b
  {
  }

  lemma RatioInUnitInterval(d: real, w: real)
    requires 0.0 < d <= w
    ensures 0.0 < d / w <= 1.0
  {
  }

  /** The cosine bound: if d^2 <= uu * vv, where su and sv are the
      non-negative roots of uu and vv and d is positive, then su * sv is
      positive and d / (su * sv) lies in (0, 1]. */
  lemma RatioAtMostOne(d: real, uu: real, vv: real, su: real, sv: real)
    requires 0.0 < d && 0.0 <= su && 0.0 <= sv
    requires su * su == uu && sv * sv == vv
    requires d * d <= uu * vv
    ensures su * sv > 0.0
    ensures 0.0 < d / (su * sv) <= 1.0
  {
    ProductOfRoots(su, sv, uu, vv);
    ProductNonNegative(su, sv);
    SquareMonotone(d, su * sv);
    RatioInUnitInterval(d, su * sv);
  }

  lemma DivCancel(x: real, y: real)
    requires y != 0.0
    ensures (x / y) * y == x
  {
  }

  /** For k = 1 / l: k * (l * l) == l and k * k * (l * l) == 1. */
  lemma ReciprocalScaling(k: real, l: real)
    requires l != 0.0 && k == 1.0 / l
    ensures k * (l * l) == l
    ensures k * k * (l * l) == 1.0
  {
    DivCancel(1.0, l);
    assert k * l == 1.0;
    assert k * (l * l) == (k * l) * l;
    assert k * k * (l * l) == (k * l) * (k * l);
  }

  /** The quotient is the only solution of t * y == x. */
  lemma DivUnique(x: real, y: real, t: real)
    requires y != 0.0 && t * y == x
    ensures t == x / y
  {
    DivCancel(x, y);
    ZeroFactor(y, t - x / y);
  }

  /** A zero product with one non-zero factor has a zero other factor. */
  lemma ZeroFactor(k: real, q: real)
    requires k != 0.0 && k * q == 0.0
    ensures q == 0.0
  {
    if q != 0.0 {
      ProductNonZero(k, q);
    }
  }

  /** 4a (a t^2 + b t + c) == (2at)^2 + 2b (2at) + 4ac. */
  lemma QuadraticIdentity(a: real, b: real, c: real, t: real)
    ensures 4.0 * a * (a * t * t + b * t + c)
         == (2.0 * a * t) * (2.0 * a * t) + 2.0 * b * (2.0 * a * t) + 4.0 * a * c
  {
  }

  lemma CompleteSquare(a: real, b: real, c: real, s: real)
    requires s * s == b * b - 4.0 * a * c
    ensures (s - b) * (s - b) + 2.0 * b * (s - b) + 4.0 * a * c == 0.0
  {
  }

  /** The quadratic formula, in the direction "formula gives a root": for any
      square root s of the discriminant, (-b + s) / 2a solves the equation. */
  lemma QuadraticRoot(a: real, b: real, c: real, s: real, t: real)
    requires a != 0.0 && s * s == b * b - 4.0 * a * c
    requires t == (-b + s) / (2.0 * a)
    ensures a * t * t + b * t + c == 0.0
  {
    DivCancel(-b + s, 2.0 * a);
    QuadraticIdentity(a, b, c, t);
    CompleteSquare(a, b, c, s);
    ZeroFactor(4.0 * a, a * t * t + b * t + c);
  }

  /** At a root t, the discriminant is the square of 2at + b, hence not
      negative. */
  lemma DiscriminantAtRoot(a: real, b: real, c: real, t: real)
    requires a * t * t + b * t + c == 0.0
    ensures b * b - 4.0 * a * c == (2.0 * a * t + b) * (2.0 * a * t + b)
    ensures 0.0 <= b * b - 4.0 * a * c
  {
    QuadraticIdentity(a, b, c, t);
    SquareNonNegative(2.0 * a * t + b);
  }

  /** The quadratic formula, in the direction "every root is given by the
      formula": a root is (-b + s) / 2a or (-b - s) / 2a. */
  lemma RootIsGivenByFormula(a: real, b: real, c: real, s: real, t: real)
    requires a != 0.0 && s * s == b * b - 4.0 * a * c
    requires a * t * t + b * t + c == 0.0
    ensures t == (-b + s) / (2.0 * a) || t == (-b - s) / (2.0 * a)
  {
    DiscriminantAtRoot(a, b, c, t);
    var w := 2.0 * a * t + b;
    assert (w - s) * (w + s) == 0.0;
    if w - s != 0.0 {
      ZeroFactor(w - s, w + s);
      DivUnique(-b - s, 2.0 * a, t);
    } else {
      DivUnique(-b + s, 2.0 * a, t);
    }
  }

  lemma QuotientsOrdered(x: real, y: real, z: real)
    requires x <= y && 0.0 < z
    ensures x / z <= y / z
  {
    DivCancel(x, z);
    DivCancel(y, z);
    NonNegativeFactor(y / z - x / z, z);
  }

  lemma NonNegativeFactor(w: real, z: real)
    requires 0.0 <= w * z && 0.0 < z
    ensures 0.0 <= w
  {
    if w < 0.0 {
      ProductPositive(-w, z);
    }
  }

  /** Scaling the dividend scales the quotient. */
  lemma ScaleQuotient(k: real, d: real, w: real)
    requires w != 0.0
    ensures k * d / w == k * (d / w)
  {
    DivCancel(d, w);
    DivUnique(k * d, w, k * (d / w));
  }
}
