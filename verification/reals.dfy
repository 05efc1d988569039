/**
 Facts about squares and quotients of reals that the filter formulas rest on.
 Squares are written with `Sq` so that their sign facts are stated about a
 named term; every other module states its nonlinear steps through these.
 */
module Reals {

  function Sq(x: real): real {
    x * x
  }

  lemma SqNonneg(x: real)
    ensures Sq(x) >= 0.0
  {
  }

  /** A nonzero real has a positive square. */
  lemma SqPos(x: real)
    requires x != 0.0
    ensures Sq(x) > 0.0
  {
    if x > 0.0 {
      assert Sq(x) / x == x;
    } else {
      assert Sq(x) == Sq(-x);
      assert Sq(-x) / (-x) == -x;
    }
  }

  /** Only zero squares to zero. */
  lemma SqZero(x: real)
    ensures Sq(x) == 0.0 <==> x == 0.0
  {
    if x != 0.0 {
      SqPos(x);
    }
  }

  /** A sum of squares with one nonzero term is positive. */
  lemma SumSqPos(x: real, y: real)
    requires x != 0.0
    ensures Sq(x) + Sq(y) > 0.0
  {
    SqPos(x);
    SqNonneg(y);
  }

  lemma SqNeg(x: real)
    ensures Sq(-x) == Sq(x)
  {
  }

  lemma SqMul(x: real, y: real)
    ensures Sq(x * y) == Sq(x) * Sq(y)
  {
  }

  /** On the non-negative reals squaring is strictly increasing, in both directions. */
  lemma SqLess(x: real, y: real)
    requires 0.0 <= x && 0.0 <= y
    ensures x < y <==> Sq(x) < Sq(y)
  {
    if x < y {
      SqLessStep(x, y);
    } else if y < x {
      SqLessStep(y, x);
    }
  }

  lemma SqLessStep(x: real, y: real)
    requires 0.0 <= x < y
    ensures Sq(x) < Sq(y)
  {
    ProductPos(y - x, y + x);
    assert Sq(y) - Sq(x) == Product(y - x, y + x);
  }

  /** Two non-negative square roots of the same number coincide. */
  lemma SqInjective(x: real, y: real)
    requires 0.0 <= x && 0.0 <= y
    requires Sq(x) == Sq(y)
    ensures x == y
  {
    SqLess(x, y);
    SqLess(y, x);
  }

  lemma MulPos(x: real, y: real)
    requires x > 0.0 && y > 0.0
    ensures x * y > 0.0
  {
  }

  /** x·y as a named term, so that its sign survives as a fact about the term. */
  function Product(x: real, y: real): real {
    x * y
  }

  lemma ProductPos(x: real, y: real)
    requires x > 0.0 && y > 0.0
    ensures Product(x, y) > 0.0
  {
  }

  /** Dividing and multiplying back by the same nonzero number is the identity. */
  lemma DivMul(a: real, b: real)
    requires b != 0.0
    ensures a / b * b == a
  {
  }

  lemma DivNonneg(a: real, b: real)
    requires a >= 0.0 && b > 0.0
    ensures a / b >= 0.0
  {
  }

  /** The quotient is the only number that multiplies back to the dividend. */
  lemma QuotientUnique(q: real, a: real, b: real)
    requires b != 0.0 && q * b == a
    ensures q == a / b
  {
  }

  /** Taking reciprocals reverses the order of positive reals. */
  lemma RecipLess(a: real, b: real)
    requires 0.0 < a < b
    ensures 0.0 < 1.0 / b < 1.0 / a
  {
    assert 1.0 / b * b == 1.0;
    assert 1.0 / a * a == 1.0;
  }

  lemma RecipPos(a: real)
    requires a > 0.0
    ensures 1.0 / a > 0.0
  {
    RecipLess(a, a + 1.0);
  }

  /** A nonzero factor cancels. */
  lemma CancelFactor(a: real, b: real, m: real)
    requires m != 0.0 && a * m == b * m
    ensures a == b
  {
    assert (a - b) * m == 0.0;
  }

  /** Two fractions over one denominator that sum to it add up to 1. */
  lemma SumOfQuotients(a: real, b: real, d: real)
    requires d != 0.0 && a + b == d
    ensures a / d + b / d == 1.0
  {
    DivMul(a, d);
    DivMul(b, d);
    CancelFactor(a / d + b / d, 1.0, d);
  }

  /** A product of nonzero factors is nonzero. */
  lemma NonzeroProduct(x: real, y: real)
    requires x != 0.0 && y != 0.0
    ensures x * y != 0.0
  {
  }

  /** A quotient of a nonzero by a nonzero is nonzero. */
  lemma NonzeroQuotient(a: real, b: real)
    requires a != 0.0 && b != 0.0
    ensures a / b != 0.0
  {
    DivMul(a, b);
  }

  /** A positive over a positive is positive. */
  lemma DivPos(a: real, b: real)
    requires a > 0.0 && b > 0.0
    ensures a / b > 0.0
  {
    DivMul(a, b);
    if a / b <= 0.0 {
      MulPos(-(a / b) + 1.0, b);
    }
  }

  /** A quotient a/b with b != 0 is positive exactly when a and b agree in sign. */
  lemma QuotientSign(a: real, b: real)
    requires a > 0.0 && b != 0.0
    ensures a / b > 0.0 <==> b > 0.0
  {
    DivMul(a, b);
    if b > 0.0 {
      DivPos(a, b);
    } else {
      DivPos(a, -b);
      assert a / -b == -(a / b);
    }
  }

  /** n/(d + n) with n > 0 and d >= 0 is at most 1, and equals 1 exactly when d = 0. */
  lemma FractionAtMostOne(n: real, d: real)
    requires n >= 0.0 && d >= 0.0 && d + n > 0.0
    ensures n / (d + n) <= 1.0
    ensures n / (d + n) == 1.0 <==> d == 0.0
  {
    var q := n / (d + n);
    DivMul(n, d + n);
    if q > 1.0 {
      MulPos(q - 1.0, d + n);
    }
    if q == 1.0 {
      assert n == d + n;
    }
  }

  /** A positive x < y with x·y = m^2, m > 0, places m strictly between them. */
  lemma GeometricMeanBetween(x: real, y: real, m: real)
    requires 0.0 < x < y && m > 0.0 && x * y == Sq(m)
    ensures x < m < y
  {
    ProductPos(x, y - x);
    assert Sq(x) < Sq(m) by {
      assert Sq(m) - Sq(x) == Product(x, y - x);
    }
    SqLess(x, m);
    ProductPos(y, y - x);
    assert Sq(m) < Sq(y) by {
      assert Sq(y) - Sq(m) == Product(y, y - x);
    }
    SqLess(m, y);
  }

  /** A product of non-negatives is non-negative. */
  lemma MulNonneg(x: real, y: real)
    requires x >= 0.0 && y >= 0.0
    ensures x * y >= 0.0
  {
    if x > 0.0 && y > 0.0 {
      MulPos(x, y);
    }
  }

  /** If 0 <= n2 < n1 and 0 <= b1 <= b2 with b2 > 0, then n2·b1 < n1·b2. */
  lemma CrossLess(n1: real, b1: real, n2: real, b2: real)
    requires 0.0 <= n2 < n1 && 0.0 <= b1 <= b2 && b2 > 0.0
    ensures n2 * b1 < n1 * b2
  {
    MulNonneg(n2, b2 - b1);
    MulPos(n1 - n2, b2);
  }

  /** Comparing n/(b + n) fractions by cross-multiplication. */
  lemma RatioOrder(n1: real, b1: real, n2: real, b2: real)
    requires n1 >= 0.0 && b1 >= 0.0 && b1 + n1 > 0.0
    requires n2 >= 0.0 && b2 >= 0.0 && b2 + n2 > 0.0
    requires n2 * b1 < n1 * b2
    ensures n2 / (b2 + n2) < n1 / (b1 + n1)
  {
    var d1, d2 := b1 + n1, b2 + n2;
    var q1, q2 := n1 / d1, n2 / d2;
    DivMul(n1, d1);
    DivMul(n2, d2);
    MulPos(d1, d2);
    assert (q1 - q2) * (d1 * d2) == n1 * d2 - n2 * d1 by {
      assert q1 * d1 * d2 == n1 * d2;
      assert q2 * d2 * d1 == n2 * d1;
    }
    assert n1 * d2 - n2 * d1 == n1 * b2 - n2 * b1;
    if q1 <= q2 {
      MulNonneg(q2 - q1, d1 * d2);
    }
  }

  /** n/(d + n) reaches one half exactly when n = d, and exceeds it exactly when n > d. */
  lemma HalfComparison(n: real, d: real)
    requires n >= 0.0 && d >= 0.0 && d + n > 0.0
    ensures n / (d + n) == 0.5 <==> n == d
    ensures n / (d + n) >= 0.5 <==> n >= d
  {
    var t := d + n;
    var e := n / t - 0.5;
    DivMul(n, t);
    assert t * e == (n - d) / 2.0;
    assert t * -e == -(t * e);
    SignOfProduct(t, e);
    SignOfProduct(t, -e);
  }

  /** Sign facts of a quotient by a nonzero. */
  lemma QuotientFacts(a: real, b: real)
    requires b != 0.0
    ensures a != 0.0 ==> a / b != 0.0
    ensures a > 0.0 && b > 0.0 ==> a / b > 0.0
  {
    if a != 0.0 {
      NonzeroQuotient(a, b);
    }
    if a > 0.0 && b > 0.0 {
      DivPos(a, b);
    }
  }

  /** A positive factor keeps the sign of the other. */
  lemma SignOfProduct(m: real, e: real)
    requires m > 0.0
    ensures m * e >= 0.0 <==> e >= 0.0
  {
    if e > 0.0 {
      MulPos(m, e);
    } else if e < 0.0 {
      MulPos(m, -e);
    }
  }

  /** A product is at most 0 exactly when its factors do not share a strict sign. */
  lemma ProductNonpositive(u: real, v: real)
    ensures u * v <= 0.0 <==> (u >= 0.0 && v <= 0.0) || (u <= 0.0 && v >= 0.0)
  {
    if u > 0.0 && v > 0.0 {
      MulPos(u, v);
    } else if u < 0.0 && v < 0.0 {
      MulPos(-u, -v);
    } else if u > 0.0 && v < 0.0 {
      MulPos(u, -v);
    } else if u < 0.0 && v > 0.0 {
      MulPos(-u, v);
    }
  }

  /** Equal squares mean equal values up to sign. */
  lemma SquaresEqual(x: real, y: real)
    requires Sq(x) == Sq(y)
    ensures x == y || x == -y
  {
    assert (x - y) * (x + y) == Sq(x) - Sq(y);
    if x != y && x != -y {
      NonzeroProduct(x - y, x + y);
    }
  }

  /** Equal squares of two multiples of one nonzero factor: the multipliers agree up to sign. */
  lemma SquaresOfMultiples(x: real, y: real, u: real, v: real, m: real)
    requires m != 0.0 && x == u * m && y == v * m
    requires Sq(x) == Sq(y)
    ensures u == v || u == -v
  {
    SqMul(u, m);
    SqMul(v, m);
    SqPos(m);
    CancelFactor(Sq(u), Sq(v), Sq(m));
    SquaresEqual(u, v);
  }
}
