/**
 Complex numbers over exact reals, as the pair (re, im).  The filters evaluate
 their transfer functions at s = jω, so every evaluation lands here.
 */
module Complex {
  import opened Reals

  datatype Complex = Complex(re: real, im: real)

  const Zero: Complex := Complex(0.0, 0.0)
  const One: Complex := Complex(1.0, 0.0)

  /** The purely imaginary point jω on which a frequency response is evaluated. */
  function J(w: real): Complex {
    Complex(0.0, w)
  }

  /** A real number seen as a complex one. */
  function OfReal(x: real): Complex {
    Complex(x, 0.0)
  }

  function Add(a: Complex, b: Complex): Complex {
    Complex(a.re + b.re, a.im + b.im)
  }

  function Mul(a: Complex, b: Complex): Complex {
    Complex(a.re * b.re - a.im * b.im, a.re * b.im + a.im * b.re)
  }

  /** Squared modulus |a|^2, so that magnitudes need no square root. */
  function Norm2(a: Complex): (n: real)
    ensures n >= 0.0
  {
    SqNonneg(a.re);
    SqNonneg(a.im);
    Sq(a.re) + Sq(a.im)
  }

  /** The squared modulus vanishes exactly at the origin. */
  lemma Norm2Zero(a: Complex)
    ensures Norm2(a) == 0.0 <==> a == Zero
    ensures a != Zero ==> Norm2(a) > 0.0
  {
    if a.re != 0.0 {
      SumSqPos(a.re, a.im);
    } else if a.im != 0.0 {
      SumSqPos(a.im, a.re);
      assert Norm2(a) == Sq(a.im) + Sq(a.re);
    } else {
      assert a == Zero;
    }
  }

  /** Complex division a / b, the inverse of multiplication by b. */
  function Div(a: Complex, b: Complex): (q: Complex)
    requires b != Zero
    ensures Mul(q, b) == a
  {
    Norm2Zero(b);
    var n := Norm2(b);
    var q := Complex((a.re * b.re + a.im * b.im) / n, (a.im * b.re - a.re * b.im) / n);
    DivParts(a.re, a.im, b.re, b.im, n);
    q
  }

  /** The real and imaginary parts of (x + jy)(u - jv)/(u^2 + v^2), multiplied back by u + jv. */
  lemma DivParts(x: real, y: real, u: real, v: real, n: real)
    requires n == Sq(u) + Sq(v) && n != 0.0
    ensures (x * u + y * v) / n * u - (y * u - x * v) / n * v == x
    ensures (x * u + y * v) / n * v + (y * u - x * v) / n * u == y
  {
    var p := (x * u + y * v) / n;
    var q := (y * u - x * v) / n;
    DivMul(x * u + y * v, n);
    DivMul(y * u - x * v, n);
    assert (p * u - q * v) * n == x * n;
    assert (p * v + q * u) * n == y * n;
    CancelFactor(p * u - q * v, x, n);
    CancelFactor(p * v + q * u, y, n);
  }

  /** Multiplication by a nonzero number is injective, so the quotient is unique. */
  lemma DivUnique(z: Complex, a: Complex, b: Complex)
    requires b != Zero && Mul(z, b) == a
    ensures z == Div(a, b)
  {
    var q := Div(a, b);
    var d := Complex(z.re - q.re, z.im - q.im);
    assert Mul(d, b) == Zero;
    MulCancel(d, b);
  }

  /** A product with a nonzero factor vanishes only when the other factor does. */
  lemma MulCancel(d: Complex, b: Complex)
    requires b != Zero && Mul(d, b) == Zero
    ensures d == Zero
  {
    Norm2Zero(b);
    var n := Norm2(b);
    assert d.re * n == 0.0 * n by {
      assert d.re * n == (d.re * b.re - d.im * b.im) * b.re + (d.re * b.im + d.im * b.re) * b.im;
    }
    assert d.im * n == 0.0 * n by {
      assert d.im * n == (d.re * b.im + d.im * b.re) * b.re - (d.re * b.re - d.im * b.im) * b.im;
    }
    CancelFactor(d.re, 0.0, n);
    CancelFactor(d.im, 0.0, n);
  }

  /** The squared modulus is multiplicative. */
  lemma Norm2Mul(a: Complex, b: Complex)
    ensures Norm2(Mul(a, b)) == Norm2(a) * Norm2(b)
  {
    var x, y, u, v := a.re, a.im, b.re, b.im;
    calc {
      Norm2(Mul(a, b));
      (x * u - y * v) * (x * u - y * v) + (x * v + y * u) * (x * v + y * u);
      x * x * u * u + y * y * v * v + x * x * v * v + y * y * u * u;
      (x * x + y * y) * (u * u + v * v);
    }
  }

  /** |a / b|^2 = |a|^2 / |b|^2: the modulus of a quotient needs no square root. */
  lemma Norm2Div(a: Complex, b: Complex)
    requires b != Zero
    ensures Norm2(b) > 0.0
    ensures Norm2(Div(a, b)) == Norm2(a) / Norm2(b)
  {
    var q := Div(a, b);
    Norm2Zero(b);
    Norm2Mul(q, b);
    assert Norm2(a) == Norm2(q) * Norm2(b);
  }

  lemma MulAddDistrib(a: Complex, b: Complex, z: Complex)
    ensures Mul(Add(a, b), z) == Add(Mul(a, z), Mul(b, z))
  {
  }

  lemma MulScaleAssoc(c: real, a: Complex, z: Complex)
    ensures Mul(Mul(OfReal(c), a), z) == Mul(OfReal(c), Mul(a, z))
  {
    assert Mul(Mul(OfReal(c), a), z).re == c * (a.re * z.re - a.im * z.im);
    assert Mul(Mul(OfReal(c), a), z).im == c * (a.re * z.im + a.im * z.re);
  }
}
