/**
 Polynomials as coefficient sequences, highest degree first (the convention of
 scipy's TransferFunction, freqs and numpy's polyval), evaluated at s = jω.
 */
module Polynomial {
  import opened Complex

  type Poly = seq<real>

  /** (jω)^k. */
  function PowJ(k: nat, w: real): Complex
  {
    if k == 0 then One else Mul(PowJ(k - 1, w), J(w))
  }

  /**
   Reference meaning of a coefficient list: the sum of p[i]·(jω)^(n-1-i),
   taken from the leading coefficient down.
   */
  function PowerSum(p: Poly, w: real): Complex
  {
    if |p| == 0 then Zero
    else Add(Mul(OfReal(p[0]), PowJ(|p| - 1, w)), PowerSum(p[1..], w))
  }

  /**
   Horner's scheme, peeling the constant term off the end: the value that
   numpy's polyval accumulates as y = y·s + c over the coefficients.
   */
  function Horner(p: Poly, w: real): Complex
  {
    if |p| == 0 then Zero
    else Add(Mul(Horner(p[..|p| - 1], w), J(w)), OfReal(p[|p| - 1]))
  }

  /** Horner's value splits off the leading term, like the reference sum. */
  lemma {:induction false} HornerLeading(p: Poly, w: real)
    requires |p| >= 1
    ensures Horner(p, w) == Add(Mul(OfReal(p[0]), PowJ(|p| - 1, w)), Horner(p[1..], w))
  {
    var n := |p|;
    if n == 1 {
      assert p[..0] == [];
      assert p[1..] == [];
    } else {
      var q := p[..n - 1];
      HornerLeading(q, w);
      assert q[0] == p[0];
      assert q[1..] == p[1..][..n - 2];
      assert p[1..][n - 2] == p[n - 1];
      var lead := Mul(OfReal(p[0]), PowJ(n - 2, w));
      var rest := Horner(q[1..], w);
      calc {
        Horner(p, w);
        Add(Mul(Horner(q, w), J(w)), OfReal(p[n - 1]));
        Add(Mul(Add(lead, rest), J(w)), OfReal(p[n - 1]));
        { MulAddDistrib(lead, rest, J(w)); }
        Add(Add(Mul(lead, J(w)), Mul(rest, J(w))), OfReal(p[n - 1]));
        { MulScaleAssoc(p[0], PowJ(n - 2, w), J(w)); }
        Add(Add(Mul(OfReal(p[0]), PowJ(n - 1, w)), Mul(rest, J(w))), OfReal(p[n - 1]));
        Add(Mul(OfReal(p[0]), PowJ(n - 1, w)), Add(Mul(rest, J(w)), OfReal(p[n - 1])));
        Add(Mul(OfReal(p[0]), PowJ(n - 1, w)), Horner(p[1..], w));
      }
    }
  }

  /** Horner's scheme computes the polynomial's value. */
  lemma {:induction false} HornerIsPowerSum(p: Poly, w: real)
    ensures Horner(p, w) == PowerSum(p, w)
    decreases |p|
  {
    if |p| > 0 {
      HornerLeading(p, w);
      HornerIsPowerSum(p[1..], w);
    }
  }

  /**
   numpy's polyval at s = jω: y starts at zero and, for each coefficient
   from the leading one down, becomes y·s + c.
   */
  method Polyval(p: Poly, w: real) returns (y: Complex)
    ensures y == PowerSum(p, w)
  {
    y := Zero;
    var i := 0;
    while i < |p|
      invariant 0 <= i <= |p|
      invariant y == Horner(p[..i], w)
    {
      assert p[..i + 1][..i] == p[..i];
      y := Add(Mul(y, J(w)), OfReal(p[i]));
      i := i + 1;
    }
    assert p[..|p|] == p;
    HornerIsPowerSum(p, w);
  }

  /** A constant c evaluates to c. */
  lemma HornerConstant(a: real, w: real)
    ensures Horner([a], w) == Complex(a, 0.0)
  {
    assert [a][..0] == [];
  }

  /** a·s + b at s = jω is b + j·aω. */
  lemma HornerLinear(a: real, b: real, w: real)
    ensures Horner([a, b], w) == Complex(b, a * w)
  {
    assert [a, b][..1] == [a];
    HornerConstant(a, w);
    assert Horner([a, b], w) == Add(Mul(Complex(a, 0.0), J(w)), OfReal(b));
  }

  /** a·s² + b·s + c at s = jω is (c − aω²) + j·bω. */
  lemma HornerQuadratic(a: real, b: real, c: real, w: real)
    ensures Horner([a, b, c], w) == Complex(c - a * w * w, b * w)
  {
    assert [a, b, c][..2] == [a, b];
    HornerLinear(a, b, w);
    assert Horner([a, b, c], w) == Add(Mul(Complex(b, a * w), J(w)), OfReal(c));
    assert Mul(Complex(b, a * w), J(w)) == Complex(-(a * w * w), b * w);
  }
}
