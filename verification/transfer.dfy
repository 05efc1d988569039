/**
 A rational transfer function H(s) = N(s)/D(s) held as two coefficient lists,
 as the scripts pass them to scipy's TransferFunction and lti, and its frequency
 response on the imaginary axis.
 */
module Transfer {
  import opened Reals
  import opened Complex
  import opened Polynomial

  datatype TransferFunction = TransferFunction(num: Poly, den: Poly)

  /** Strictly proper, with a nonzero leading denominator coefficient. */
  predicate StrictlyProper(h: TransferFunction) {
    && |h.den| > 0
    && h.den[0] != 0.0
    && |h.num| < |h.den|
  }

  /** N(jω). */
  function Numerator(h: TransferFunction, w: real): Complex {
    Horner(h.num, w)
  }

  /** D(jω). */
  function Denominator(h: TransferFunction, w: real): Complex {
    Horner(h.den, w)
  }

  /** H(jω) exists where D(jω) does not vanish. */
  predicate Defined(h: TransferFunction, w: real) {
    Denominator(h, w) != Zero
  }

  /** H(jω) = N(jω)/D(jω), the value scipy's freqs reports at ω. */
  function Response(h: TransferFunction, w: real): (r: Complex)
    requires Defined(h, w)
    ensures Mul(r, Denominator(h, w)) == Numerator(h, w)
  {
    Div(Numerator(h, w), Denominator(h, w))
  }

  /** |H(jω)|^2 = |N(jω)|^2 / |D(jω)|^2. */
  function Mag2(h: TransferFunction, w: real): (m: real)
    requires Defined(h, w)
    ensures m >= 0.0
    ensures m * Norm2(Denominator(h, w)) == Norm2(Numerator(h, w))
  {
    Norm2Zero(Denominator(h, w));
    DivMul(Norm2(Numerator(h, w)), Norm2(Denominator(h, w)));
    DivNonneg(Norm2(Numerator(h, w)), Norm2(Denominator(h, w)));
    Norm2(Numerator(h, w)) / Norm2(Denominator(h, w))
  }

  /** |H(jω)|^2 from closed forms of |N(jω)|^2 and |D(jω)|^2. */
  lemma Mag2Ratio(h: TransferFunction, w: real, n: real, d: real)
    requires Defined(h, w)
    requires Norm2(Numerator(h, w)) == n && Norm2(Denominator(h, w)) == d
    ensures d > 0.0
    ensures Mag2(h, w) == n / d
  {
    Norm2Zero(Denominator(h, w));
  }

  /** The squared magnitude is the squared modulus of the response. */
  lemma Mag2OfResponse(h: TransferFunction, w: real)
    requires Defined(h, w)
    ensures Mag2(h, w) == Norm2(Response(h, w))
  {
    Norm2Div(Numerator(h, w), Denominator(h, w));
  }

  /**
   scipy's freqs: evaluate numerator and denominator with polyval at jω for
   every ω of the sweep and divide.
   */
  method Freqs(h: TransferFunction, ws: seq<real>) returns (hs: seq<Complex>)
    requires forall i :: 0 <= i < |ws| ==> Defined(h, ws[i])
    ensures |hs| == |ws|
    ensures forall i :: 0 <= i < |ws| ==> Mul(hs[i], PowerSum(h.den, ws[i])) == PowerSum(h.num, ws[i])
    ensures forall i :: 0 <= i < |ws| ==> hs[i] == Response(h, ws[i])
  {
    hs := [];
    var k := 0;
    while k < |ws|
      invariant 0 <= k <= |ws|
      invariant |hs| == k
      invariant forall i :: 0 <= i < k ==> hs[i] == Response(h, ws[i])
    {
      var n := Polyval(h.num, ws[k]);
      var d := Polyval(h.den, ws[k]);
      HornerIsPowerSum(h.num, ws[k]);
      HornerIsPowerSum(h.den, ws[k]);
      hs := hs + [Div(n, d)];
      k := k + 1;
    }
    forall i | 0 <= i < |ws|
      ensures Mul(hs[i], PowerSum(h.den, ws[i])) == PowerSum(h.num, ws[i])
    {
      HornerIsPowerSum(h.num, ws[i]);
      HornerIsPowerSum(h.den, ws[i]);
    }
  }

  /** |H(jω)|^2 at every point of a sweep. */
  function Mag2Samples(h: TransferFunction, ws: seq<real>): (ms: seq<real>)
    requires forall i :: 0 <= i < |ws| ==> Defined(h, ws[i])
    ensures |ms| == |ws|
    ensures forall i :: 0 <= i < |ws| ==> ms[i] == Mag2(h, ws[i])
  {
    seq(|ws|, i requires 0 <= i < |ws| => Mag2(h, ws[i]))
  }

  /**
   The frequency grid of a plot: np.logspace from lo to hi, abstracted to its
   endpoints and its strict increase.
   */
  predicate IsSweep(ws: seq<real>, lo: real, hi: real) {
    && |ws| >= 2
    && ws[0] == lo
    && ws[|ws| - 1] == hi
    && forall i, j :: 0 <= i < j < |ws| ==> ws[i] < ws[j]
  }

  /**
   The plotted grid of the RC and notch scripts: two decades either side of a
   characteristic frequency, center/100 .. 100·center.
   */
  function DecadeSweepStart(center: real): (lo: real)
    ensures lo < center <==> center > 0.0
  {
    center * 0.01
  }

  function DecadeSweepStop(center: real): (hi: real)
    ensures center < hi <==> center > 0.0
    ensures hi == DecadeSweepStart(center) * 10000.0
  {
    center * 100.0
  }

  /** Every point of a sweep lies between its endpoints. */
  lemma SweepBetween(ws: seq<real>, lo: real, hi: real, i: int)
    requires IsSweep(ws, lo, hi)
    requires 0 <= i < |ws|
    ensures lo <= ws[i] <= hi
  {
    if 0 < i {
      assert ws[0] < ws[i];
    }
    if i < |ws| - 1 {
      assert ws[i] < ws[|ws| - 1];
    }
  }
}
