/**
 The first-order RC high-pass filter: H(s) = RC·s / (RC·s + 1), evaluated
 point by point as scipy's freqs does, cut-off ωc = 1/(RC).
 */
module HighPass {
  import opened Reals
  import opened Complex
  import opened Polynomial
  import opened Transfer
  import opened Normalization
  import LowPass

  /** num = [RC, 0], den = [RC, 1]. */
  function TransferOf(r: real, c: real): (h: TransferFunction)
    ensures h.den == LowPass.TransferOf(r, c).den
    ensures |h.num| == |h.den|
    ensures h.num == [r * c, 0.0]
  {
    TransferFunction([r * c, 0.0], [r * c, 1.0])
  }

  /** ωc = 1/(RC), shared with the low-pass filter of the same R and C. */
  function Cutoff(r: real, c: real): (wc: real)
    requires r * c != 0.0
    ensures wc == LowPass.Cutoff(r, c)
    ensures wc * (r * c) == 1.0
  {
    1.0 / (r * c)
  }

  /** N(jω) = jωRC and D(jω) = 1 + jωRC; the denominator never vanishes. */
  lemma PolesAndZeros(r: real, c: real, w: real)
    ensures Numerator(TransferOf(r, c), w) == Complex(0.0, r * c * w)
    ensures Denominator(TransferOf(r, c), w) == Complex(1.0, r * c * w)
    ensures Defined(TransferOf(r, c), w)
  {
    HornerLinear(r * c, 0.0, w);
    HornerLinear(r * c, 1.0, w);
  }

  /**
   The value freqs returns: jx / (1 + jx) = (x^2 + jx) / (1 + x^2) with
   x = ωRC.
   */
  lemma ResponseClosed(r: real, c: real, w: real)
    ensures Defined(TransferOf(r, c), w)
    ensures var x := r * c * w;
      Response(TransferOf(r, c), w) == Complex(Sq(x) / (1.0 + Sq(x)), x / (1.0 + Sq(x)))
  {
    var x := r * c * w;
    PolesAndZeros(r, c, w);
    SqNonneg(x);
    var d := 1.0 + Sq(x);
    var z := Complex(Sq(x) / d, x / d);
    DivMul(Sq(x), d);
    DivMul(x, d);
    assert Mul(z, Complex(1.0, x)) == Complex(0.0, x) by {
      ResponseParts(x, d);
    }
    DivUnique(z, Complex(0.0, x), Complex(1.0, x));
  }

  lemma ResponseParts(x: real, d: real)
    requires d == 1.0 + Sq(x)
    ensures Sq(x) / d - x / d * x == 0.0
    ensures Sq(x) / d * x + x / d == x
  {
    SqNonneg(x);
    DivMul(Sq(x), d);
    DivMul(x, d);
    CancelFactor(Sq(x) / d - x / d * x, 0.0, d);
    CancelFactor(Sq(x) / d * x + x / d, x, d);
  }

  /** |H(jω)|^2 = (ωRC)^2 / (1 + (ωRC)^2). */
  lemma Mag2Closed(r: real, c: real, w: real)
    ensures Defined(TransferOf(r, c), w)
    ensures Mag2(TransferOf(r, c), w) == Sq(r * c * w) / (1.0 + Sq(r * c * w))
  {
    PolesAndZeros(r, c, w);
    Mag2Ratio(TransferOf(r, c), w, Sq(r * c * w), 1.0 + Sq(r * c * w));
  }

  /** The high-pass and the low-pass of the same R and C split the power between them. */
  lemma Complementary(r: real, c: real, w: real)
    ensures Defined(TransferOf(r, c), w) && Defined(LowPass.TransferOf(r, c), w)
    ensures Mag2(TransferOf(r, c), w) + Mag2(LowPass.TransferOf(r, c), w) == 1.0
  {
    Mag2Closed(r, c, w);
    LowPass.Mag2Closed(r, c, w);
    SqNonneg(r * c * w);
    SumOfQuotients(Sq(r * c * w), 1.0, 1.0 + Sq(r * c * w));
  }

  /** DC is blocked. */
  lemma DcBlocked(r: real, c: real)
    ensures Defined(TransferOf(r, c), 0.0)
    ensures Mag2(TransferOf(r, c), 0.0) == 0.0
  {
    Complementary(r, c, 0.0);
    LowPass.DcGain(r, c);
  }

  /** At ωc the power is halved. */
  lemma HalfPowerAtCutoff(r: real, c: real)
    requires r * c != 0.0
    ensures Defined(TransferOf(r, c), Cutoff(r, c))
    ensures Mag2(TransferOf(r, c), Cutoff(r, c)) == 0.5
  {
    Complementary(r, c, Cutoff(r, c));
    LowPass.HalfPowerAtCutoff(r, c);
  }

  /** The gain stays below 1 at every frequency. */
  lemma Mag2BelowOne(r: real, c: real, w: real)
    ensures Defined(TransferOf(r, c), w)
    ensures Mag2(TransferOf(r, c), w) < 1.0
  {
    Complementary(r, c, w);
    LowPass.Mag2Closed(r, c, w);
    SqNonneg(r * c * w);
    RecipPos(1.0 + Sq(r * c * w));
  }

  /** For RC > 0 the gain rises strictly with frequency. */
  lemma Mag2Increasing(r: real, c: real, x: real, y: real)
    requires r * c > 0.0
    requires 0.0 <= x < y
    ensures Defined(TransferOf(r, c), x) && Defined(TransferOf(r, c), y)
    ensures Mag2(TransferOf(r, c), x) < Mag2(TransferOf(r, c), y)
  {
    Complementary(r, c, x);
    Complementary(r, c, y);
    LowPass.Mag2Decreasing(r, c, x, y);
  }

  /** Every positive frequency passes some power. */
  lemma Mag2Positive(r: real, c: real, w: real)
    requires r * c > 0.0 && w > 0.0
    ensures Defined(TransferOf(r, c), w)
    ensures Mag2(TransferOf(r, c), w) > 0.0
  {
    Mag2Increasing(r, c, 0.0, w);
    DcBlocked(r, c);
  }

  /** The plotted grid, ωc/100 to 100·ωc, contains ωc. */
  lemma CutoffInsideSweep(r: real, c: real)
    requires r * c > 0.0
    ensures Cutoff(r, c) > 0.0
    ensures DecadeSweepStart(Cutoff(r, c)) < Cutoff(r, c) < DecadeSweepStop(Cutoff(r, c))
  {
    LowPass.CutoffInsideSweep(r, c);
  }

  /**
   Over the plotted grid the largest sample is the last one; after division
   by it the samples lie in [0, 1] with the last exactly 1.
   */
  lemma SweepNormalization(r: real, c: real, ws: seq<real>)
    requires r * c > 0.0
    requires IsSweep(ws, DecadeSweepStart(Cutoff(r, c)), DecadeSweepStop(Cutoff(r, c)))
    ensures forall i :: 0 <= i < |ws| ==> Defined(TransferOf(r, c), ws[i])
    ensures SeqMax(Mag2Samples(TransferOf(r, c), ws)) == Mag2(TransferOf(r, c), ws[|ws| - 1]) > 0.0
    ensures forall i :: 0 <= i < |ws| ==> 0.0 <= Normalize(Mag2Samples(TransferOf(r, c), ws))[i] <= 1.0
    ensures Normalize(Mag2Samples(TransferOf(r, c), ws))[|ws| - 1] == 1.0
  {
    var h := TransferOf(r, c);
    var lo, hi := DecadeSweepStart(Cutoff(r, c)), DecadeSweepStop(Cutoff(r, c));
    CutoffInsideSweep(r, c);
    SamplesIncreasing(r, c, ws, lo, hi);
    var ms := Mag2Samples(h, ws);
    assert ws[|ws| - 1] == hi > 0.0;
    Mag2Positive(r, c, ws[|ws| - 1]);
    assert forall i :: 0 <= i < |ms| ==> ms[i] <= ms[|ms| - 1] by {
      forall i | 0 <= i < |ms| - 1
        ensures ms[i] <= ms[|ms| - 1]
      {
      }
    }
    NormalizedAtPeak(ms, |ms| - 1);
  }

  lemma SamplesIncreasing(r: real, c: real, ws: seq<real>, lo: real, hi: real)
    requires r * c > 0.0 && lo >= 0.0
    requires IsSweep(ws, lo, hi)
    ensures forall i :: 0 <= i < |ws| ==> Defined(TransferOf(r, c), ws[i])
    ensures forall i, j :: 0 <= i < j < |ws| ==>
      Mag2Samples(TransferOf(r, c), ws)[i] <= Mag2Samples(TransferOf(r, c), ws)[j]
  {
    var h := TransferOf(r, c);
    forall i | 0 <= i < |ws|
      ensures Defined(h, ws[i])
    {
      PolesAndZeros(r, c, ws[i]);
    }
    var ms := Mag2Samples(h, ws);
    forall i, j | 0 <= i < j < |ws|
      ensures ms[i] <= ms[j]
    {
      SweepBetween(ws, lo, hi, i);
      Mag2Increasing(r, c, ws[i], ws[j]);
    }
  }
}
