/**
 The first-order RC low-pass filter: H(s) = 1 / (RC·s + 1), cut-off
 ωc = 1/(RC), swept over two decades either side of ωc.
 */
module LowPass {
  import opened Reals
  import opened Complex
  import opened Polynomial
  import opened Transfer
  import opened Normalization

  /** num = [1], den = [RC, 1]. */
  function TransferOf(r: real, c: real): (h: TransferFunction)
    ensures StrictlyProper(h) <==> r * c != 0.0
  {
    TransferFunction([1.0], [r * c, 1.0])
  }

  /** ωc = 1/(RC), the frequency at which ω·RC reaches 1. */
  function Cutoff(r: real, c: real): (wc: real)
    requires r * c != 0.0
    ensures wc * (r * c) == 1.0
  {
    1.0 / (r * c)
  }

  /** D(jω) = 1 + jωRC, which never vanishes: the response exists at every ω. */
  lemma DenominatorNeverZero(r: real, c: real, w: real)
    ensures Denominator(TransferOf(r, c), w) == Complex(1.0, r * c * w)
    ensures Defined(TransferOf(r, c), w)
  {
    HornerLinear(r * c, 1.0, w);
  }

  /** |H(jω)|^2 = 1 / (1 + (ωRC)^2). */
  lemma Mag2Closed(r: real, c: real, w: real)
    ensures Defined(TransferOf(r, c), w)
    ensures Mag2(TransferOf(r, c), w) == 1.0 / (1.0 + Sq(r * c * w))
  {
    var h := TransferOf(r, c);
    DenominatorNeverZero(r, c, w);
    HornerConstant(1.0, w);
    assert Numerator(h, w) == One;
    Mag2Ratio(h, w, 1.0, 1.0 + Sq(r * c * w));
  }

  /** Unity gain at DC. */
  lemma DcGain(r: real, c: real)
    ensures Defined(TransferOf(r, c), 0.0)
    ensures Mag2(TransferOf(r, c), 0.0) == 1.0
  {
    Mag2AtMostOne(r, c, 0.0);
  }

  /** At ωc the power is halved: the line drawn at ωc marks the -3 dB point. */
  lemma HalfPowerAtCutoff(r: real, c: real)
    requires r * c != 0.0
    ensures Defined(TransferOf(r, c), Cutoff(r, c))
    ensures Mag2(TransferOf(r, c), Cutoff(r, c)) == 0.5
  {
    var wc := Cutoff(r, c);
    Mag2Closed(r, c, wc);
    assert r * c * wc == 1.0;
  }

  /** The gain never exceeds the DC gain, and reaches it only where ωRC = 0. */
  lemma Mag2AtMostOne(r: real, c: real, w: real)
    ensures Defined(TransferOf(r, c), w)
    ensures Mag2(TransferOf(r, c), w) <= 1.0
    ensures Mag2(TransferOf(r, c), w) == 1.0 <==> r * c * w == 0.0
  {
    Mag2Closed(r, c, w);
    SqZero(r * c * w);
    SqNonneg(r * c * w);
    if r * c * w != 0.0 {
      RecipLess(1.0, 1.0 + Sq(r * c * w));
    }
  }

  /** For RC > 0 the gain falls strictly as the frequency rises. */
  lemma Mag2Decreasing(r: real, c: real, x: real, y: real)
    requires r * c > 0.0
    requires 0.0 <= x < y
    ensures Defined(TransferOf(r, c), x) && Defined(TransferOf(r, c), y)
    ensures Mag2(TransferOf(r, c), y) < Mag2(TransferOf(r, c), x)
  {
    Mag2Closed(r, c, x);
    Mag2Closed(r, c, y);
    MulPos(r * c, y - x);
    assert 0.0 <= r * c * x;
    SqLess(r * c * x, r * c * y);
    SqNonneg(r * c * x);
    RecipLess(1.0 + Sq(r * c * x), 1.0 + Sq(r * c * y));
  }

  /** The cut-off lies strictly inside the plotted range. */
  lemma CutoffInsideSweep(r: real, c: real)
    requires r * c > 0.0
    ensures Cutoff(r, c) > 0.0
    ensures DecadeSweepStart(Cutoff(r, c)) < Cutoff(r, c) < DecadeSweepStop(Cutoff(r, c))
  {
    var wc := Cutoff(r, c);
    assert wc * (r * c) == 1.0;
  }

  /**
   Over the plotted grid the largest sample is the first one, and after
   division by it the samples lie in [0, 1] with the first exactly 1.
   */
  lemma SweepNormalization(r: real, c: real, ws: seq<real>)
    requires r * c > 0.0
    requires IsSweep(ws, DecadeSweepStart(Cutoff(r, c)), DecadeSweepStop(Cutoff(r, c)))
    ensures forall i :: 0 <= i < |ws| ==> Defined(TransferOf(r, c), ws[i])
    ensures SeqMax(Mag2Samples(TransferOf(r, c), ws)) == Mag2(TransferOf(r, c), ws[0]) > 0.0
    ensures forall i :: 0 <= i < |ws| ==> 0.0 <= Normalize(Mag2Samples(TransferOf(r, c), ws))[i] <= 1.0
    ensures Normalize(Mag2Samples(TransferOf(r, c), ws))[0] == 1.0
  {
    var h := TransferOf(r, c);
    var lo, hi := DecadeSweepStart(Cutoff(r, c)), DecadeSweepStop(Cutoff(r, c));
    CutoffInsideSweep(r, c);
    SamplesDecreasing(r, c, ws, lo, hi);
    var ms := Mag2Samples(h, ws);
    MaxOfNonIncreasing(ms);
    Mag2Closed(r, c, ws[0]);
    SqNonneg(r * c * ws[0]);
    RecipPos(1.0 + Sq(r * c * ws[0]));
    NormalizedRange(ms);
  }

  lemma SamplesDecreasing(r: real, c: real, ws: seq<real>, lo: real, hi: real)
    requires r * c > 0.0 && lo >= 0.0
    requires IsSweep(ws, lo, hi)
    ensures forall i :: 0 <= i < |ws| ==> Defined(TransferOf(r, c), ws[i])
    ensures forall i, j :: 0 <= i < j < |ws| ==>
      Mag2Samples(TransferOf(r, c), ws)[j] <= Mag2Samples(TransferOf(r, c), ws)[i]
  {
    var h := TransferOf(r, c);
    forall i | 0 <= i < |ws|
      ensures Defined(h, ws[i])
    {
      DenominatorNeverZero(r, c, ws[i]);
    }
    var ms := Mag2Samples(h, ws);
    forall i, j | 0 <= i < j < |ws|
      ensures ms[j] <= ms[i]
    {
      SweepBetween(ws, lo, hi, i);
      Mag2Decreasing(r, c, ws[i], ws[j]);
    }
  }
}
