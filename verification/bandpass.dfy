/**
 The series RLC band-pass filter with the output taken across R:
 H(s) = (R/L)·s / (s^2 + (R/L)·s + 1/(LC)), with resonance ω0 = 1/√(LC),
 closed-form cut-offs ωc1, ωc2, bandwidth BW = ωc2 - ωc1 and quality
 factor Q = ω0/BW.  Square roots are passed in as witnesses.
 */
module BandPass {
  import opened Reals
  import opened Complex
  import opened Polynomial
  import opened Transfer
  import opened Normalization

  /** num = [R/L, 0], den = [1, R/L, 1/(LC)]. */
  function TransferOf(r: real, l: real, c: real): (h: TransferFunction)
    requires l != 0.0 && c != 0.0
    ensures StrictlyProper(h) && h.den[0] == 1.0
    ensures |h.num| == 2 && |h.den| == 3
    ensures h.num[1] == 0.0 && h.den[1] == h.num[0]
    ensures h.den[2] * (l * c) == 1.0
  {
    TransferFunction([r / l, 0.0], [1.0, r / l, 1.0 / (l * c)])
  }

  /** ω0 = 1/√(LC), given the root sLC = √(LC). */
  function Resonance(l: real, c: real, sLC: real): (w0: real)
    requires sLC > 0.0 && Sq(sLC) == l * c
    ensures w0 > 0.0
    ensures Sq(w0) * (l * c) == 1.0
  {
    RecipPos(sLC);
    SqMul(1.0 / sLC, sLC);
    1.0 / sLC
  }

  /** 1 + 4L/(R^2·C), the quantity under the square root of the cut-off formula. */
  function Radicand(r: real, l: real, c: real): (x: real)
    requires r != 0.0 && c != 0.0
    ensures (x - 1.0) * (Sq(r) * c) == 4.0 * l
    ensures l > 0.0 && c > 0.0 ==> x > 1.0
  {
    SqPos(r);
    NonzeroProduct(Sq(r), c);
    DivMul(4.0 * l, Sq(r) * c);
    RadicandTermPositive(r, l, c);
    1.0 + 4.0 * l / (Sq(r) * c)
  }

  lemma RadicandTermPositive(r: real, l: real, c: real)
    requires r != 0.0 && Sq(r) * c != 0.0
    ensures l > 0.0 && c > 0.0 ==> 4.0 * l / (Sq(r) * c) > 0.0
  {
    if l > 0.0 && c > 0.0 {
      SqPos(r);
      MulPos(Sq(r), c);
      MulPos(4.0, l);
      DivPos(4.0 * l, Sq(r) * c);
    }
  }

  datatype Band = Band(wc1: real, wc2: real)

  /**
   ωc1,2 = (R/(2L))·(√(1 + 4L/(R^2·C)) ∓ 1), given the root s.  The band is
   R/L wide and its edges multiply to 1/(LC) = ω0^2.
   */
  function Cutoffs(r: real, l: real, c: real, s: real): (b: Band)
    requires r != 0.0 && l != 0.0 && c != 0.0
    requires s >= 0.0 && Sq(s) == Radicand(r, l, c)
    ensures b.wc2 - b.wc1 == r / l
    ensures b.wc1 * b.wc2 * (l * c) == 1.0
  {
    var k := r / (2.0 * l);
    CutoffAlgebra(r, l, c, s);
    Band(k * (s - 1.0), k * (s + 1.0))
  }

  /** The resonance, the band edges, the bandwidth and the quality factor. */
  datatype Characteristics = Characteristics(w0: real, wc1: real, wc2: real, bw: real, q: real)

  /** What the band-pass script computes: ω0, ωc1, ωc2, BW = ωc2 - ωc1 and Q = ω0/BW. */
  function Characterize(r: real, l: real, c: real, sLC: real, s: real): (ch: Characteristics)
    requires r != 0.0 && l != 0.0 && c != 0.0
    requires sLC > 0.0 && Sq(sLC) == l * c
    requires s >= 0.0 && Sq(s) == Radicand(r, l, c)
    ensures ch.bw == r / l
    ensures ch.wc1 * ch.wc2 == Sq(ch.w0)
    ensures Sq(ch.q) * Sq(r) * c == l
    ensures ch.q > 0.0 <==> r / l > 0.0
  {
    var w0 := Resonance(l, c, sLC);
    var band := Cutoffs(r, l, c, s);
    var bw := band.wc2 - band.wc1;
    QualityAlgebra(r, l, c, w0, bw);
    CancelFactor(band.wc1 * band.wc2, Sq(w0), l * c);
    Characteristics(w0, band.wc1, band.wc2, bw, w0 / bw)
  }

  /** D(jω) = (1/(LC) - ω^2) + j(R/L)ω and N(jω) = j(R/L)ω. */
  lemma AtFrequency(r: real, l: real, c: real, w: real)
    requires l != 0.0 && c != 0.0
    ensures Numerator(TransferOf(r, l, c), w) == Complex(0.0, r / l * w)
    ensures Denominator(TransferOf(r, l, c), w) == Complex(1.0 / (l * c) - Sq(w), r / l * w)
  {
    HornerLinear(r / l, 0.0, w);
    HornerQuadratic(1.0, r / l, 1.0 / (l * c), w);
  }

  /** For positive R, L and C the response exists at every frequency. */
  lemma DefinedEverywhere(r: real, l: real, c: real, w: real)
    requires r > 0.0 && l > 0.0 && c > 0.0
    ensures Defined(TransferOf(r, l, c), w)
  {
    AtFrequency(r, l, c, w);
    MulPos(l, c);
    RecipPos(l * c);
    if w == 0.0 {
      assert Sq(w) == 0.0;
    } else {
      NonzeroProduct(r / l, w);
    }
  }

  /** |H(jω)|^2 = ((R/L)ω)^2 / ((1/(LC) - ω^2)^2 + ((R/L)ω)^2). */
  lemma Mag2Closed(r: real, l: real, c: real, w: real)
    requires r > 0.0 && l > 0.0 && c > 0.0
    ensures Defined(TransferOf(r, l, c), w)
    ensures Sq(1.0 / (l * c) - Sq(w)) + Sq(r / l * w) > 0.0
    ensures Mag2(TransferOf(r, l, c), w)
      == Sq(r / l * w) / (Sq(1.0 / (l * c) - Sq(w)) + Sq(r / l * w))
  {
    DefinedEverywhere(r, l, c, w);
    AtFrequency(r, l, c, w);
    Mag2Ratio(TransferOf(r, l, c), w, Sq(r / l * w), Sq(1.0 / (l * c) - Sq(w)) + Sq(r / l * w));
  }

  /** The gain never exceeds 1, and reaches it exactly at ω^2 = 1/(LC). */
  lemma Mag2AtMostOne(r: real, l: real, c: real, w: real)
    requires r > 0.0 && l > 0.0 && c > 0.0
    ensures Defined(TransferOf(r, l, c), w)
    ensures Mag2(TransferOf(r, l, c), w) <= 1.0
    ensures Mag2(TransferOf(r, l, c), w) == 1.0 <==> Sq(w) * (l * c) == 1.0
  {
    var k := 1.0 / (l * c);
    MulPos(l, c);
    Mag2Closed(r, l, c, w);
    SqNonneg(k - Sq(w));
    SqZero(k - Sq(w));
    DefinedEverywhere(r, l, c, w);
    AtFrequency(r, l, c, w);
    Norm2Zero(Denominator(TransferOf(r, l, c), w));
    FractionAtMostOne(Sq(r / l * w), Sq(k - Sq(w)));
    assert Sq(w) == k <==> Sq(w) * (l * c) == 1.0 by {
      DivMul(1.0, l * c);
      if Sq(w) * (l * c) == 1.0 {
        CancelFactor(Sq(w), k, l * c);
      }
    }
  }

  /** Full transmission at resonance: the peak the normalisation divides by. */
  lemma PeakAtResonance(r: real, l: real, c: real, sLC: real)
    requires r > 0.0 && l > 0.0 && c > 0.0
    requires sLC > 0.0 && Sq(sLC) == l * c
    ensures Defined(TransferOf(r, l, c), Resonance(l, c, sLC))
    ensures Mag2(TransferOf(r, l, c), Resonance(l, c, sLC)) == 1.0
  {
    Mag2AtMostOne(r, l, c, Resonance(l, c, sLC));
  }

  /** Half the power passes at each band edge: the segment drawn between them is the -3 dB level. */
  lemma HalfPowerAtCutoffs(r: real, l: real, c: real, s: real)
    requires r > 0.0 && l > 0.0 && c > 0.0
    requires s >= 0.0 && Sq(s) == Radicand(r, l, c)
    ensures Defined(TransferOf(r, l, c), Cutoffs(r, l, c, s).wc1)
    ensures Defined(TransferOf(r, l, c), Cutoffs(r, l, c, s).wc2)
    ensures Mag2(TransferOf(r, l, c), Cutoffs(r, l, c, s).wc1) == 0.5
    ensures Mag2(TransferOf(r, l, c), Cutoffs(r, l, c, s).wc2) == 0.5
  {
    var band := Cutoffs(r, l, c, s);
    CutoffAlgebra(r, l, c, s);
    CutoffsPositive(r, l, c, s);
    HalfPowerAt(r, l, c, band.wc1);
    assert Sq(1.0 / (l * c) - Sq(band.wc2)) == Sq(r / l * band.wc2) by {
      var x := r / l * band.wc2;
      assert 1.0 / (l * c) - Sq(band.wc2) == -x;
      SqNeg(x);
    }
    HalfPowerAt(r, l, c, band.wc2);
  }

  /** At a positive ω where |1/(LC) - ω^2| = (R/L)ω, the power is halved. */
  lemma HalfPowerAt(r: real, l: real, c: real, w: real)
    requires r > 0.0 && l > 0.0 && c > 0.0 && w > 0.0
    requires Sq(1.0 / (l * c) - Sq(w)) == Sq(r / l * w)
    ensures Defined(TransferOf(r, l, c), w)
    ensures Mag2(TransferOf(r, l, c), w) == 0.5
  {
    Mag2Closed(r, l, c, w);
    MulPos(r / l, w);
    SqPos(r / l * w);
    SumOfQuotients(Sq(r / l * w), Sq(r / l * w), Sq(r / l * w) + Sq(r / l * w));
  }

  /** Both band edges are positive, and they straddle the resonance: 0 < ωc1 < ω0 < ωc2. */
  lemma Ordering(r: real, l: real, c: real, sLC: real, s: real)
    requires r > 0.0 && l > 0.0 && c > 0.0
    requires sLC > 0.0 && Sq(sLC) == l * c
    requires s >= 0.0 && Sq(s) == Radicand(r, l, c)
    ensures 0.0 < Cutoffs(r, l, c, s).wc1 < Resonance(l, c, sLC) < Cutoffs(r, l, c, s).wc2
  {
    var ch := Characterize(r, l, c, sLC, s);
    CutoffsPositive(r, l, c, s);
    assert ch.wc1 == Cutoffs(r, l, c, s).wc1 && ch.wc2 == Cutoffs(r, l, c, s).wc2;
    assert ch.w0 == Resonance(l, c, sLC);
    GeometricMeanBetween(ch.wc1, ch.wc2, ch.w0);
  }

  /** The lower band edge is positive. */
  lemma CutoffsPositive(r: real, l: real, c: real, s: real)
    requires r > 0.0 && l > 0.0 && c > 0.0
    requires s >= 0.0 && Sq(s) == Radicand(r, l, c)
    ensures Cutoffs(r, l, c, s).wc1 > 0.0
    ensures Cutoffs(r, l, c, s).wc2 - Cutoffs(r, l, c, s).wc1 > 0.0
  {
    SqPos(r);
    MulPos(Sq(r), c);
    MulPos(4.0, l);
    assert 4.0 * l / (Sq(r) * c) > 0.0;
    SqLess(1.0, s);
    MulPos(r / (2.0 * l), s - 1.0);
  }

  /**
   The closed forms in R, L and C, restated with b = R/L and k = 1/(LC):
   ωc1 and ωc2 are the positive roots of ω^2 + bω - k and ω^2 - bω - k.
   */
  lemma CutoffAlgebra(r: real, l: real, c: real, s: real)
    requires r != 0.0 && l != 0.0 && c != 0.0
    requires s >= 0.0 && Sq(s) == Radicand(r, l, c)
    ensures var k := r / (2.0 * l); var w1 := k * (s - 1.0); var w2 := k * (s + 1.0);
      && w2 - w1 == r / l
      && w1 * w2 * (l * c) == 1.0
      && 1.0 / (l * c) - Sq(w1) == r / l * w1
      && 1.0 / (l * c) - Sq(w2) == -(r / l * w2)
  {
    var b := r / l;
    var k := 1.0 / (l * c);
    RadicandOverBandwidth(r, l, c);
    RootsOfQuadratic(b, k, s);
    assert r / (2.0 * l) == b / 2.0;
    DivMul(1.0, l * c);
  }

  /** In terms of b = R/L and k = 1/(LC) the radicand x satisfies (x - 1)·b^2 = 4k. */
  lemma RadicandOverBandwidth(r: real, l: real, c: real)
    requires r != 0.0 && l != 0.0 && c != 0.0
    ensures r / l != 0.0
    ensures (Radicand(r, l, c) - 1.0) * Sq(r / l) == 4.0 * (1.0 / (l * c))
  {
    var b := r / l;
    var k := 1.0 / (l * c);
    var t := Radicand(r, l, c) - 1.0;
    NonzeroProduct(l, c);
    DivMul(r, l);
    DivMul(1.0, l * c);
    NonzeroQuotient(r, l);
    SqMul(b, l);
    var m := Sq(l) * c;
    SqPos(l);
    NonzeroProduct(Sq(l), c);
    assert t * Sq(b) * m == 4.0 * l by {
      assert t * Sq(b) * m == t * (Sq(r) * c);
    }
    assert 4.0 * k * m == 4.0 * l by {
      assert 4.0 * k * m == 4.0 * l * (k * (l * c));
    }
    CancelFactor(t * Sq(b), 4.0 * k, m);
  }

  /** With (s^2 - 1)·b^2 = 4k, the numbers (b/2)(s ∓ 1) solve ω^2 ± bω - k = 0. */
  lemma RootsOfQuadratic(b: real, k: real, s: real)
    requires (Sq(s) - 1.0) * Sq(b) == 4.0 * k
    ensures var w1 := b / 2.0 * (s - 1.0); var w2 := b / 2.0 * (s + 1.0);
      && w2 - w1 == b
      && w1 * w2 == k
      && k - Sq(w1) == b * w1
      && k - Sq(w2) == -(b * w2)
  {
    var w1 := b / 2.0 * (s - 1.0);
    var w2 := b / 2.0 * (s + 1.0);
    assert w1 * w2 == Sq(b) * (Sq(s) - 1.0) / 4.0;
    assert Sq(w1) + b * w1 == Sq(b) * (Sq(s) - 1.0) / 4.0;
    assert Sq(w2) - b * w2 == Sq(b) * (Sq(s) - 1.0) / 4.0;
  }

  /** Q = ω0/BW satisfies Q^2·R^2·C = L, and Q > 0 exactly when BW > 0. */
  lemma QualityAlgebra(r: real, l: real, c: real, w0: real, bw: real)
    requires r != 0.0 && l != 0.0
    requires w0 > 0.0 && Sq(w0) * (l * c) == 1.0
    requires bw == r / l
    ensures bw != 0.0
    ensures Sq(w0 / bw) * Sq(r) * c == l
    ensures w0 / bw > 0.0 <==> bw > 0.0
  {
    NonzeroQuotient(r, l);
    var q := w0 / bw;
    DivMul(w0, bw);
    DivMul(r, l);
    SqMul(q, bw);
    SqMul(bw, l);
    assert Sq(q) * Sq(bw) == Sq(w0);
    assert Sq(bw) * Sq(l) == Sq(r);
    assert Sq(q) * Sq(r) * c * l == Sq(q) * Sq(bw) * (Sq(l) * c * l);
    assert Sq(q) * Sq(r) * c * l == l * l by {
      assert Sq(q) * Sq(bw) * (Sq(l) * c * l) == Sq(w0) * (l * c) * Sq(l);
    }
    CancelFactor(Sq(q) * Sq(r) * c, l, l);
    QuotientSign(w0, bw);
  }

  /** The plotted grid starts at max(1e-2, 1e-3·ω0) and stops at 1e3·ω0. */
  function SweepStart(w0: real): (lo: real)
    ensures lo >= 0.01 && lo >= w0 * 0.001
    ensures lo == 0.01 || lo == w0 * 0.001
  {
    if 0.01 >= w0 * 0.001 then 0.01 else w0 * 0.001
  }

  function SweepStop(w0: real): (hi: real)
    ensures w0 < hi <==> w0 > 0.0
    ensures w0 >= 0.01 ==> hi >= SweepStart(w0) * 1000.0
  {
    w0 * 1000.0
  }

  /**
   The grid starts away from 0; it is a proper range exactly when
   ω0 > 1e-5, and it contains ω0 exactly when ω0 >= 1e-2.
   */
  lemma SweepBounds(w0: real)
    requires w0 > 0.0
    ensures SweepStart(w0) >= 0.01
    ensures SweepStart(w0) < SweepStop(w0) <==> w0 > 0.00001
    ensures SweepStart(w0) <= w0 <= SweepStop(w0) <==> w0 >= 0.01
  {
  }

  /**
   The samples of a grid of positive frequencies normalise into [0, 1] with
   some sample exactly 1; the largest raw sample is the true peak gain 1
   exactly when ω0 is a grid point.
   */
  lemma SweepNormalization(r: real, l: real, c: real, sLC: real, ws: seq<real>)
    requires r > 0.0 && l > 0.0 && c > 0.0
    requires sLC > 0.0 && Sq(sLC) == l * c
    requires |ws| > 0 && forall i :: 0 <= i < |ws| ==> ws[i] > 0.0
    ensures forall i :: 0 <= i < |ws| ==> Defined(TransferOf(r, l, c), ws[i])
    ensures SeqMax(Mag2Samples(TransferOf(r, l, c), ws)) > 0.0
    ensures forall i :: 0 <= i < |ws| ==> 0.0 <= Normalize(Mag2Samples(TransferOf(r, l, c), ws))[i] <= 1.0
    ensures exists i :: 0 <= i < |ws| && Normalize(Mag2Samples(TransferOf(r, l, c), ws))[i] == 1.0
    ensures SeqMax(Mag2Samples(TransferOf(r, l, c), ws)) == 1.0 <==> Resonance(l, c, sLC) in ws
  {
    var h := TransferOf(r, l, c);
    forall i | 0 <= i < |ws|
      ensures Defined(h, ws[i])
    {
      DefinedEverywhere(r, l, c, ws[i]);
    }
    var ms := Mag2Samples(h, ws);
    Mag2Positive(r, l, c, ws[0]);
    assert ms[0] > 0.0;
    NormalizedRange(ms);
    PeakIffResonance(r, l, c, sLC, ws);
  }

  /** Every positive frequency passes some power. */
  lemma Mag2Positive(r: real, l: real, c: real, w: real)
    requires r > 0.0 && l > 0.0 && c > 0.0 && w > 0.0
    ensures Defined(TransferOf(r, l, c), w)
    ensures Mag2(TransferOf(r, l, c), w) > 0.0
  {
    Mag2Closed(r, l, c, w);
    MulPos(r / l, w);
    SqPos(r / l * w);
    SqNonneg(1.0 / (l * c) - Sq(w));
    DivPos(Sq(r / l * w), Sq(1.0 / (l * c) - Sq(w)) + Sq(r / l * w));
  }

  lemma PeakIffResonance(r: real, l: real, c: real, sLC: real, ws: seq<real>)
    requires r > 0.0 && l > 0.0 && c > 0.0
    requires sLC > 0.0 && Sq(sLC) == l * c
    requires |ws| > 0 && forall i :: 0 <= i < |ws| ==> ws[i] > 0.0
    requires forall i :: 0 <= i < |ws| ==> Defined(TransferOf(r, l, c), ws[i])
    ensures SeqMax(Mag2Samples(TransferOf(r, l, c), ws)) == 1.0 <==> Resonance(l, c, sLC) in ws
  {
    var h := TransferOf(r, l, c);
    var ms := Mag2Samples(h, ws);
    var w0 := Resonance(l, c, sLC);
    forall i | 0 <= i < |ws|
      ensures ms[i] == 1.0 <==> ws[i] == w0
    {
      Mag2AtMostOne(r, l, c, ws[i]);
      UnitGainAt(l, c, sLC, ws[i]);
    }
    if w0 in ws {
      var i :| 0 <= i < |ws| && ws[i] == w0;
      assert ms[i] == 1.0;
      Mag2AtMostOneAll(r, l, c, ws);
      MaxAttained(ms, i);
    } else {
      assert forall i :: 0 <= i < |ws| ==> ms[i] != 1.0;
    }
  }

  lemma Mag2AtMostOneAll(r: real, l: real, c: real, ws: seq<real>)
    requires r > 0.0 && l > 0.0 && c > 0.0
    requires forall i :: 0 <= i < |ws| ==> Defined(TransferOf(r, l, c), ws[i])
    ensures forall i :: 0 <= i < |ws| ==> Mag2Samples(TransferOf(r, l, c), ws)[i] <= 1.0
  {
    forall i | 0 <= i < |ws|
      ensures Mag2Samples(TransferOf(r, l, c), ws)[i] <= 1.0
    {
      Mag2AtMostOne(r, l, c, ws[i]);
    }
  }

  /** For ω > 0, ω^2·LC = 1 exactly at ω = ω0. */
  lemma UnitGainAt(l: real, c: real, sLC: real, w: real)
    requires sLC > 0.0 && Sq(sLC) == l * c && w > 0.0
    ensures Sq(w) * (l * c) == 1.0 <==> w == Resonance(l, c, sLC)
  {
    var w0 := Resonance(l, c, sLC);
    SqPos(sLC);
    if Sq(w) * (l * c) == 1.0 {
      CancelFactor(Sq(w), Sq(w0), l * c);
      SqInjective(w, w0);
    }
  }

  /** Below the resonance the gain rises strictly towards the peak. */
  lemma Mag2IncreasingBelow(r: real, l: real, c: real, sLC: real, x: real, y: real)
    requires r > 0.0 && l > 0.0 && c > 0.0
    requires sLC > 0.0 && Sq(sLC) == l * c
    requires 0.0 <= x < y <= Resonance(l, c, sLC)
    ensures Defined(TransferOf(r, l, c), x) && Defined(TransferOf(r, l, c), y)
    ensures Mag2(TransferOf(r, l, c), x) < Mag2(TransferOf(r, l, c), y)
  {
    var w0 := Resonance(l, c, sLC);
    SquaredResonance(l, c, sLC);
    DivPos(r, l);
    var mx, dx := Sq(r / l * x), Sq(Sq(w0) - Sq(x));
    var my, dy := Sq(r / l * y), Sq(Sq(w0) - Sq(y));
    Mag2Closed(r, l, c, x);
    Mag2Closed(r, l, c, y);
    SqNonneg(r / l * x);
    SqNonneg(r / l * y);
    SqNonneg(Sq(w0) - Sq(x));
    SqNonneg(Sq(w0) - Sq(y));
    assert dx == Sq(1.0 / (l * c) - Sq(x)) && dy == Sq(1.0 / (l * c) - Sq(y));
    CrossBelow(w0, r / l, x, y);
    assert mx * dy < my * dx;
    RatioOrder(my, dy, mx, dx);
  }

  /** Above the resonance the gain falls strictly away from the peak. */
  lemma Mag2DecreasingAbove(r: real, l: real, c: real, sLC: real, x: real, y: real)
    requires r > 0.0 && l > 0.0 && c > 0.0
    requires sLC > 0.0 && Sq(sLC) == l * c
    requires Resonance(l, c, sLC) <= x < y
    ensures Defined(TransferOf(r, l, c), x) && Defined(TransferOf(r, l, c), y)
    ensures Mag2(TransferOf(r, l, c), y) < Mag2(TransferOf(r, l, c), x)
  {
    var w0 := Resonance(l, c, sLC);
    SquaredResonance(l, c, sLC);
    DivPos(r, l);
    var mx, dx := Sq(r / l * x), Sq(Sq(w0) - Sq(x));
    var my, dy := Sq(r / l * y), Sq(Sq(w0) - Sq(y));
    Mag2Closed(r, l, c, x);
    Mag2Closed(r, l, c, y);
    SqNonneg(r / l * x);
    SqNonneg(r / l * y);
    SqNonneg(Sq(w0) - Sq(x));
    SqNonneg(Sq(w0) - Sq(y));
    assert dx == Sq(1.0 / (l * c) - Sq(x)) && dy == Sq(1.0 / (l * c) - Sq(y));
    CrossAbove(w0, r / l, x, y);
    assert my * dx < mx * dy;
    RatioOrder(mx, dx, my, dy);
  }

  /** ω0^2 is the constant coefficient 1/(LC) of the denominator. */
  lemma SquaredResonance(l: real, c: real, sLC: real)
    requires sLC > 0.0 && Sq(sLC) == l * c
    ensures Sq(Resonance(l, c, sLC)) == 1.0 / (l * c)
  {
    SqPos(sLC);
    QuotientUnique(Sq(Resonance(l, c, sLC)), 1.0, l * c);
  }

  /**
   The cross-multiplied comparison behind the shape of both RLC gains below
   the resonance, with a the s-coefficient R/L = ω0/Q.
   */
  lemma CrossBelow(w0: real, a: real, x: real, y: real)
    requires w0 > 0.0 && a > 0.0
    requires 0.0 <= x < y <= w0
    ensures Sq(Sq(w0) - Sq(y)) * Sq(a * x) < Sq(Sq(w0) - Sq(x)) * Sq(a * y)
  {
    var nx, ny := Sq(w0) - Sq(x), Sq(w0) - Sq(y);
    SqLess(x, y);
    assert ny >= 0.0 by {
      if y < w0 {
        SqLess(y, w0);
      }
    }
    SqLess(ny, nx);
    MulPos(a, y);
    MulNonneg(a, x);
    MulPos(a, y - x);
    SqLess(a * x, a * y);
    SqPos(a * y);
    SqNonneg(a * x);
    SqNonneg(ny);
    CrossLess(Sq(nx), Sq(a * x), Sq(ny), Sq(a * y));
  }

  /** The same comparison above the resonance. */
  lemma CrossAbove(w0: real, a: real, x: real, y: real)
    requires w0 > 0.0 && a > 0.0 && w0 <= x < y
    ensures Sq(Sq(w0) - Sq(x)) * Sq(a * y) < Sq(Sq(w0) - Sq(y)) * Sq(a * x)
  {
    var nx, ny := Sq(x) - Sq(w0), Sq(y) - Sq(w0);
    SqNeg(nx);
    SqNeg(ny);
    assert Sq(Sq(w0) - Sq(x)) == Sq(nx) && Sq(Sq(w0) - Sq(y)) == Sq(ny) by {
      assert Sq(w0) - Sq(x) == -nx && Sq(w0) - Sq(y) == -ny;
    }
    SqLess(w0, x);
    SqLess(x, y);
    ProductPos(y - x, x * y + Sq(w0));
    assert ny * x - nx * y == Product(y - x, x * y + Sq(w0));
    MulPos(a, ny * x - nx * y);
    assert nx * (a * y) < ny * (a * x);
    MulNonneg(nx, a * y);
    SqLess(nx * (a * y), ny * (a * x));
    SqMul(nx, a * y);
    SqMul(ny, a * x);
  }
}
