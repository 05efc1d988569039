/**
 The RLC notch filter designed from its quality factor: ω0 = 1/√(LC),
 Q = √(L/C)/R, the same H(s) = (s^2 + ω0^2) / (s^2 + (ω0/Q)·s + ω0^2),
 and cut-offs given by an approximate closed form
 ωc1,2 = ω0·(√(1 + 1/(2Q^2)) ∓ 1/(2Q)).
 That closed form is not the half-power pair; ExactCutoffs is, with
 1/(4Q^2) under the root instead of 1/(2Q^2).
 */
module NotchQuality {
  import opened Reals
  import opened Transfer
  import opened Normalization
  import BandPass
  import NotchBandwidth

  /** Q = √(L/C)/R, given the root sq = √(L/C). */
  function Quality(r: real, l: real, c: real, sq: real): (q: real)
    requires r != 0.0 && c != 0.0
    requires sq >= 0.0 && Sq(sq) == l / c
    ensures q * r == sq
    ensures Sq(q) * Sq(r) * c == l
    ensures l != 0.0 ==> (q > 0.0 <==> r > 0.0)
  {
    QualityFacts(r, l, c, sq);
    sq / r
  }

  lemma QualityFacts(r: real, l: real, c: real, sq: real)
    requires r != 0.0 && c != 0.0
    requires sq >= 0.0 && Sq(sq) == l / c
    ensures sq / r * r == sq
    ensures Sq(sq / r) * Sq(r) * c == l
    ensures l != 0.0 ==> (sq / r > 0.0 <==> r > 0.0)
  {
    var q := sq / r;
    DivMul(sq, r);
    DivMul(l, c);
    SqMul(q, r);
    assert Sq(q) * Sq(r) == Sq(sq);
    if l != 0.0 {
      NonzeroQuotient(l, c);
      assert sq != 0.0;
      QuotientSign(sq, r);
    }
  }

  /** The transfer function of the script: the bandwidth-designed notch shape with this Q. */
  function TransferOf(r: real, l: real, c: real, sLC: real, sq: real): (h: TransferFunction)
    requires r != 0.0 && c != 0.0
    requires sLC > 0.0 && Sq(sLC) == l * c
    requires sq >= 0.0 && Sq(sq) == l / c
    ensures |h.den| == 3
    ensures Sq(h.den[1]) * Sq(l) == Sq(r)
  {
    SqPos(sLC);
    DampingFromComponents(r, l, c, sLC, sq);
    NotchBandwidth.TransferOf(BandPass.Resonance(l, c, sLC), Quality(r, l, c, sq))
  }

  /** (ω0/Q)^2 = (R/L)^2: the denominator's s-coefficient is R/L up to sign. */
  lemma DampingFromComponents(r: real, l: real, c: real, sLC: real, sq: real)
    requires r != 0.0 && c != 0.0 && l * c > 0.0
    requires sLC > 0.0 && Sq(sLC) == l * c
    requires sq >= 0.0 && Sq(sq) == l / c
    ensures Quality(r, l, c, sq) != 0.0
    ensures var a := NotchBandwidth.Damping(BandPass.Resonance(l, c, sLC), Quality(r, l, c, sq));
      Sq(a) * Sq(l) == Sq(r)
  {
    var w0 := BandPass.Resonance(l, c, sLC);
    var q := Quality(r, l, c, sq);
    assert l != 0.0;
    assert q != 0.0;
    var a := NotchBandwidth.Damping(w0, q);
    SqMul(a, q);
    assert Sq(a) * Sq(q) == Sq(w0);
    assert Sq(a) * l == Sq(w0) * Sq(r) * c by {
      assert Sq(a) * (Sq(q) * Sq(r) * c) == Sq(w0) * Sq(r) * c;
    }
    assert Sq(a) * l * l == Sq(r) by {
      assert Sq(w0) * Sq(r) * c * l == Sq(r) * (Sq(w0) * (l * c));
    }
  }

  /**
   For positive R, L and C both scripts build the same filter: the same Q,
   the same transfer function, and ω0/Q = R/L.
   */
  lemma SameFilterAsBandwidthDesign(r: real, l: real, c: real, sLC: real, sq: real)
    requires r > 0.0 && l > 0.0 && c > 0.0
    requires sLC > 0.0 && Sq(sLC) == l * c
    requires sq >= 0.0 && Sq(sq) == l / c
    ensures var p := NotchBandwidth.Design(r, l, c, sLC);
      && Quality(r, l, c, sq) == p.q
      && TransferOf(r, l, c, sLC, sq) == NotchBandwidth.TransferOf(p.w0, p.q)
    ensures NotchBandwidth.Damping(BandPass.Resonance(l, c, sLC), Quality(r, l, c, sq)) * l == r
  {
    var p := NotchBandwidth.Design(r, l, c, sLC);
    assert p.w0 == BandPass.Resonance(l, c, sLC);
    var q := Quality(r, l, c, sq);
    BandPass.QualityAlgebra(r, l, c, p.w0, r / l);
    assert p.q == p.w0 / (r / l);
    DivPos(r, l);
    SqPos(r);
    MulPos(Sq(r), c);
    CancelFactor(Sq(q), Sq(p.q), Sq(r) * c);
    SqInjective(q, p.q);
  }

  /** 1/(2Q), the half-width of the band in units of ω0. */
  function HalfInverse(q: real): (p: real)
    requires q != 0.0
    ensures p * (2.0 * q) == 1.0
    ensures q > 0.0 ==> p > 0.0
  {
    DivMul(1.0, 2.0 * q);
    QuotientFacts(1.0, 2.0 * q);
    1.0 / (2.0 * q)
  }

  /** The script's radicand 1 + 1/(2Q^2), which is 1 + 2·(1/(2Q))^2. */
  function ApproxRadicand(q: real): (x: real)
    requires q != 0.0
    ensures x == 1.0 + 2.0 * Sq(HalfInverse(q))
  {
    SqPos(q);
    ApproxRadicandAlgebra(q);
    1.0 + 1.0 / (2.0 * Sq(q))
  }

  lemma ApproxRadicandAlgebra(q: real)
    requires q != 0.0
    ensures Sq(q) > 0.0
    ensures 1.0 / (2.0 * Sq(q)) == 2.0 * Sq(HalfInverse(q))
  {
    var p := HalfInverse(q);
    SqPos(q);
    SqMul(p, 2.0 * q);
    SqMul(2.0, q);
    assert Sq(p) * (4.0 * Sq(q)) == 1.0;
    assert 2.0 * Sq(p) * (2.0 * Sq(q)) == 1.0;
    QuotientUnique(2.0 * Sq(p), 1.0, 2.0 * Sq(q));
  }

  /**
   The approximate cut-offs, given the root t = √(1 + 1/(2Q^2)): the band
   is ω0/Q wide, but its edges multiply to ω0^2·(1 + 1/(4Q^2)), not ω0^2.
   */
  function ApproxCutoffs(w0: real, q: real, t: real): (b: BandPass.Band)
    requires q != 0.0
    requires t >= 0.0 && Sq(t) == ApproxRadicand(q)
    ensures b.wc2 - b.wc1 == NotchBandwidth.Damping(w0, q)
    ensures b.wc1 * b.wc2 == Sq(w0) * (1.0 + Sq(HalfInverse(q)))
  {
    var p := HalfInverse(q);
    EdgeAlgebra(w0, q, t, p);
    BandPass.Band(w0 * (t - p), w0 * (t + p))
  }

  /** The width and product of the band ω0·(t ∓ p), p = 1/(2Q). */
  lemma EdgeAlgebra(w0: real, q: real, t: real, p: real)
    requires q != 0.0 && p * (2.0 * q) == 1.0
    ensures w0 * (t + p) - w0 * (t - p) == NotchBandwidth.Damping(w0, q)
    ensures w0 * (t - p) * (w0 * (t + p)) == Sq(w0) * (Sq(t) - Sq(p))
  {
    var a := NotchBandwidth.Damping(w0, q);
    assert 2.0 * w0 * p * q == w0;
    CancelFactor(2.0 * w0 * p, a, q);
  }

  /** For positive R, L and C the approximate band is R/L wide, as the exact one is. */
  lemma ApproxWidth(r: real, l: real, c: real, sLC: real, sq: real, t: real)
    requires r > 0.0 && l > 0.0 && c > 0.0
    requires sLC > 0.0 && Sq(sLC) == l * c
    requires sq >= 0.0 && Sq(sq) == l / c
    requires t >= 0.0 && Sq(t) == ApproxRadicand(Quality(r, l, c, sq))
    ensures var b := ApproxCutoffs(BandPass.Resonance(l, c, sLC), Quality(r, l, c, sq), t);
      (b.wc2 - b.wc1) * l == r
  {
    SameFilterAsBandwidthDesign(r, l, c, sLC, sq);
  }

  /**
   Both approximate edges are positive and the upper one lies above ω0; the
   lower one lies below ω0 only when Q > 1/4.
   */
  lemma ApproxOrdering(w0: real, q: real, t: real)
    requires w0 > 0.0 && q > 0.0
    requires t >= 0.0 && Sq(t) == ApproxRadicand(q)
    ensures 0.0 < ApproxCutoffs(w0, q, t).wc1
    ensures w0 < ApproxCutoffs(w0, q, t).wc2
    ensures ApproxCutoffs(w0, q, t).wc1 < w0 <==> 4.0 * q > 1.0
  {
    var p := HalfInverse(q);
    var b := ApproxCutoffs(w0, q, t);
    ApproxEdges(w0, q, t);
    EdgesAroundOne(p, t);
    LowerEdgeBelowOne(q, t, p);
    EdgeOrdering(w0, t - p, t + p, b.wc1, b.wc2);
  }

  /** The approximate edges in units of ω0 are t ∓ p, with p = 1/(2Q) and t^2 = 1 + 2p^2. */
  lemma ApproxEdges(w0: real, q: real, t: real)
    requires q != 0.0
    requires t >= 0.0 && Sq(t) == ApproxRadicand(q)
    ensures Sq(t) == 1.0 + 2.0 * Sq(HalfInverse(q))
    ensures ApproxCutoffs(w0, q, t).wc1 == w0 * (t - HalfInverse(q))
    ensures ApproxCutoffs(w0, q, t).wc2 == w0 * (t + HalfInverse(q))
  {
  }

  /** The edges lo = ω0·z1 and hi = ω0·z2, from where z1 and z2 lie relative to 1. */
  lemma EdgeOrdering(w0: real, z1: real, z2: real, lo: real, hi: real)
    requires w0 > 0.0 && lo == w0 * z1 && hi == w0 * z2
    requires 0.0 < z1 && z2 > 1.0
    ensures 0.0 < lo && w0 < hi
    ensures lo < w0 <==> z1 < 1.0
  {
    assert 0.0 < lo by {
      MulPos(w0, z1);
    }
    ScaledAboveOne(w0, z2, hi);
    ScaledAboveOne(w0, z1, lo);
  }

  /** With t^2 = 1 + 2p^2 and p > 0: 0 < t - p and t + p > 1. */
  lemma EdgesAroundOne(p: real, t: real)
    requires p > 0.0 && t >= 0.0 && Sq(t) == 1.0 + 2.0 * Sq(p)
    ensures 0.0 < t - p
    ensures t + p > 1.0
  {
    SqPos(p);
    SqLess(p, t);
    SqLess(1.0, t);
  }

  /** For w0 > 0, x = w0·z lies below (above) w0 exactly when z lies below (above) 1. */
  lemma ScaledAboveOne(w0: real, z: real, x: real)
    requires w0 > 0.0 && x == w0 * z
    ensures x < w0 <==> z < 1.0
    ensures x > w0 <==> z > 1.0
  {
    if z < 1.0 {
      MulPos(w0, 1.0 - z);
    } else if z > 1.0 {
      MulPos(w0, z - 1.0);
    }
  }

  /** t - p < 1 exactly when p < 2, that is when Q > 1/4. */
  lemma LowerEdgeBelowOne(q: real, t: real, p: real)
    requires q > 0.0 && p > 0.0 && p * (2.0 * q) == 1.0
    requires t >= 0.0 && Sq(t) == 1.0 + 2.0 * Sq(p)
    ensures t - p < 1.0 <==> 4.0 * q > 1.0
  {
    SqLess(t, 1.0 + p);
    assert Sq(1.0 + p) - Sq(t) == p * (2.0 - p);
    SignOfProduct(p, 2.0 - p);
    assert p * (2.0 - p) != 0.0 <==> p != 2.0;
    assert p < 2.0 <==> 4.0 * q > 1.0 by {
      MulPos(2.0, q);
      assert (2.0 - p) * (2.0 * q) == 4.0 * q - 1.0;
      SignOfProduct(2.0 * q, 2.0 - p);
      SignOfProduct(2.0 * q, p - 2.0);
    }
  }

  /**
   Neither approximate edge is a half-power point, for any ω0 > 0 and Q > 0:
   at ω = ω0·z with z = t ± p, |ω0^2 - ω^2| = (ω0/Q)·ω would force
   1 - z^2 = ±2pz, which t^2 = 1 + 2p^2 rules out.
   */
  lemma ApproxMissesHalfPower(w0: real, q: real, t: real)
    requires w0 > 0.0 && q > 0.0
    requires t >= 0.0 && Sq(t) == ApproxRadicand(q)
    ensures Defined(NotchBandwidth.TransferOf(w0, q), ApproxCutoffs(w0, q, t).wc1)
    ensures Defined(NotchBandwidth.TransferOf(w0, q), ApproxCutoffs(w0, q, t).wc2)
    ensures Mag2(NotchBandwidth.TransferOf(w0, q), ApproxCutoffs(w0, q, t).wc1) != 0.5
    ensures Mag2(NotchBandwidth.TransferOf(w0, q), ApproxCutoffs(w0, q, t).wc2) != 0.5
  {
    var p := HalfInverse(q);
    var b := ApproxCutoffs(w0, q, t);
    var z1, z2 := t - p, t + p;
    assert b.wc1 == w0 * z1 && b.wc2 == w0 * z2;
    assert Sq(t) == 1.0 + 2.0 * Sq(p);
    NotHalfAt(w0, q, p, t, z1);
    NotHalfAt(w0, q, p, t, z2);
  }

  /** At ω0·z for z = t ± p the half-power equation fails. */
  lemma NotHalfAt(w0: real, q: real, p: real, t: real, z: real)
    requires w0 > 0.0 && q > 0.0 && p == HalfInverse(q)
    requires t >= 0.0 && Sq(t) == 1.0 + 2.0 * Sq(p)
    requires z == t - p || z == t + p
    ensures Defined(NotchBandwidth.TransferOf(w0, q), w0 * z)
    ensures Mag2(NotchBandwidth.TransferOf(w0, q), w0 * z) != 0.5
  {
    HalfEquationAt(w0, q, p, z);
    EdgeEquationFails(p, t, z);
  }

  /**
   In units of ω0, the half-power equation at ω0·z reads 1 - z^2 = ±2pz
   with p = 1/(2Q).
   */
  lemma HalfEquationAt(w0: real, q: real, p: real, z: real)
    requires w0 > 0.0 && q > 0.0 && p == HalfInverse(q)
    ensures Defined(NotchBandwidth.TransferOf(w0, q), w0 * z)
    ensures Mag2(NotchBandwidth.TransferOf(w0, q), w0 * z) == 0.5 ==>
      1.0 - Sq(z) == 2.0 * p * z || 1.0 - Sq(z) == -(2.0 * p * z)
  {
    var w := w0 * z;
    var a := NotchBandwidth.Damping(w0, q);
    NotchBandwidth.HalfPowerWhere(w0, q, w);
    var x, y := Sq(w0) - Sq(w), a * w;
    var u, v := 1.0 - Sq(z), 2.0 * p * z;
    DampingInUnits(w0, q, p);
    UnitsForm(w0, p, z, a, x, y);
    SqPos(w0);
    if Sq(x) == Sq(y) {
      SquaresOfMultiples(x, y, u, v, Sq(w0));
    }
  }

  /** ω0^2 - (ω0·z)^2 and (2p·ω0)·(ω0·z), measured in units of ω0^2. */
  lemma UnitsForm(w0: real, p: real, z: real, a: real, x: real, y: real)
    requires a == 2.0 * p * w0
    requires x == Sq(w0) - Sq(w0 * z) && y == a * (w0 * z)
    ensures x == (1.0 - Sq(z)) * Sq(w0)
    ensures y == (2.0 * p * z) * Sq(w0)
  {
    SqMul(w0, z);
  }

  /** ω0/Q = 2p·ω0 with p = 1/(2Q). */
  lemma DampingInUnits(w0: real, q: real, p: real)
    requires q > 0.0 && p == HalfInverse(q)
    ensures NotchBandwidth.Damping(w0, q) == 2.0 * p * w0
  {
    var a := NotchBandwidth.Damping(w0, q);
    assert p * (2.0 * q) == 1.0;
    assert 2.0 * p * w0 * q == w0 * (p * (2.0 * q));
    CancelFactor(a, 2.0 * p * w0, q);
  }

  /** With t^2 = 1 + 2p^2, p > 0 and z = t ± p, 1 - z^2 is neither 2pz nor -2pz. */
  lemma EdgeEquationFails(p: real, t: real, z: real)
    requires p > 0.0 && t >= 0.0 && Sq(t) == 1.0 + 2.0 * Sq(p)
    requires z == t - p || z == t + p
    ensures 1.0 - Sq(z) != 2.0 * p * z
    ensures 1.0 - Sq(z) != -(2.0 * p * z)
  {
    SqPos(p);
    if z == t + p {
      assert 1.0 - Sq(z) == -3.0 * Sq(p) - 2.0 * t * p;
      MulNonneg(t, p);
      assert 1.0 - Sq(z) - 2.0 * p * z == -5.0 * Sq(p) - 4.0 * t * p;
      assert 1.0 - Sq(z) + 2.0 * p * z == -Sq(p);
    } else {
      assert 1.0 - Sq(z) == -3.0 * Sq(p) + 2.0 * t * p;
      assert 1.0 - Sq(z) - 2.0 * p * z == -Sq(p);
      if 1.0 - Sq(z) == -(2.0 * p * z) {
        assert 4.0 * t * p == 5.0 * Sq(p);
        assert 4.0 * t == 5.0 * p by {
          CancelFactor(4.0 * t, 5.0 * p, p);
        }
      }
    }
  }

  /**
   R = 4, L = 1, C = 1 gives Q = 1/4 and ω0 = 1, where the approximate lower
   edge lands on ω0 itself and the filter passes nothing there, not half
   the power.
   */
  lemma ApproxCounterexample()
    ensures Quality(4.0, 1.0, 1.0, 1.0) == 0.25
    ensures BandPass.Resonance(1.0, 1.0, 1.0) == 1.0
    ensures ApproxRadicand(0.25) == Sq(3.0)
    ensures ApproxCutoffs(1.0, 0.25, 3.0).wc1 == 1.0
    ensures Defined(NotchBandwidth.TransferOf(1.0, 0.25), 1.0)
    ensures Mag2(NotchBandwidth.TransferOf(1.0, 0.25), 1.0) == 0.0
  {
    assert HalfInverse(0.25) == 2.0;
    NotchBandwidth.NullAtResonance(1.0, 0.25);
  }

  /** The corrected cut-offs ω0·(√(1 + 1/(4Q^2)) ∓ 1/(2Q)), given that root u. */
  function ExactCutoffs(w0: real, q: real, u: real): (b: BandPass.Band)
    requires q != 0.0
    requires u >= 0.0 && Sq(u) == 1.0 + Sq(HalfInverse(q))
    ensures b.wc2 - b.wc1 == NotchBandwidth.Damping(w0, q)
    ensures b.wc1 * b.wc2 == Sq(w0)
  {
    var p := HalfInverse(q);
    EdgeAlgebra(w0, q, u, p);
    BandPass.Band(w0 * (u - p), w0 * (u + p))
  }

  /** The corrected edges are the half-power points, one either side of ω0. */
  lemma ExactCutoffsHalfPower(w0: real, q: real, u: real)
    requires w0 > 0.0 && q > 0.0
    requires u >= 0.0 && Sq(u) == 1.0 + Sq(HalfInverse(q))
    ensures var b := ExactCutoffs(w0, q, u);
      && 0.0 < b.wc1 < w0 < b.wc2
      && Defined(NotchBandwidth.TransferOf(w0, q), b.wc1)
      && Mag2(NotchBandwidth.TransferOf(w0, q), b.wc1) == 0.5
      && Defined(NotchBandwidth.TransferOf(w0, q), b.wc2)
      && Mag2(NotchBandwidth.TransferOf(w0, q), b.wc2) == 0.5
  {
    var p := HalfInverse(q);
    var a := NotchBandwidth.Damping(w0, q);
    assert a / 2.0 == w0 * p by {
      assert p * (2.0 * q) == 1.0;
      assert 2.0 * p * w0 * q == w0 * (p * (2.0 * q));
      CancelFactor(a, 2.0 * p * w0, q);
    }
    SqMul(w0, u);
    SqMul(w0, p);
    MulNonneg(w0, u);
    assert Sq(w0 * u) == Sq(a / 2.0) + Sq(w0);
    NotchBandwidth.HalfPowerAtPoints(w0, q, w0 * u);
    assert ExactCutoffs(w0, q, u) == NotchBandwidth.HalfPowerPoints(w0, q, w0 * u);
  }

  /**
   The plot of this script is the plot of the bandwidth-designed notch with
   this Q: over ω0/100 .. 100·ω0 the normalised samples lie in [0, 1], some
   sample is exactly 1, and a sample at ω0 normalises to 0.
   */
  lemma SweepNormalization(r: real, l: real, c: real, sLC: real, sq: real, ws: seq<real>)
    requires r > 0.0 && l > 0.0 && c > 0.0
    requires sLC > 0.0 && Sq(sLC) == l * c
    requires sq >= 0.0 && Sq(sq) == l / c
    requires var w0 := BandPass.Resonance(l, c, sLC);
      IsSweep(ws, DecadeSweepStart(w0), DecadeSweepStop(w0))
    ensures forall i :: 0 <= i < |ws| ==> Defined(TransferOf(r, l, c, sLC, sq), ws[i])
    ensures SeqMax(Mag2Samples(TransferOf(r, l, c, sLC, sq), ws)) > 0.0
    ensures forall i :: 0 <= i < |ws| ==>
      0.0 <= Normalize(Mag2Samples(TransferOf(r, l, c, sLC, sq), ws))[i] <= 1.0
    ensures exists i :: 0 <= i < |ws| && Normalize(Mag2Samples(TransferOf(r, l, c, sLC, sq), ws))[i] == 1.0
    ensures forall i :: 0 <= i < |ws| && ws[i] == BandPass.Resonance(l, c, sLC) ==>
      Normalize(Mag2Samples(TransferOf(r, l, c, sLC, sq), ws))[i] == 0.0
  {
    var w0 := BandPass.Resonance(l, c, sLC);
    var q := Quality(r, l, c, sq);
    NotchBandwidth.SweepNormalization(w0, q, ws);
  }
}
