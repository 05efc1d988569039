/**
 The series RLC notch (band-reject) filter designed from its bandwidth:
 ω0 = 1/√(LC), BW = R/L, Q = ω0/BW, and
 H(s) = (s^2 + ω0^2) / (s^2 + (ω0/Q)·s + ω0^2).
 The cut-offs are the two solutions of |H(jω)| = target found by brentq
 in the brackets [ω0/10, ω0] and [ω0, 10·ω0]; the root finder itself is
 abstracted to "a point of the bracket where the gain meets the target".
 */
module NotchBandwidth {
  import opened Reals
  import opened Complex
  import opened Polynomial
  import opened Transfer
  import opened Normalization
  import BandPass

  /** num = [1, 0, ω0^2], den = [1, ω0/Q, ω0^2]: zeros at ±jω0. */
  function TransferOf(w0: real, q: real): (h: TransferFunction)
    requires q != 0.0
    ensures |h.num| == |h.den| == 3
    ensures h.num[0] == h.den[0] == 1.0 && h.num[1] == 0.0
    ensures h.num[2] == h.den[2] && h.den[1] * q == w0
  {
    TransferFunction([1.0, 0.0, Sq(w0)], [1.0, Damping(w0, q), Sq(w0)])
  }

  /** The s-coefficient ω0/Q of the denominator. */
  function Damping(w0: real, q: real): (a: real)
    requires q != 0.0
    ensures a * q == w0
    ensures w0 != 0.0 ==> a != 0.0
    ensures w0 > 0.0 && q > 0.0 ==> a > 0.0
  {
    DivMul(w0, q);
    QuotientFacts(w0, q);
    w0 / q
  }

  /** The resonance, the bandwidth and the quality factor the script derives from R, L and C. */
  datatype Parameters = Parameters(w0: real, bw: real, q: real)

  function Design(r: real, l: real, c: real, sLC: real): (p: Parameters)
    requires r != 0.0 && l != 0.0 && c != 0.0
    requires sLC > 0.0 && Sq(sLC) == l * c
    ensures p.w0 > 0.0 && Sq(p.w0) * (l * c) == 1.0
    ensures p.bw * l == r
    ensures p.q != 0.0 && Damping(p.w0, p.q) == p.bw
    ensures p.q > 0.0 <==> p.bw > 0.0
  {
    var w0 := BandPass.Resonance(l, c, sLC);
    var bw := r / l;
    DivMul(r, l);
    NonzeroQuotient(r, l);
    NonzeroQuotient(w0, bw);
    QuotientSign(w0, bw);
    DivMul(w0, bw);
    QuotientUnique(bw, w0, w0 / bw);
    Parameters(w0, bw, w0 / bw)
  }

  /** N(jω) = ω0^2 - ω^2 and D(jω) = (ω0^2 - ω^2) + j(ω0/Q)ω. */
  lemma AtFrequency(w0: real, q: real, w: real)
    requires q != 0.0
    ensures Numerator(TransferOf(w0, q), w) == Complex(Sq(w0) - Sq(w), 0.0)
    ensures Denominator(TransferOf(w0, q), w) == Complex(Sq(w0) - Sq(w), Damping(w0, q) * w)
  {
    HornerQuadratic(1.0, 0.0, Sq(w0), w);
    HornerQuadratic(1.0, Damping(w0, q), Sq(w0), w);
  }

  /** With ω0 != 0 and finite Q the denominator has no real root: the response exists everywhere. */
  lemma DefinedEverywhere(w0: real, q: real, w: real)
    requires w0 != 0.0 && q != 0.0
    ensures Defined(TransferOf(w0, q), w)
    ensures Sq(Damping(w0, q) * w) + Sq(Sq(w0) - Sq(w)) > 0.0
  {
    AtFrequency(w0, q, w);
    if w == 0.0 {
      SqPos(w0);
      assert Sq(w) == 0.0;
      SqPos(Sq(w0) - Sq(w));
      SqNonneg(Damping(w0, q) * w);
    } else {
      NonzeroProduct(Damping(w0, q), w);
      SqPos(Damping(w0, q) * w);
      SqNonneg(Sq(w0) - Sq(w));
    }
  }

  /** |H(jω)|^2 = (ω0^2 - ω^2)^2 / ((ω0ω/Q)^2 + (ω0^2 - ω^2)^2). */
  lemma Mag2Closed(w0: real, q: real, w: real)
    requires w0 != 0.0 && q != 0.0
    ensures Defined(TransferOf(w0, q), w)
    ensures Sq(Damping(w0, q) * w) + Sq(Sq(w0) - Sq(w)) > 0.0
    ensures Mag2(TransferOf(w0, q), w)
      == Sq(Sq(w0) - Sq(w)) / (Sq(Damping(w0, q) * w) + Sq(Sq(w0) - Sq(w)))
  {
    DefinedEverywhere(w0, q, w);
    AtFrequency(w0, q, w);
    Mag2Ratio(TransferOf(w0, q), w, Sq(Sq(w0) - Sq(w)), Sq(Damping(w0, q) * w) + Sq(Sq(w0) - Sq(w)));
  }

  /** Mag2Closed with the two squares named by the caller. */
  lemma Mag2Parts(w0: real, q: real, w: real, n: real, b: real)
    requires w0 != 0.0 && q != 0.0
    requires n == Sq(Sq(w0) - Sq(w)) && b == Sq(Damping(w0, q) * w)
    ensures Defined(TransferOf(w0, q), w)
    ensures b + n > 0.0 && n >= 0.0 && b >= 0.0
    ensures Mag2(TransferOf(w0, q), w) == n / (b + n)
  {
    DefinedEverywhere(w0, q, w);
    AtFrequency(w0, q, w);
    SqNonneg(Sq(w0) - Sq(w));
    SqNonneg(Damping(w0, q) * w);
    Mag2Ratio(TransferOf(w0, q), w, n, b + n);
  }

  /** The notch is total: nothing passes at ω0. */
  lemma NullAtResonance(w0: real, q: real)
    requires w0 != 0.0 && q != 0.0
    ensures Defined(TransferOf(w0, q), w0)
    ensures Mag2(TransferOf(w0, q), w0) == 0.0
  {
    Mag2Closed(w0, q, w0);
    assert Sq(Sq(w0) - Sq(w0)) == 0.0;
  }

  /** The gain never exceeds 1, and reaches it only at DC. */
  lemma Mag2AtMostOne(w0: real, q: real, w: real)
    requires w0 != 0.0 && q != 0.0
    ensures Defined(TransferOf(w0, q), w)
    ensures Mag2(TransferOf(w0, q), w) <= 1.0
    ensures Mag2(TransferOf(w0, q), w) == 1.0 <==> w == 0.0
  {
    Mag2Closed(w0, q, w);
    SqNonneg(Sq(w0) - Sq(w));
    SqNonneg(Damping(w0, q) * w);
    SqZero(Damping(w0, q) * w);
    FractionAtMostOne(Sq(Sq(w0) - Sq(w)), Sq(Damping(w0, q) * w));
  }

  /** With the same R, L and C, the notch passes exactly the power the band-pass rejects. */
  lemma ComplementsBandPass(r: real, l: real, c: real, sLC: real, w: real)
    requires r > 0.0 && l > 0.0 && c > 0.0
    requires sLC > 0.0 && Sq(sLC) == l * c
    ensures var p := Design(r, l, c, sLC);
      && Defined(TransferOf(p.w0, p.q), w)
      && Defined(BandPass.TransferOf(r, l, c), w)
      && Mag2(TransferOf(p.w0, p.q), w) + Mag2(BandPass.TransferOf(r, l, c), w) == 1.0
  {
    var p := Design(r, l, c, sLC);
    var k, b := 1.0 / (l * c), r / l;
    MulPos(l, c);
    QuotientUnique(Sq(p.w0), 1.0, l * c);
    DivMul(r, l);
    QuotientUnique(p.bw, r, l);
    var n, m := Sq(k - Sq(w)), Sq(b * w);
    DefinedEverywhere(p.w0, p.q, w);
    BandPass.DefinedEverywhere(r, l, c, w);
    AtFrequency(p.w0, p.q, w);
    BandPass.AtFrequency(r, l, c, w);
    assert Sq(p.w0) - Sq(w) == k - Sq(w);
    assert Damping(p.w0, p.q) * w == b * w;
    Mag2Ratio(TransferOf(p.w0, p.q), w, n, m + n);
    Mag2Ratio(BandPass.TransferOf(r, l, c), w, m, m + n);
    SumOfQuotients(n, m, m + n);
  }

  /** Below the resonance the gain falls strictly towards the notch. */
  lemma Mag2DecreasingBelow(w0: real, q: real, x: real, y: real)
    requires w0 > 0.0 && q > 0.0
    requires 0.0 <= x < y <= w0
    ensures Defined(TransferOf(w0, q), x) && Defined(TransferOf(w0, q), y)
    ensures Mag2(TransferOf(w0, q), y) < Mag2(TransferOf(w0, q), x)
  {
    var nx, bx := Sq(Sq(w0) - Sq(x)), Sq(Damping(w0, q) * x);
    var ny, dy := Sq(Sq(w0) - Sq(y)), Sq(Damping(w0, q) * y);
    Mag2Parts(w0, q, x, nx, bx);
    Mag2Parts(w0, q, y, ny, dy);
    BandPass.CrossBelow(w0, Damping(w0, q), x, y);
    RatioOrder(nx, bx, ny, dy);
  }

  /** Above the resonance the gain rises strictly away from the notch. */
  lemma Mag2IncreasingAbove(w0: real, q: real, x: real, y: real)
    requires w0 > 0.0 && q > 0.0
    requires w0 <= x < y
    ensures Defined(TransferOf(w0, q), x) && Defined(TransferOf(w0, q), y)
    ensures Mag2(TransferOf(w0, q), x) < Mag2(TransferOf(w0, q), y)
  {
    var nx, bx := Sq(Sq(w0) - Sq(x)), Sq(Damping(w0, q) * x);
    var ny, dy := Sq(Sq(w0) - Sq(y)), Sq(Damping(w0, q) * y);
    Mag2Parts(w0, q, x, nx, bx);
    Mag2Parts(w0, q, y, ny, dy);
    BandPass.CrossAbove(w0, Damping(w0, q), x, y);
    RatioOrder(ny, dy, nx, bx);
  }

  /**
   brentq(f, lo, hi) needs f(lo) and f(hi) not of the same strict sign, for
   f = |H| - target; as |H| >= 0 this is the same comparison made with
   |H|^2 against target^2.
   */
  predicate SignChange(h: TransferFunction, lo: real, hi: real, t2: real)
    requires Defined(h, lo) && Defined(h, hi)
  {
    || (Mag2(h, lo) >= t2 && Mag2(h, hi) <= t2)
    || (Mag2(h, lo) <= t2 && Mag2(h, hi) >= t2)
  }

  /**
   brentq raises ValueError when f(lo)·f(hi) > 0 for f = |H| - target. With
   |H| and the target given by their non-negative roots, the bracket passes
   that test exactly when SignChange holds of the squares.
   */
  lemma SignChangeOfMagnitudes(h: TransferFunction, lo: real, hi: real, mlo: real, mhi: real, t: real)
    requires Defined(h, lo) && Defined(h, hi)
    requires mlo >= 0.0 && Sq(mlo) == Mag2(h, lo)
    requires mhi >= 0.0 && Sq(mhi) == Mag2(h, hi)
    requires t >= 0.0
    ensures (mlo - t) * (mhi - t) <= 0.0 <==> SignChange(h, lo, hi, Sq(t))
  {
    ProductNonpositive(mlo - t, mhi - t);
    SqLess(mlo, t);
    SqLess(t, mlo);
    SqLess(mhi, t);
    SqLess(t, mhi);
  }

  /**
   For the ideal -3 dB level (|H|^2 = 1/2) the brackets [ω0/10, ω0] and
   [ω0, 10·ω0] each enclose a crossing exactly when 99·Q >= 10.
   */
  lemma BracketsValid(w0: real, q: real)
    requires w0 > 0.0 && q > 0.0
    ensures Defined(TransferOf(w0, q), w0 / 10.0) && Defined(TransferOf(w0, q), w0)
    ensures Defined(TransferOf(w0, q), w0 * 10.0)
    ensures SignChange(TransferOf(w0, q), w0 / 10.0, w0, 0.5) <==> 99.0 * q >= 10.0
    ensures SignChange(TransferOf(w0, q), w0, w0 * 10.0, 0.5) <==> 99.0 * q >= 10.0
  {
    NullAtResonance(w0, q);
    LowerBracketEnd(w0, q);
    UpperBracketEnd(w0, q);
  }

  /** |H(jω0/10)|^2 >= 1/2 exactly when 99·Q >= 10. */
  lemma LowerBracketEnd(w0: real, q: real)
    requires w0 > 0.0 && q > 0.0
    ensures Defined(TransferOf(w0, q), w0 / 10.0)
    ensures Mag2(TransferOf(w0, q), w0 / 10.0) >= 0.5 <==> 99.0 * q >= 10.0
  {
    var w, a := w0 / 10.0, Damping(w0, q);
    var x, y := Sq(w0) - Sq(w), a * w;
    Mag2Parts(w0, q, w, Sq(x), Sq(y));
    assert w == w0 * 0.1;
    SqMul(w0, 0.1);
    assert x == 9.9 * 0.1 * Sq(w0) && y == a * w0 * 0.1;
    MulPos(a, w0);
    HalfLevelSign(x, y);
    CrossingCondition(w0, a, q, 0.1);
  }

  /** |H(j10ω0)|^2 >= 1/2 exactly when 99·Q >= 10. */
  lemma UpperBracketEnd(w0: real, q: real)
    requires w0 > 0.0 && q > 0.0
    ensures Defined(TransferOf(w0, q), w0 * 10.0)
    ensures Mag2(TransferOf(w0, q), w0 * 10.0) >= 0.5 <==> 99.0 * q >= 10.0
  {
    var w, a := w0 * 10.0, Damping(w0, q);
    var x, y := Sq(w) - Sq(w0), a * w;
    DefinedEverywhere(w0, q, w);
    assert Sq(w0) - Sq(w) == -x;
    SqNeg(x);
    Mag2Parts(w0, q, w, Sq(x), Sq(y));
    SqMul(w0, 10.0);
    assert x == 9.9 * 10.0 * Sq(w0) && y == a * w0 * 10.0;
    MulPos(a, w0);
    HalfLevelSign(x, y);
    CrossingCondition(w0, a, q, 10.0);
  }

  /** At ω = f·ω0 the test |ω0^2 - ω^2| >= (ω0/Q)·ω reduces, for f = 1/10 and f = 10, to 99·Q >= 10. */
  lemma CrossingCondition(w0: real, a: real, q: real, f: real)
    requires w0 > 0.0 && a > 0.0 && q > 0.0 && f > 0.0
    requires a * q == w0
    ensures 9.9 * f * Sq(w0) - a * w0 * f >= 0.0 <==> 99.0 * q >= 10.0
  {
    assert 9.9 * f * Sq(w0) - a * w0 * f == a * w0 * f * (9.9 * q - 1.0) by {
      assert a * q * w0 == w0 * w0;
    }
    MulPos(a, w0);
    MulPos(a * w0, f);
    SignOfProduct(a * w0 * f, 9.9 * q - 1.0);
  }

  /** For x, y > 0: x^2/(y^2 + x^2) >= 1/2 exactly when x >= y. */
  lemma HalfLevelSign(x: real, y: real)
    requires x > 0.0 && y > 0.0
    ensures Sq(y) + Sq(x) > 0.0
    ensures Sq(x) / (Sq(y) + Sq(x)) >= 0.5 <==> x - y >= 0.0
  {
    SqPos(x);
    SqPos(y);
    HalfComparison(Sq(x), Sq(y));
    SqLess(y, x);
  }

  /**
   The script's own target is |H(j·1e-6)|/√2, strictly below the ideal
   level; 99·Q >= 10 is enough for both brackets to enclose a crossing of it.
   */
  lemma BracketsValidForMeasuredTarget(w0: real, q: real)
    requires w0 > 0.0 && q > 0.0
    requires 99.0 * q >= 10.0
    ensures Defined(TransferOf(w0, q), 0.000001)
    ensures Defined(TransferOf(w0, q), w0 / 10.0) && Defined(TransferOf(w0, q), w0)
    ensures Defined(TransferOf(w0, q), w0 * 10.0)
    ensures var t2 := Mag2(TransferOf(w0, q), 0.000001) / 2.0;
      && SignChange(TransferOf(w0, q), w0 / 10.0, w0, t2)
      && SignChange(TransferOf(w0, q), w0, w0 * 10.0, t2)
  {
    Mag2AtMostOne(w0, q, 0.000001);
    NullAtResonance(w0, q);
    LowerBracketEnd(w0, q);
    UpperBracketEnd(w0, q);
  }

  /** The notch is symmetric on a log scale: the gain is the same at ω0/10 and at 10·ω0. */
  lemma BracketEndsEqual(w0: real, q: real)
    requires w0 > 0.0 && q > 0.0
    ensures Defined(TransferOf(w0, q), w0 / 10.0) && Defined(TransferOf(w0, q), w0 * 10.0)
    ensures Mag2(TransferOf(w0, q), w0 / 10.0) == Mag2(TransferOf(w0, q), w0 * 10.0)
  {
    var a := Damping(w0, q);
    var lo, hi := w0 / 10.0, w0 * 10.0;
    var nl, bl := Sq(Sq(w0) - Sq(lo)), Sq(a * lo);
    var nh, bh := Sq(Sq(w0) - Sq(hi)), Sq(a * hi);
    Mag2Parts(w0, q, lo, nl, bl);
    Mag2Parts(w0, q, hi, nh, bh);
    DecadeNumerators(w0, lo, hi);
    DecadeDampings(a, w0, lo, hi);
    ScaledFraction(nl, bl, nh, bh, 10000.0);
  }

  /** (ω0^2 - (10ω0)^2)^2 = 10^4·(ω0^2 - (ω0/10)^2)^2. */
  lemma DecadeNumerators(w0: real, lo: real, hi: real)
    requires lo == w0 / 10.0 && hi == w0 * 10.0
    ensures Sq(Sq(w0) - Sq(hi)) == 10000.0 * Sq(Sq(w0) - Sq(lo))
  {
    var s := Sq(w0);
    assert lo == w0 * 0.1;
    SqMul(w0, 0.1);
    SqMul(w0, 10.0);
    assert s - Sq(lo) == 0.99 * s && s - Sq(hi) == -99.0 * s;
    SqMul(0.99, s);
    SqMul(-99.0, s);
  }

  /** (a·10ω0)^2 = 10^4·(a·ω0/10)^2. */
  lemma DecadeDampings(a: real, w0: real, lo: real, hi: real)
    requires lo == w0 / 10.0 && hi == w0 * 10.0
    ensures Sq(a * hi) == 10000.0 * Sq(a * lo)
  {
    assert a * lo == (a * w0) * 0.1 && a * hi == (a * w0) * 10.0;
    SqMul(a * w0, 0.1);
    SqMul(a * w0, 10.0);
  }

  /** n/(b + n) is unchanged when both parts are scaled by the same k > 0. */
  lemma ScaledFraction(n: real, b: real, n2: real, b2: real, k: real)
    requires b + n > 0.0 && k > 0.0
    requires n2 == k * n && b2 == k * b
    ensures b2 + n2 > 0.0
    ensures n / (b + n) == n2 / (b2 + n2)
  {
    var f := n / (b + n);
    DivMul(n, b + n);
    MulPos(k, b + n);
    assert b2 + n2 == k * (b + n);
    assert f * (b2 + n2) == k * (f * (b + n));
    QuotientUnique(f, n2, b2 + n2);
  }

  /**
   For the measured target 99·Q >= 10 is not necessary: with ω0 = 1e-5 the
   point 1e-6 is the lower bracket end itself, so both brackets hold a sign
   change of the measured target for every Q, while for Q < 10/99 neither
   holds one of the ideal level 1/2.
   */
  lemma MeasuredBracketsBelowThreshold(q: real)
    requires q > 0.0
    ensures var h := TransferOf(0.00001, q);
      && Defined(h, 0.000001) && Defined(h, 0.00001) && Defined(h, 0.0001)
      && SignChange(h, 0.000001, 0.00001, Mag2(h, 0.000001) / 2.0)
      && SignChange(h, 0.00001, 0.0001, Mag2(h, 0.000001) / 2.0)
      && (99.0 * q < 10.0 ==> !SignChange(h, 0.000001, 0.00001, 0.5) && !SignChange(h, 0.00001, 0.0001, 0.5))
  {
    var w0 := 0.00001;
    assert w0 / 10.0 == 0.000001 && w0 * 10.0 == 0.0001;
    BracketEndsEqual(w0, q);
    NullAtResonance(w0, q);
    BracketsValid(w0, q);
  }

  /** R = 100 and L = C = 1e5 (so √(LC) = 1e5) give ω0 = 1e-5, BW = 1e-3 and Q = 0.01 < 10/99. */
  lemma ThresholdCounterexampleComponents()
    ensures Design(100.0, 100000.0, 100000.0, 100000.0) == Parameters(0.00001, 0.001, 0.01)
    ensures 99.0 * Design(100.0, 100000.0, 100000.0, 100000.0).q < 10.0
  {
    var p := Design(100.0, 100000.0, 100000.0, 100000.0);
    assert p.w0 == 1.0 / 100000.0;
    assert p.bw == 100.0 / 100000.0;
  }

  /** The closed-form cut-offs √((BW/2)^2 + ω0^2) ∓ BW/2, given that root v. */
  function HalfPowerPoints(w0: real, q: real, v: real): (b: BandPass.Band)
    requires q != 0.0
    requires v >= 0.0 && Sq(v) == Sq(Damping(w0, q) / 2.0) + Sq(w0)
    ensures b.wc2 - b.wc1 == Damping(w0, q)
    ensures b.wc1 * b.wc2 == Sq(w0)
  {
    var half := Damping(w0, q) / 2.0;
    BandPass.Band(v - half, v + half)
  }

  /** Exactly half the power passes at both closed-form cut-offs, which straddle ω0. */
  lemma HalfPowerAtPoints(w0: real, q: real, v: real)
    requires w0 > 0.0 && q > 0.0
    requires v >= 0.0 && Sq(v) == Sq(Damping(w0, q) / 2.0) + Sq(w0)
    ensures var b := HalfPowerPoints(w0, q, v);
      && 0.0 < b.wc1 < w0 < b.wc2
      && Defined(TransferOf(w0, q), b.wc1) && Mag2(TransferOf(w0, q), b.wc1) == 0.5
      && Defined(TransferOf(w0, q), b.wc2) && Mag2(TransferOf(w0, q), b.wc2) == 0.5
  {
    var b := HalfPowerPoints(w0, q, v);
    var a := Damping(w0, q);
    SqPos(w0);
    SqLess(a / 2.0, v);
    GeometricMeanBetween(b.wc1, b.wc2, w0);
    MulPos(a, b.wc1);
    assert Sq(w0) - Sq(b.wc1) == a * b.wc1;
    HalfPowerWhere(w0, q, b.wc1);
    assert Sq(w0) - Sq(b.wc2) == -(a * b.wc2);
    SqNeg(a * b.wc2);
    MulPos(a, b.wc2);
    HalfPowerWhere(w0, q, b.wc2);
  }

  /** The power is halved exactly where (ω0^2 - ω^2)^2 = (ω0ω/Q)^2. */
  lemma HalfPowerWhere(w0: real, q: real, w: real)
    requires w0 > 0.0 && q > 0.0
    ensures Defined(TransferOf(w0, q), w)
    ensures Mag2(TransferOf(w0, q), w) == 0.5 <==> Sq(Sq(w0) - Sq(w)) == Sq(Damping(w0, q) * w)
  {
    var n, b := Sq(Sq(w0) - Sq(w)), Sq(Damping(w0, q) * w);
    Mag2Parts(w0, q, w, n, b);
    HalfComparison(n, b);
  }

  /** A crossing of the ideal level found in [0, ω0] is the lower closed-form cut-off. */
  lemma RootBelowIsLowerCutoff(w0: real, q: real, v: real, w: real)
    requires w0 > 0.0 && q > 0.0
    requires v >= 0.0 && Sq(v) == Sq(Damping(w0, q) / 2.0) + Sq(w0)
    requires 0.0 <= w <= w0
    requires Defined(TransferOf(w0, q), w) && Mag2(TransferOf(w0, q), w) == 0.5
    ensures w == HalfPowerPoints(w0, q, v).wc1
  {
    var b := HalfPowerPoints(w0, q, v);
    HalfPowerAtPoints(w0, q, v);
    if w < b.wc1 {
      Mag2DecreasingBelow(w0, q, w, b.wc1);
    } else if w > b.wc1 {
      Mag2DecreasingBelow(w0, q, b.wc1, w);
    }
  }

  /** A crossing of the ideal level found in [ω0, ∞) is the upper closed-form cut-off. */
  lemma RootAboveIsUpperCutoff(w0: real, q: real, v: real, w: real)
    requires w0 > 0.0 && q > 0.0
    requires v >= 0.0 && Sq(v) == Sq(Damping(w0, q) / 2.0) + Sq(w0)
    requires w0 <= w
    requires Defined(TransferOf(w0, q), w) && Mag2(TransferOf(w0, q), w) == 0.5
    ensures w == HalfPowerPoints(w0, q, v).wc2
  {
    var b := HalfPowerPoints(w0, q, v);
    HalfPowerAtPoints(w0, q, v);
    if w < b.wc2 {
      Mag2IncreasingAbove(w0, q, w, b.wc2);
    } else if w > b.wc2 {
      Mag2IncreasingAbove(w0, q, b.wc2, w);
    }
  }

  /**
   The script's measured target |H(j·1e-6)|^2/2 lies strictly below the
   ideal half-power level, because the gain at 1e-6 is already below 1.
   */
  lemma MeasuredTargetBelowHalf(w0: real, q: real)
    requires w0 > 0.0 && q > 0.0
    ensures Defined(TransferOf(w0, q), 0.000001)
    ensures 0.0 <= Mag2(TransferOf(w0, q), 0.000001) / 2.0 < 0.5
  {
    Mag2AtMostOne(w0, q, 0.000001);
  }

  /**
   The root brentq returns in [0, ω0] for the measured target lies strictly
   inside the ideal band: above ωc1, not on it.
   */
  lemma MeasuredRootBelow(w0: real, q: real, v: real, w: real)
    requires w0 > 0.0 && q > 0.0
    requires v >= 0.0 && Sq(v) == Sq(Damping(w0, q) / 2.0) + Sq(w0)
    requires 0.0 <= w <= w0
    requires Defined(TransferOf(w0, q), 0.000001) && Defined(TransferOf(w0, q), w)
    requires Mag2(TransferOf(w0, q), w) == Mag2(TransferOf(w0, q), 0.000001) / 2.0
    ensures HalfPowerPoints(w0, q, v).wc1 < w <= w0
  {
    var b := HalfPowerPoints(w0, q, v);
    MeasuredTargetBelowHalf(w0, q);
    HalfPowerAtPoints(w0, q, v);
    if w < b.wc1 {
      Mag2DecreasingBelow(w0, q, w, b.wc1);
    }
  }

  /**
   The root brentq returns in [ω0, ∞) for the measured target lies strictly
   inside the ideal band: below ωc2, not on it.
   */
  lemma MeasuredRootAbove(w0: real, q: real, v: real, w: real)
    requires w0 > 0.0 && q > 0.0
    requires v >= 0.0 && Sq(v) == Sq(Damping(w0, q) / 2.0) + Sq(w0)
    requires w0 <= w
    requires Defined(TransferOf(w0, q), 0.000001) && Defined(TransferOf(w0, q), w)
    requires Mag2(TransferOf(w0, q), w) == Mag2(TransferOf(w0, q), 0.000001) / 2.0
    ensures w0 <= w < HalfPowerPoints(w0, q, v).wc2
  {
    var b := HalfPowerPoints(w0, q, v);
    MeasuredTargetBelowHalf(w0, q);
    HalfPowerAtPoints(w0, q, v);
    if b.wc2 < w {
      Mag2IncreasingAbove(w0, q, b.wc2, w);
    }
  }

  /**
   So the segment the script draws from one brentq root to the other and
   labels BW is strictly shorter than BW = ω0/Q itself.
   */
  lemma MeasuredBandNarrower(w0: real, q: real, v: real, lo: real, hi: real)
    requires w0 > 0.0 && q > 0.0
    requires v >= 0.0 && Sq(v) == Sq(Damping(w0, q) / 2.0) + Sq(w0)
    requires 0.0 <= lo <= w0 <= hi
    requires Defined(TransferOf(w0, q), 0.000001)
    requires Defined(TransferOf(w0, q), lo) && Defined(TransferOf(w0, q), hi)
    requires Mag2(TransferOf(w0, q), lo) == Mag2(TransferOf(w0, q), 0.000001) / 2.0
    requires Mag2(TransferOf(w0, q), hi) == Mag2(TransferOf(w0, q), 0.000001) / 2.0
    ensures 0.0 <= hi - lo < Damping(w0, q)
  {
    MeasuredRootBelow(w0, q, v, lo);
    MeasuredRootAbove(w0, q, v, hi);
  }

  /** The notch's cut-offs are the band-pass cut-offs of the same R, L and C. */
  lemma CutoffsMatchBandPass(r: real, l: real, c: real, sLC: real, s: real, v: real)
    requires r > 0.0 && l > 0.0 && c > 0.0
    requires sLC > 0.0 && Sq(sLC) == l * c
    requires s >= 0.0 && Sq(s) == BandPass.Radicand(r, l, c)
    requires var p := Design(r, l, c, sLC);
      v >= 0.0 && Sq(v) == Sq(Damping(p.w0, p.q) / 2.0) + Sq(p.w0)
    ensures var p := Design(r, l, c, sLC);
      HalfPowerPoints(p.w0, p.q, v) == BandPass.Cutoffs(r, l, c, s)
  {
    var p := Design(r, l, c, sLC);
    var band := BandPass.Cutoffs(r, l, c, s);
    assert p.w0 == BandPass.Resonance(l, c, sLC);
    DivPos(r, l);
    BandPass.HalfPowerAtCutoffs(r, l, c, s);
    BandPass.Ordering(r, l, c, sLC, s);
    ComplementsBandPass(r, l, c, sLC, band.wc1);
    ComplementsBandPass(r, l, c, sLC, band.wc2);
    RootBelowIsLowerCutoff(p.w0, p.q, v, band.wc1);
    RootAboveIsUpperCutoff(p.w0, p.q, v, band.wc2);
  }

  /**
   Over the plotted grid ω0/100 .. 100·ω0, which contains ω0, the samples
   normalise into [0, 1] with some sample exactly 1, and a sample taken at
   ω0 itself normalises to 0.
   */
  lemma SweepNormalization(w0: real, q: real, ws: seq<real>)
    requires w0 > 0.0 && q > 0.0
    requires IsSweep(ws, DecadeSweepStart(w0), DecadeSweepStop(w0))
    ensures DecadeSweepStart(w0) < w0 < DecadeSweepStop(w0)
    ensures forall i :: 0 <= i < |ws| ==> Defined(TransferOf(w0, q), ws[i])
    ensures SeqMax(Mag2Samples(TransferOf(w0, q), ws)) > 0.0
    ensures forall i :: 0 <= i < |ws| ==> 0.0 <= Normalize(Mag2Samples(TransferOf(w0, q), ws))[i] <= 1.0
    ensures exists i :: 0 <= i < |ws| && Normalize(Mag2Samples(TransferOf(w0, q), ws))[i] == 1.0
    ensures forall i :: 0 <= i < |ws| && ws[i] == w0 ==> Normalize(Mag2Samples(TransferOf(w0, q), ws))[i] == 0.0
  {
    var h := TransferOf(w0, q);
    forall i | 0 <= i < |ws|
      ensures Defined(h, ws[i])
    {
      DefinedEverywhere(w0, q, ws[i]);
    }
    var ms := Mag2Samples(h, ws);
    assert ws[0] == w0 * 0.01;
    Mag2DecreasingBelow(w0, q, ws[0], w0);
    NullAtResonance(w0, q);
    assert ms[0] > 0.0;
    forall i | 0 <= i < |ws|
      ensures ms[i] >= 0.0
    {
    }
    NormalizedRange(ms);
    forall i | 0 <= i < |ws| && ws[i] == w0
      ensures Normalize(ms)[i] == 0.0
    {
      assert ms[i] == 0.0;
    }
  }
}
