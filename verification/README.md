# RC and RLC filter algebra

A model of the closed-form algebra behind four analog filter scripts: an RC
low-pass, an RC high-pass, a series-RLC band-pass, and an RLC notch (band-reject)
filter in two variants. Each script does three things, and the model covers all three:

1. It builds H(s) = N(s)/D(s) from R, L and C as coefficient lists, highest degree first.
2. It computes the characteristic frequencies ω0, ωc, ωc1, ωc2, the bandwidth BW and
   the quality factor Q from closed-form formulas.
3. It sweeps |H(jω)| over a logarithmic grid and divides the swept values by their maximum.

All quantities are exact `real`s. A square root the scripts take with `np.sqrt` is
passed in as a witness `s` with `s >= 0.0 && Sq(s) == radicand`. Statements about the
magnitude are made about |H(jω)|^2 = |N(jω)|^2 / |D(jω)|^2, so the half-power level
1/√2 becomes 1/2 and needs no root.

Modules, one per file:

- `Reals` (reals.dfy): small facts of real arithmetic (squares, products, quotients)
  that the filter proofs are built from.
- `Complex` (complex.dfy): complex numbers as (re, im) pairs, with the product, the
  quotient and the squared norm.
- `Polynomial` (polynomial.dfy): coefficient lists evaluated at s = jω by Horner's rule,
  as `np.polyval` does, and an independent power-sum definition.
- `Transfer` (transfer.dfy): a transfer function as two coefficient lists, its value at jω
  as `freqs` computes it, the squared magnitude, and frequency sweeps.
- `Normalization` (normalize.dfy): `mag / np.max(mag)`.
- `LowPass` (lowpass.dfy): Grafics/Passa_baixa.py.
- `HighPass` (highpass.dfy): Graphics/VinVout.py.
- `BandPass` (bandpass.dfy): Grafics/Passa-faixa.py and Graphics/Passa_faixa.py.
- `NotchBandwidth` (notch_bandwidth.dfy): Grafics/Rejeita_Faixa.py. This notch is designed
  from BW = R/L and Q = ω0/BW, and its cut-offs are found by `brentq`.
- `NotchQuality` (notch_quality.dfy): Grafics/Rejeita-Faixa.py. This notch is designed
  from Q = √(L/C)/R, and its cut-offs come from a closed formula.

## Model

| member | source | states |
|---|---|---|
| Polynomial.HornerIsPowerSum | Graphics/VinVout.py:52 | For every coefficient list, the Horner evaluation at jω equals the sum Σ a_k·(jω)^(n-1-k), highest degree first. |
| Polynomial.Polyval | Graphics/VinVout.py:52 | The evaluation loop returns the power-sum value of the coefficient list at jω. |
| Polynomial.HornerConstant | Grafics/Passa_baixa.py:35 | The list [a] evaluates to the real a at every jω. |
| Polynomial.HornerLinear | Graphics/VinVout.py:41-42 | The list [a, b] evaluates to b + j·a·ω at jω. |
| Polynomial.HornerQuadratic | Grafics/Passa-faixa.py:41-42 | The list [a, b, c] evaluates to (c − a·ω²) + j·b·ω at jω. |
| Complex.Div | Graphics/VinVout.py:52 | The quotient times the divisor gives back the dividend. |
| Complex.Norm2Div | Graphics/VinVout.py:53 | The squared norm of a quotient is the quotient of the squared norms, and the divisor's squared norm is positive. |
| Transfer.Response | Graphics/VinVout.py:52 | Where D(jω) ≠ 0, H(jω) times D(jω) equals N(jω). |
| Transfer.Freqs | Graphics/VinVout.py:52 | The output has one value per frequency. Each value times the power-sum D(jω) equals the power-sum N(jω), and each value is the response at its frequency. |
| Transfer.Mag2 | Graphics/VinVout.py:57 | The squared magnitude is non-negative and satisfies ‖H‖²·‖D‖² = ‖N‖². |
| Transfer.Mag2OfResponse | Graphics/VinVout.py:57 | The squared magnitude is the squared norm of the value `freqs` returns. |
| Transfer.Mag2Samples | Grafics/Passa_baixa.py:46-49 | One value per frequency of the grid, and each value is ‖H‖² at that frequency. This is the array `bode` returns, squared. |
| Transfer.IsSweep | Grafics/Passa_baixa.py:44-45 | A grid of at least two points that starts at lo, ends at hi and strictly increases. This abstracts `np.logspace`. |
| Transfer.DecadeSweepStart | Grafics/Passa_baixa.py:45 | The start ωc·1e-2 lies below the centre frequency exactly when that frequency is positive. |
| Transfer.DecadeSweepStop | Grafics/Rejeita_Faixa.py:67 | The stop ω0·1e2 lies above the centre frequency exactly when it is positive. The grid spans four decades: stop = 10⁴·start. |
| Transfer.SweepBetween | Grafics/Passa_baixa.py:45 | Every point of an increasing sweep lies between its endpoints. |
| Normalization.SeqMax | Grafics/Passa_baixa.py:50 | `np.max` returns an element of the sequence, and that element bounds every other. |
| Normalization.Normalize | Grafics/Passa_baixa.py:50 | `mag / np.max(mag)`: one value per sample, and each value times the maximum gives back its sample. |
| Normalization.NormalizedRange | Grafics/Passa-faixa.py:71-72 | For non-negative input with a positive maximum, the normalised values lie in [0, 1]. A value is 1 exactly when its sample equals the maximum, some value is 1, and the maximum of the result is 1. |
| Normalization.NormalizedAtPeak | Graphics/Passa_faixa.py:59-60 | A positive sample that bounds all others is the maximum and normalises to exactly 1. |
| Normalization.MaxAttained | Grafics/Passa_baixa.py:50 | An element that bounds all others is the maximum. |
| Normalization.ScaleBelow | Grafics/Passa_baixa.py:50 | For 0 ≤ x ≤ m, the value x/m lies in [0, 1], and it equals 1 exactly when x = m. |
| Normalization.MaxOfSquares | Grafics/Passa_baixa.py:49-50 | For non-negative values, the maximum of the squares is the square of the maximum. |
| Normalization.NormalizeSquares | Grafics/Passa_baixa.py:49-50 | Normalising squared magnitudes gives the squares of the normalised magnitudes, so results about ‖H‖² carry over to the plotted ‖H‖. |
| Normalization.ScaleSq | Grafics/Passa_baixa.py:50 | Dividing squares is squaring the quotient. |
| Normalization.MaxOfNonIncreasing | Grafics/Passa_baixa.py:50 | A non-increasing sequence has its maximum at its first element. |
| LowPass.TransferOf | Grafics/Passa_baixa.py:35-36 | [1] over [RC, 1] is strictly proper exactly when RC ≠ 0. |
| LowPass.Cutoff | Grafics/Passa_baixa.py:12 | ωc·RC = 1. |
| LowPass.DenominatorNeverZero | Grafics/Passa_baixa.py:36 | D(jω) = 1 + jωRC, so H is defined at every ω. |
| LowPass.Mag2Closed | Grafics/Passa_baixa.py:35-36 | ‖H(jω)‖² = 1/(1 + (ωRC)²). |
| LowPass.DcGain | Grafics/Passa_baixa.py:35-36 | Unity gain at ω = 0. |
| LowPass.HalfPowerAtCutoff | Grafics/Passa_baixa.py:57 | The marked line ωc = 1/(RC) is where ‖H‖² = 1/2. |
| LowPass.Mag2AtMostOne | Grafics/Passa_baixa.py:35-36 | ‖H‖² ≤ 1, with equality exactly when ωRC = 0. |
| LowPass.Mag2Decreasing | Grafics/Passa_baixa.py:35-36 | For RC > 0, ‖H‖² is strictly decreasing on ω ≥ 0. |
| LowPass.CutoffInsideSweep | Grafics/Passa_baixa.py:45 | For RC > 0, ωc/100 < ωc < 100·ωc. |
| LowPass.SamplesDecreasing | Grafics/Passa_baixa.py:45-46 | Along an increasing sweep of non-negative frequencies the samples do not increase. |
| LowPass.SweepNormalization | Grafics/Passa_baixa.py:45-50 | Over the plotted sweep, the maximum is the first sample and is positive. The normalised values lie in [0, 1], and the first is exactly 1. |
| HighPass.TransferOf | Graphics/VinVout.py:41-42 | [RC, 0] over [RC, 1]: the same denominator as the low-pass, and a numerator of the same length. |
| HighPass.Cutoff | Graphics/VinVout.py:18 | ωc·RC = 1, and ωc is the low-pass cut-off of the same R and C. |
| HighPass.PolesAndZeros | Graphics/VinVout.py:41-42 | N(jω) = jωRC and D(jω) = 1 + jωRC, and H is defined at every ω. |
| HighPass.ResponseClosed | Graphics/VinVout.py:52 | The value `freqs` returns is (x² + jx)/(1 + x²), with x = ωRC. |
| HighPass.ResponseParts | Graphics/VinVout.py:52 | The real and imaginary parts of that closed form multiply back to jx over 1 + jx. |
| HighPass.Mag2Closed | Graphics/VinVout.py:41-42 | ‖H(jω)‖² = (ωRC)²/(1 + (ωRC)²). |
| HighPass.Complementary | Graphics/VinVout.py:41-42 | For every ω, the high-pass and low-pass powers of the same R and C sum to 1. |
| HighPass.DcBlocked | Graphics/VinVout.py:41-42 | ‖H(j0)‖² = 0. |
| HighPass.HalfPowerAtCutoff | Graphics/VinVout.py:63 | The marked line ωc is where ‖H‖² = 1/2. |
| HighPass.Mag2BelowOne | Graphics/VinVout.py:41-42 | ‖H‖² < 1 at every ω. |
| HighPass.Mag2Increasing | Graphics/VinVout.py:41-42 | For RC > 0, ‖H‖² is strictly increasing on ω ≥ 0. |
| HighPass.Mag2Positive | Graphics/VinVout.py:41-42 | For RC > 0, every positive frequency passes some power. |
| HighPass.CutoffInsideSweep | Graphics/VinVout.py:51 | For RC > 0, ωc/100 < ωc < 100·ωc. |
| HighPass.SamplesIncreasing | Graphics/VinVout.py:51-52 | Along an increasing sweep of non-negative frequencies the samples do not decrease. |
| HighPass.SweepNormalization | Graphics/VinVout.py:51-58 | Over the plotted sweep, the maximum is the last sample and is positive. The normalised values lie in [0, 1], and the last is exactly 1. |
| BandPass.TransferOf | Grafics/Passa-faixa.py:41-42 | [R/L, 0] over [1, R/L, 1/(LC)] is strictly proper with a monic denominator. Its middle denominator coefficient equals the numerator's leading one, and its constant term times LC is 1. |
| BandPass.Resonance | Grafics/Passa-faixa.py:49 | ω0 > 0 and ω0²·LC = 1. |
| BandPass.Radicand | Grafics/Passa-faixa.py:53-54 | x = 1 + 4L/(R²C) satisfies (x − 1)·R²C = 4L, and x > 1 when L, C > 0. |
| BandPass.RadicandTermPositive | Grafics/Passa-faixa.py:53 | 4L/(R²C) > 0 when L, C > 0. |
| BandPass.Cutoffs | Grafics/Passa-faixa.py:53-54 | ωc2 − ωc1 = R/L, and ωc1·ωc2·LC = 1. |
| BandPass.Characterize | Graphics/Passa_faixa.py:39-73 | BW = R/L and ωc1·ωc2 = ω0². Q = ω0/BW satisfies Q²·R²·C = L, and Q > 0 exactly when R/L > 0. |
| BandPass.AtFrequency | Grafics/Passa-faixa.py:41-42 | N(jω) = j(R/L)ω and D(jω) = (1/(LC) − ω²) + j(R/L)ω. |
| BandPass.DefinedEverywhere | Grafics/Passa-faixa.py:41-42 | For positive R, L and C, D(jω) ≠ 0 at every ω. |
| BandPass.Mag2Closed | Grafics/Passa-faixa.py:41-42 | ‖H‖² = ((R/L)ω)² / ((1/(LC) − ω²)² + ((R/L)ω)²). |
| BandPass.Mag2AtMostOne | Grafics/Passa-faixa.py:41-42 | ‖H‖² ≤ 1 at every ω, with equality exactly when ω²·LC = 1. |
| BandPass.PeakAtResonance | Grafics/Passa-faixa.py:49 | ‖H(jω0)‖² = 1. |
| BandPass.HalfPowerAtCutoffs | Grafics/Passa-faixa.py:53-54 | ‖H‖² = 1/2 at both ωc1 and ωc2. |
| BandPass.HalfPowerAt | Grafics/Passa-faixa.py:41-42 | Any ω > 0 with (1/(LC) − ω²)² = ((R/L)ω)² is a half-power point. |
| BandPass.Ordering | Grafics/Passa-faixa.py:49-54 | For positive R, L and C, 0 < ωc1 < ω0 < ωc2. |
| BandPass.CutoffsPositive | Grafics/Passa-faixa.py:53-54 | ωc1 > 0 and ωc2 > ωc1. |
| BandPass.CutoffAlgebra | Grafics/Passa-faixa.py:53-54 | ωc1 and ωc2 solve ω² + (R/L)ω − 1/(LC) = 0 and ω² − (R/L)ω − 1/(LC) = 0. They are R/L apart and multiply to 1/(LC). |
| BandPass.RadicandOverBandwidth | Grafics/Passa-faixa.py:53 | With b = R/L, the radicand x satisfies (x − 1)·b² = 4/(LC). |
| BandPass.RootsOfQuadratic | Grafics/Passa-faixa.py:53-54 | If (s² − 1)·b² = 4k, then (b/2)(s ∓ 1) are b apart, multiply to k, and solve k − ω² = ±bω. |
| BandPass.QualityAlgebra | Graphics/Passa_faixa.py:73 | Q = ω0/BW with BW = R/L satisfies Q²·R²·C = L, and Q > 0 exactly when BW > 0. |
| BandPass.SweepStart | Grafics/Passa-faixa.py:63 | `max(1e-2, ω0·1e-3)` is at least both arguments and equals one of them. |
| BandPass.SweepStop | Grafics/Passa-faixa.py:64 | The stop ω0·1e3 lies above ω0 exactly when ω0 > 0. When ω0 ≥ 1e-2 the grid spans at least three decades. |
| BandPass.SweepBounds | Grafics/Passa-faixa.py:63-64 | The start is ≥ 1e-2. Start < stop exactly when ω0 > 1e-5, and ω0 lies in [start, stop] exactly when ω0 ≥ 1e-2. |
| BandPass.SweepNormalization | Grafics/Passa-faixa.py:71-72 | Over positive frequencies, H is defined and the maximum is positive. Normalised values lie in [0, 1] and one of them is 1. The maximum is 1 exactly when ω0 is a sample. |
| BandPass.Mag2Positive | Grafics/Passa-faixa.py:41-42 | Every positive frequency passes some power. |
| BandPass.PeakIffResonance | Grafics/Passa-faixa.py:72 | The largest sample is 1 exactly when ω0 is among the sampled frequencies. |
| BandPass.Mag2AtMostOneAll | Grafics/Passa-faixa.py:68-72 | Every sample of the sweep is at most 1. |
| BandPass.Mag2IncreasingBelow | Grafics/Passa-faixa.py:71-72 | For 0 ≤ x < y ≤ ω0, ‖H(jx)‖² < ‖H(jy)‖²: the gain rises strictly up to the peak. |
| BandPass.Mag2DecreasingAbove | Grafics/Passa-faixa.py:71-72 | For ω0 ≤ x < y, ‖H(jy)‖² < ‖H(jx)‖²: the gain falls strictly after the peak. |
| BandPass.SquaredResonance | Grafics/Passa-faixa.py:42-49 | ω0² is the constant denominator coefficient 1/(LC). |
| BandPass.CrossBelow | Grafics/Passa-faixa.py:41-42 | For 0 ≤ x < y ≤ ω0 and a > 0, (ω0² − y²)²(ax)² < (ω0² − x²)²(ay)². This is the cross-multiplied comparison behind the band-pass rise and the notch fall below ω0. |
| BandPass.CrossAbove | Grafics/Passa-faixa.py:41-42 | For ω0 ≤ x < y and a > 0, (ω0² − x²)²(ay)² < (ω0² − y²)²(ax)². This is the comparison behind the band-pass fall and the notch rise above ω0. |
| BandPass.UnitGainAt | Grafics/Passa-faixa.py:49 | For ω > 0, ω²·LC = 1 exactly when ω = ω0. |
| NotchBandwidth.TransferOf | Grafics/Rejeita_Faixa.py:43-44 | [1, 0, ω0²] over [1, ω0/Q, ω0²]: both monic of degree 2, the same constant term, and a middle coefficient a with a·Q = ω0. |
| NotchBandwidth.Damping | Grafics/Rejeita_Faixa.py:44 | a = ω0/Q satisfies a·Q = ω0. It is nonzero when ω0 is, and positive when ω0 and Q are. |
| NotchBandwidth.Design | Grafics/Rejeita_Faixa.py:38-40 | ω0 > 0 with ω0²·LC = 1, and BW·L = R. Q is nonzero, ω0/Q = BW, and Q > 0 exactly when BW > 0. |
| NotchBandwidth.AtFrequency | Grafics/Rejeita_Faixa.py:43-44 | N(jω) = ω0² − ω² and D(jω) = (ω0² − ω²) + j(ω0/Q)ω. |
| NotchBandwidth.DefinedEverywhere | Grafics/Rejeita_Faixa.py:43-45 | For ω0, Q ≠ 0, D(jω) ≠ 0 at every ω. |
| NotchBandwidth.Mag2Closed | Grafics/Rejeita_Faixa.py:51-54 | ‖H‖² = (ω0² − ω²)² / (((ω0/Q)ω)² + (ω0² − ω²)²). |
| NotchBandwidth.Mag2Parts | Grafics/Rejeita_Faixa.py:51-54 | ‖H‖² = n/(b + n), with n = (ω0² − ω²)² and b = ((ω0/Q)ω)², where b + n > 0. |
| NotchBandwidth.NullAtResonance | Grafics/Rejeita_Faixa.py:43 | ‖H(jω0)‖² = 0: the zeros sit at ±jω0. |
| NotchBandwidth.Mag2AtMostOne | Grafics/Rejeita_Faixa.py:56 | ‖H‖² ≤ 1 at every ω, with equality exactly at ω = 0. So the gain at 1e-6 used as H_max lies strictly below the supremum 1, never on it. For small ω0 it can be far below 1. |
| NotchBandwidth.ComplementsBandPass | Grafics/Rejeita_Faixa.py:43-44 | For positive R, L and C, the notch and the band-pass of the same components have powers summing to 1 at every ω. |
| NotchBandwidth.Mag2DecreasingBelow | Grafics/Rejeita_Faixa.py:60 | ‖H‖² is strictly decreasing on [0, ω0], so the lower bracket holds at most one crossing. |
| NotchBandwidth.Mag2IncreasingAbove | Grafics/Rejeita_Faixa.py:61 | ‖H‖² is strictly increasing on [ω0, ∞), so the upper bracket holds at most one crossing. |
| NotchBandwidth.SignChange | Grafics/Rejeita_Faixa.py:60-61 | The bracket condition of `brentq`: ‖H‖² − target² does not have the same strict sign at both ends. |
| NotchBandwidth.SignChangeOfMagnitudes | Grafics/Rejeita_Faixa.py:57-61 | With f = ‖H‖ − target, the test `brentq` applies before raising ValueError, f(lo)·f(hi) ≤ 0, holds exactly when SignChange holds of the squares. |
| NotchBandwidth.BracketsValid | Grafics/Rejeita_Faixa.py:60-61 | For the ideal level 1/2, ‖H‖² − 1/2 changes sign over [ω0/10, ω0], and over [ω0, 10·ω0], each exactly when 99·Q ≥ 10. For the script's own target only sufficiency is proved (NotchBandwidth.BracketsValidForMeasuredTarget), and NotchBandwidth.MeasuredBracketsBelowThreshold shows that it is not necessary. |
| NotchBandwidth.LowerBracketEnd | Grafics/Rejeita_Faixa.py:60 | ‖H(jω0/10)‖² ≥ 1/2 exactly when 99·Q ≥ 10. |
| NotchBandwidth.UpperBracketEnd | Grafics/Rejeita_Faixa.py:61 | ‖H(j10ω0)‖² ≥ 1/2 exactly when 99·Q ≥ 10. |
| NotchBandwidth.CrossingCondition | Grafics/Rejeita_Faixa.py:60-61 | The bracket-end inequality reduces to 99·Q ≥ 10. |
| NotchBandwidth.HalfLevelSign | Grafics/Rejeita_Faixa.py:57 | x²/(y² + x²) ≥ 1/2 exactly when x ≥ y, for positive x and y. |
| NotchBandwidth.BracketsValidForMeasuredTarget | Grafics/Rejeita_Faixa.py:56-61 | With the script's own target ‖H(j·1e-6)‖²/2, 99·Q ≥ 10 is enough for both brackets to contain a sign change. |
| NotchBandwidth.BracketEndsEqual | Grafics/Rejeita_Faixa.py:60-61 | The gain is the same at the two outer bracket ends ω0/10 and 10·ω0. |
| NotchBandwidth.ScaledFraction | Grafics/Rejeita_Faixa.py:51-54 | n/(b + n) is unchanged when n and b are scaled by the same k > 0. |
| NotchBandwidth.MeasuredBracketsBelowThreshold | Grafics/Rejeita_Faixa.py:56-61 | With ω0 = 1e-5 and any Q > 0, both brackets contain a sign change of the script's target ‖H(j·1e-6)‖²/2. When 99·Q < 10, neither contains one of the level 1/2. |
| NotchBandwidth.ThresholdCounterexampleComponents | Grafics/Rejeita_Faixa.py:38-40 | R = 100 and L = C = 1e5 give ω0 = 1e-5, BW = 1e-3 and Q = 0.01, so 99·Q < 10. |
| NotchBandwidth.HalfPowerPoints | Grafics/Rejeita_Faixa.py:60-61 | The points √((BW/2)² + ω0²) ∓ BW/2 are BW apart and multiply to ω0². |
| NotchBandwidth.HalfPowerAtPoints | Grafics/Rejeita_Faixa.py:60-61 | 0 < ωc1 < ω0 < ωc2, and ‖H‖² = 1/2 at both points. |
| NotchBandwidth.HalfPowerWhere | Grafics/Rejeita_Faixa.py:57-61 | ‖H‖² = 1/2 exactly when (ω0² − ω²)² = ((ω0/Q)ω)². |
| NotchBandwidth.RootBelowIsLowerCutoff | Grafics/Rejeita_Faixa.py:60 | A crossing of the ideal half-power level ‖H‖² = 1/2 in [0, ω0] is the closed-form ωc1. |
| NotchBandwidth.RootAboveIsUpperCutoff | Grafics/Rejeita_Faixa.py:61 | A crossing of the ideal half-power level ‖H‖² = 1/2 in [ω0, ∞) is the closed-form ωc2. |
| NotchBandwidth.MeasuredTargetBelowHalf | Grafics/Rejeita_Faixa.py:56-57 | The script's target ‖H(j·1e-6)‖²/2 lies in [0, 1/2), strictly below the ideal level. |
| NotchBandwidth.MeasuredRootBelow | Grafics/Rejeita_Faixa.py:56-60 | A crossing of the measured target in [0, ω0], which is what `brentq` returns, lies strictly between ωc1 and ω0 (ω0 included). It is never ωc1 itself. |
| NotchBandwidth.MeasuredRootAbove | Grafics/Rejeita_Faixa.py:56-61 | A crossing of the measured target in [ω0, ∞) lies in [ω0, ωc2). It is never ωc2 itself. |
| NotchBandwidth.MeasuredBandNarrower | Grafics/Rejeita_Faixa.py:56-61 | The distance between the two measured roots, drawn at lines 86-88 and labelled BW, is strictly less than BW = ω0/Q. |
| NotchBandwidth.CutoffsMatchBandPass | Grafics/Rejeita_Faixa.py:60-61 | The notch's half-power points are exactly the band-pass cut-offs of the same R, L and C. |
| NotchBandwidth.SweepNormalization | Grafics/Rejeita_Faixa.py:67-71 | ω0/100 < ω0 < 100·ω0 and H is defined on the sweep. The maximum is positive, and normalised values lie in [0, 1] with one of them 1. A sample at ω0 normalises to 0. |
| NotchQuality.Quality | Grafics/Rejeita-Faixa.py:35 | Q = √(L/C)/R satisfies Q·R = √(L/C) and Q²·R²·C = L. For L ≠ 0, Q > 0 exactly when R > 0. |
| NotchQuality.TransferOf | Grafics/Rejeita-Faixa.py:37-39 | The denominator has three coefficients, and the square of its middle one times L² is R². |
| NotchQuality.DampingFromComponents | Grafics/Rejeita-Faixa.py:34-38 | Q ≠ 0, and (ω0/Q)²·L² = R². |
| NotchQuality.SameFilterAsBandwidthDesign | Grafics/Rejeita-Faixa.py:34-39 | For positive R, L and C, this Q equals ω0/(R/L) and the filter equals the one built from BW = R/L. Also ω0/Q = R/L. |
| NotchQuality.HalfInverse | Grafics/Rejeita-Faixa.py:42 | p = 1/(2Q) satisfies p·2Q = 1, and p > 0 when Q > 0. |
| NotchQuality.ApproxRadicand | Grafics/Rejeita-Faixa.py:42 | 1 + 1/(2Q²) equals 1 + 2·(1/(2Q))². |
| NotchQuality.ApproxRadicandAlgebra | Grafics/Rejeita-Faixa.py:42 | 1/(2Q²) = 2·(1/(2Q))². |
| NotchQuality.ApproxCutoffs | Grafics/Rejeita-Faixa.py:42-43 | The approximate band is ω0/Q wide. Its edges multiply to ω0²·(1 + 1/(4Q²)), not to ω0². |
| NotchQuality.EdgeAlgebra | Grafics/Rejeita-Faixa.py:42-43 | ω0(t + p) − ω0(t − p) = ω0/Q, and the product is ω0²(t² − p²). |
| NotchQuality.ApproxWidth | Grafics/Rejeita-Faixa.py:42-43 | For positive R, L and C, the approximate band is R/L wide. |
| NotchQuality.ApproxOrdering | Grafics/Rejeita-Faixa.py:42-43 | ωc1 > 0 and ωc2 > ω0 for every Q > 0. ωc1 < ω0 holds exactly when Q > 1/4. |
| NotchQuality.LowerEdgeBelowOne | Grafics/Rejeita-Faixa.py:42 | t − p < 1 exactly when Q > 1/4. |
| NotchQuality.ApproxMissesHalfPower | Grafics/Rejeita-Faixa.py:42-43 | For every ω0 > 0 and Q > 0, ‖H‖² ≠ 1/2 at both approximate edges. |
| NotchQuality.HalfEquationAt | Grafics/Rejeita-Faixa.py:37-38 | ‖H(jω0z)‖² = 1/2 forces 1 − z² = ±2pz. |
| NotchQuality.EdgeEquationFails | Grafics/Rejeita-Faixa.py:42-43 | With t² = 1 + 2p² and z = t ± p, 1 − z² is neither 2pz nor −2pz. |
| NotchQuality.NotHalfAt | Grafics/Rejeita-Faixa.py:42-43 | ‖H‖² ≠ 1/2 at ω0·(t ± p). |
| NotchQuality.DampingInUnits | Grafics/Rejeita-Faixa.py:38 | ω0/Q = 2p·ω0. |
| NotchQuality.ApproxCounterexample | Grafics/Rejeita-Faixa.py:42-43 | R = 4, L = 1, C = 1 give Q = 1/4, ω0 = 1 and t = 3. There the approximate ωc1 lands on ω0, where ‖H‖² = 0. |
| NotchQuality.ExactCutoffs | Grafics/Rejeita-Faixa.py:42-43 | The corrected edges ω0·(√(1 + 1/(4Q²)) ∓ 1/(2Q)) are ω0/Q apart and multiply to ω0². |
| NotchQuality.ExactCutoffsHalfPower | Grafics/Rejeita-Faixa.py:42-43 | The corrected edges satisfy 0 < ωc1 < ω0 < ωc2, and ‖H‖² = 1/2 at both. |
| NotchQuality.SweepNormalization | Grafics/Rejeita-Faixa.py:51-55 | Over ω0/100 .. 100·ω0, normalised values lie in [0, 1] with one of them 1. A sample at ω0 normalises to 0. |

## Left out

- Circuit drawing with schemdraw, all matplotlib plotting, and the printed summaries are display and file output only. This includes the sign flip of the phase labels in Grafics/Passa-faixa.py.
- Graphics/interface.py is a Tk form and dispatcher. Passa_alta, which it imports, is not part of this model.
- Filters/test.py calls `scipy.signal.butter`, and Filters/test2.py runs a PySpice simulation. Both are foreign library calls.
- `step`, `impulse` and `lsim` integrate differential equations inside SciPy, so they are left out.
- Phase (`np.angle`, the phase output of `bode`) is left out. It needs arctangents.
- Floating point is not modelled. The model uses exact reals. The properties assume positive R, L and C wherever the source's formulas need them.
- Zero components are an error path the model excludes by its requires clauses. Graphics/interface.py:13-17 passes Python floats, so `1.0 / (R * C)` (Grafics/Passa_baixa.py:12) and `R / L` (Graphics/Passa_faixa.py:33, Grafics/Rejeita_Faixa.py:39) raise ZeroDivisionError. Graphics/interface.py:27 catches only ValueError, so that exception ends the callback. Negative components reach `np.sqrt` and give NaN. Neither path is modelled.
- Invalid `brentq` brackets are modelled only as the predicate NotchBandwidth.SignChange being false. In the source, `brentq` raises ValueError there. Graphics/interface.py:27 catches it and prints the message for non-numeric input, which is misleading. That control flow is not modelled.
- Transfer.Mag2: the dB round trip `10**(mag_db/20)` and the final square root of ‖H‖ are not modelled. All magnitude statements are about ‖H‖², and Normalization.NormalizeSquares carries normalisation across.
- Transfer.IsSweep: `np.logspace` is abstracted to a strictly increasing grid with the given endpoints. Its exact points and its 2000 or 4000 point count are not modelled.
- `np.sqrt` is a witness parameter (`s >= 0.0 && Sq(s) == radicand`), not a computed function.
- The internals of `brentq` are left out. Its result is modelled as any root of ‖H‖² = target inside its bracket. For the script's measured target, NotchBandwidth.MeasuredRootBelow and NotchBandwidth.MeasuredRootAbove place that root strictly inside (ωc1, ωc2). Its exact value is not derived.
- NotchBandwidth.RootBelowIsLowerCutoff: holds for the ideal level ‖H‖² = 1/2, not for the script's target ‖H(j·1e-6)‖²/2. That target lies strictly below 1/2 (NotchBandwidth.MeasuredTargetBelowHalf), so the value `brentq` returns is not the closed-form ωc1 even in exact arithmetic. It lies strictly above ωc1 (NotchBandwidth.MeasuredRootBelow).
- NotchBandwidth.RootAboveIsUpperCutoff: holds for the ideal level ‖H‖² = 1/2, not for the script's target ‖H(j·1e-6)‖²/2. The value `brentq` returns lies strictly below the closed-form ωc2 (NotchBandwidth.MeasuredRootAbove).
- NotchBandwidth.BracketsValidForMeasuredTarget: for the script's measured target ‖H(j·1e-6)‖/√2, the model proves only that 99·Q ≥ 10 is sufficient for valid brackets. The exact threshold for that target is not derived. For the ideal target 1/2, NotchBandwidth.BracketsValid gives the if-and-only-if.
- The 0.707 level of the band segment in the band-pass scripts, and the 1/√2 level line in Grafics/Rejeita_Faixa.py, are drawing constants. They are modelled as the exact half-power level ‖H‖² = 1/2.
- BandPass.SweepNormalization: it holds for any nonempty set of positive frequencies, not only the plotted sweep. It does not say which sample is the largest, only that the largest is 1 exactly when ω0 is sampled.

## Findings

| source | as written | input that shows it | evidently intended | confidence | as-written member | corrected member |
|---|---|---|---|---|---|---|
| Grafics/Rejeita-Faixa.py:42-43 | Cut-offs ω0·(√(1 + 1/(2Q²)) ∓ 1/(2Q)), with 1/(2Q²) under the root. The width ω0/Q is right, but the edges multiply to ω0²(1 + 1/(4Q²)). For any Q > 0, neither edge is a half-power point. | R = 4, L = 1, C = 1 give Q = 1/4 and ω0 = 1, so the lower "cut-off" is 3 − 2 = 1 = ω0. There the notch passes nothing. | The −3 dB points of this notch, ω0·(√(1 + 1/(4Q²)) ∓ 1/(2Q)). These are the band-pass cut-offs of the same R, L and C. | medium (the code calls the formula approximate, but no Q makes it exact), not executed | NotchQuality.ApproxMissesHalfPower, NotchQuality.ApproxCounterexample | NotchQuality.ExactCutoffs, NotchQuality.ExactCutoffsHalfPower |
