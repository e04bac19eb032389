# Convection velocity between two remote microphone probes

This project models `RMP_ConvectionVelocityCalculator`. The class estimates the
convection velocity of wall-pressure fluctuations travelling between two
flush-mounted remote microphone probes. The probes sit at chord positions `x1`
and `x2`, and both signals are sampled at rate `fs`. There are two estimators.

- **Time domain** (`compute_timedomain`):
  1. Subtract each signal's mean.
  2. Take the full cross-correlation of the fluctuations over every lag from
     `-(N2 - 1)` to `N1 - 1`.
  3. Pick the lag of largest `|Rxy|`.
  4. Divide the separation `x2 - x1` by that lag's delay `lag / fs`.
- **Frequency domain** (`compute_freqdomain`):
  1. From the Welch cross- and auto-spectra, compute the magnitude-squared
     coherence of every bin.
  2. Take the last bin whose coherence is at least 0.1 as the cutoff.
  3. Fit a least-squares line to the unwrapped cross-spectral phase over the
     bins `1 .. cutoff - 1`.
  4. Report `(x2 - x1) / slope * 2 pi`.

The model is made of pure functions, because the class is pure. Its constructor
only stores the configuration, which becomes the `Calculator` datatype. Each
method becomes a function returning a `Result`. An empty signal, a zero
sampling rate, a zero peak lag, no coherent bin, a degenerate fit and a zero
slope are explicit error values. For some of these the Python raises; for
others it returns a number (an infinity, a NaN, 0.0 or a minimum-norm fit), as
listed under "Left out". The coherence itself keeps numpy's +infinity and NaN as
values, because the threshold comparison treats them differently.

Files:
- `failures.dfy` holds the error kinds, `Result` and `Option`.
- `sums.dfy` holds finite sums over index ranges and their algebra.
- `correlation.dfy` holds the de-meaning, the full cross-correlation, the lag
  axis, the peak search and the time-domain velocity.
- `spectral.dfy` holds coherence, the cutoff, the fit slice, the closed-form
  degree-1 least-squares fit and the frequency-domain velocity.
- `delay.dfy` holds a signal delayed by whole samples and the proof that its
  cross-correlation with the original has a unique peak at minus the delay.
- `convection.dfy` holds the two estimators and the lemmas that relate their
  runs on related inputs.

Behaviour that follows from the code's details:
- The correlation path accepts signals of unequal length. `scipy.signal.correlate`
  in full mode and `correlation_lags` handle them.
- On equal peak magnitudes the source picks the **last** index, not the first,
  because `max` over `(value, index)` tuples breaks ties by the larger index
  (`Correlation.PeakIndex`). `Correlation.TiedPeakIsNotMirrored` shows the
  consequence: with a tie, swapping the signals does not mirror the peak.
- The coherence threshold 0.1 is a constant, as in the code.
- Equal probe positions are not rejected: the velocity is then 0.
- Exchanging the two probes means swapping both the signals and the positions.
  That leaves the velocity unchanged (`RelabellingKeeps…` lemmas). Swapping only
  the signals negates it (`SwappingSignalsNegates…` lemmas).
- Sign convention: when x2 > x1 and probe 2 receives the pattern later than
  probe 1, both methods give a negative velocity. `scipy.signal.correlate` puts
  the peak at lag -d for a delay of d samples, so the time-domain velocity is
  -(x2 - x1) fs / d (`TimeDomainRecoversDelay`,
  `DelayedPulseGivesNegativeVelocity`). The frequency method returns
  2 pi (x2 - x1) / slope (`FreqDomainRecoversLinearPhase`), and the CSD phase of
  a delay tau has slope -2 pi tau.

## Model

| member | source | states |
|---|---|---|
| Correlation.Mean | compute_RMP_ConvectionVelocity.py:96-98 | the mean times the number of samples is the signal's total |
| Correlation.Demean | compute_RMP_ConvectionVelocity.py:96-98 | the fluctuation signal keeps the signal's length; its meaning is given by the two lemmas below |
| Correlation.DemeanSumsToZero | compute_RMP_ConvectionVelocity.py:96-98 | after the mean is subtracted, the samples sum to zero and their mean is zero |
| Correlation.DemeanKeepsDifferences | compute_RMP_ConvectionVelocity.py:96-98 | subtracting the mean changes no difference between two samples |
| Correlation.DemeanOfZeroSum | compute_RMP_ConvectionVelocity.py:96-98 | a signal that already sums to zero is unchanged by subtracting its mean |
| Correlation.Lags | compute_RMP_ConvectionVelocity.py:103-104 | the lag axis has N1 + N2 - 1 entries, from -(N2 - 1) to N1 - 1 in steps of one |
| Correlation.CrossCorrelation | compute_RMP_ConvectionVelocity.py:100-101 | one value per lag of the axis; entry k is the sum over i of a[i] * b[i - lag_k], with out-of-range samples as zero |
| Correlation.CorrAtZeroLagIsDot | compute_RMP_ConvectionVelocity.py:100-101 | for equal lengths, the correlation at lag 0 equals the dot product, an independent reference definition |
| Correlation.ZeroLagIsDot | compute_RMP_ConvectionVelocity.py:100-104 | for equal lengths, lag 0 sits at index N - 1 of the axis, and the correlation there is the dot product |
| Correlation.CorrSwap | compute_RMP_ConvectionVelocity.py:100-101 | correlating b with a at -lag gives the correlation of a with b at lag |
| Correlation.CrossCorrelationSwapAt | compute_RMP_ConvectionVelocity.py:100-101 | entry k of the swapped correlation is entry N1 + N2 - 2 - k of the original one |
| Correlation.CrossCorrelationSwap | compute_RMP_ConvectionVelocity.py:100-101 | swapping the signals reverses the correlation sequence |
| Correlation.LagsSwap | compute_RMP_ConvectionVelocity.py:103-104 | swapping the lengths mirrors the lag axis and negates it |
| Correlation.PeakIndex | compute_RMP_ConvectionVelocity.py:106-107 | the index holds the largest absolute correlation, and every later index has a strictly smaller one (ties go to the last index) |
| Correlation.PeakIndexIsLastPeak | compute_RMP_ConvectionVelocity.py:106-107 | an index has the last-largest-magnitude property if and only if it is the one the search returns |
| Correlation.UniquePeakOfReversed | compute_RMP_ConvectionVelocity.py:106-107 | a unique peak is found, and in the reversed sequence it is found at the mirrored index |
| Correlation.TiedPeakIsNotMirrored | compute_RMP_ConvectionVelocity.py:106-107 | on the tied sequence [1, -1], the search returns index 1 both for it and for its reverse |
| Correlation.PeakLag | compute_RMP_ConvectionVelocity.py:106-108 | the lag at the peak lies within -(N2 - 1) .. N1 - 1 |
| Correlation.PeakLagSwap | compute_RMP_ConvectionVelocity.py:96-108 | with a unique peak, swapping the signals negates the peak lag |
| Correlation.TimeVelocity | compute_RMP_ConvectionVelocity.py:109-112 | fails if and only if fs or the lag is zero, with the matching error; otherwise velocity * (lag / fs) = x2 - x1 |
| Correlation.TimeVelocityUnderNegation | compute_RMP_ConvectionVelocity.py:109-112 | negating the lag negates the velocity; negating the separation as well restores it |
| Correlation.DelayVelocity | compute_RMP_ConvectionVelocity.py:109-112 | the velocity -(x2 - x1) fs / d of a pattern delayed by d samples is negative when x2 > x1 and fs > 0 |
| Correlation.TimeVelocityOfDelay | compute_RMP_ConvectionVelocity.py:109-112 | with a nonzero rate, a peak at lag -d gives exactly the velocity -(x2 - x1) fs / d |
| Delay.CorrOfDelayed | compute_RMP_ConvectionVelocity.py:100-101 | correlating a signal with its copy delayed by d samples, at a lag, gives the signal's autocorrelation at lag + d |
| Delay.EnergyPositive | compute_RMP_ConvectionVelocity.py:100-101 | a signal with a nonzero sample has a positive correlation with itself at lag 0 |
| Delay.AutocorrelationPeaksAtZero | compute_RMP_ConvectionVelocity.py:100-101 | at every nonzero lag the autocorrelation of a nonzero signal is strictly smaller in magnitude than at lag 0 |
| Delay.DelayedPeak | compute_RMP_ConvectionVelocity.py:100-107 | the correlation of a nonzero signal with its copy delayed by d samples (none cut off) has a unique largest magnitude, at the index whose lag is -d, and the search returns that index |
| Delay.PeakLagOfDelayed | compute_RMP_ConvectionVelocity.py:96-108 | when the fluctuations of probe 2 are those of probe 1 delayed by d samples, the peak is unique and the peak lag is -d |
| ConvectionVelocity.NewCalculator | compute_RMP_ConvectionVelocity.py:22-34 | the constructor stores both signals, both positions and the rate as given, and checks none of them |
| ConvectionVelocity.TimeDomain | compute_RMP_ConvectionVelocity.py:87-117 | an empty signal, a zero rate and a zero peak lag are each an error exactly when they occur; otherwise the result holds the de-meaned full correlation, the lag axis, the last peak, and a velocity equal to the separation over the peak's delay |
| ConvectionVelocity.VelocityOfPeakLag | compute_RMP_ConvectionVelocity.py:106-112 | a peak lag of -d with a nonzero rate makes the time-domain method succeed with velocity -(x2 - x1) fs / d |
| ConvectionVelocity.TimeDomainRecoversDelay | compute_RMP_ConvectionVelocity.py:87-117 | when probe 2 records probe 1's fluctuations delayed by d > 0 samples, the method succeeds with a unique peak at lag -d and velocity -(x2 - x1) fs / d |
| ConvectionVelocity.DelayedPulseGivesNegativeVelocity | compute_RMP_ConvectionVelocity.py:87-117 | signals [1, -1, 0] and [0, 1, -1] at x1 = 0, x2 = 1, fs = 1 give the lag -1 and the velocity -1 |
| ConvectionVelocity.SwappingSignalsNegatesTimeDomainVelocity | compute_RMP_ConvectionVelocity.py:87-112 | with a unique peak, exchanging the signals but not the positions still succeeds and negates the velocity |
| ConvectionVelocity.RelabellingKeepsTimeDomainVelocity | compute_RMP_ConvectionVelocity.py:22-34 | with a unique peak, exchanging the probes (signals and positions together) still succeeds and keeps the velocity |
| Spectral.CoherenceOf | compute_RMP_ConvectionVelocity.py:66 | \|Pxy\|^2 / (Pxx Pyy) is finite if and only if the denominator is nonzero, and then times the denominator it gives \|Pxy\|^2; it is NaN if and only if 0/0; it is non-negative for positive spectra, and at most 1 when \|Pxy\|^2 <= Pxx Pyy |
| Spectral.Coherences | compute_RMP_ConvectionVelocity.py:66 | one coherence per frequency bin, computed from that bin's spectra |
| Spectral.Swapped | compute_RMP_ConvectionVelocity.py:47-65 | the spectra of the signals in the other order: the same axis, the CSD conjugated, the auto-spectra exchanged, the phase negated |
| Spectral.CoherencesOfSwapped | compute_RMP_ConvectionVelocity.py:66 | coherence is symmetric in the two probes |
| Spectral.MeetsOfCoherence | compute_RMP_ConvectionVelocity.py:66-69 | with positive Pxx Pyy a bin passes exactly when \|Pxy\|^2 >= 0.1 Pxx Pyy; with negative Pxx Pyy it never passes; with zero Pxx Pyy it passes exactly when Pxy is nonzero (infinity passes, NaN does not) |
| Spectral.CoherentIndices | compute_RMP_ConvectionVelocity.py:69 | exactly the bins whose coherence is at least 0.1, in increasing order |
| Spectral.Cutoff | compute_RMP_ConvectionVelocity.py:69-70 | none if and only if no bin meets the threshold; otherwise a bin that meets it, after which none does |
| Spectral.CutoffOfDecayingCoherence | compute_RMP_ConvectionVelocity.py:68-70 | on a coherence above the threshold up to bin k and below it afterwards, the cutoff is k |
| Spectral.CutoffSkipsDip | compute_RMP_ConvectionVelocity.py:68-70 | a bin that recovers after a dip moves the cutoff past the dip: [0.5, 0.05, 0.5] gives 2 |
| Spectral.FitRange | compute_RMP_ConvectionVelocity.py:73-74 | the slice [1:cut]: max(cut - 1, 0) elements, element j being element j + 1 of the input |
| Spectral.FitFromSums | compute_RMP_ConvectionVelocity.py:74 | the closed-form fit fails, as a degenerate fit, if and only if there are no points or the determinant of the normal equations is zero |
| Spectral.FitFromSumsSolvesNormalEquations | compute_RMP_ConvectionVelocity.py:74 | the closed-form line solves both normal equations of least squares |
| Spectral.LineFit | compute_RMP_ConvectionVelocity.py:74 | the degree-1 fit fails if and only if the frequencies' determinant is zero |
| Spectral.LineFitNormalEquations | compute_RMP_ConvectionVelocity.py:74 | the fitted line satisfies the normal equations on the data |
| Spectral.ResidualsSumToZero | compute_RMP_ConvectionVelocity.py:74 | a line satisfying the first normal equation leaves residuals summing to zero |
| Spectral.ResidualsOrthogonalToFrequencies | compute_RMP_ConvectionVelocity.py:74 | a line satisfying the second normal equation leaves residuals orthogonal to the frequencies |
| Spectral.OrthogonalResidualsMinimise | compute_RMP_ConvectionVelocity.py:74 | such a line has no larger squared error than any other line |
| Spectral.LineFitIsLeastSquares | compute_RMP_ConvectionVelocity.py:74 | no line has a smaller sum of squared residuals than the fitted one |
| Spectral.LineFitIsLeastSquaresEverywhere | compute_RMP_ConvectionVelocity.py:74 | when the fit exists, its squared error is at most that of every line |
| Spectral.FitOfLinearSums | compute_RMP_ConvectionVelocity.py:74 | sums describing points on s * x + c give back the line (s, c) |
| Spectral.LineFitRecoversExactLine | compute_RMP_ConvectionVelocity.py:74 | points lying exactly on a line are fitted by that line |
| Spectral.FitOfAffineSums | compute_RMP_ConvectionVelocity.py:74 | mapping y to q * y + k multiplies the closed-form slope by q and maps the intercept the same way |
| Spectral.LineFitAffine | compute_RMP_ConvectionVelocity.py:74 | mapping every phase value to q * y + k keeps the fit defined, scales its slope by q and maps its intercept to q * c + k |
| Spectral.FreqVelocity | compute_RMP_ConvectionVelocity.py:77 | fails if and only if the slope is zero; otherwise velocity * slope = 2 pi (x2 - x1) |
| Spectral.FreqVelocityUnderNegation | compute_RMP_ConvectionVelocity.py:77 | negating the slope negates the velocity; negating the separation as well restores it |
| Spectral.FreqVelocityOfLinearPhase | compute_RMP_ConvectionVelocity.py:77 | a phase slope of 2 pi (x2 - x1) / u gives back the velocity u |
| ConvectionVelocity.FreqDomain | compute_RMP_ConvectionVelocity.py:37-84 | fails with insufficient coherence if and only if no bin reaches 0.1; succeeds if and only if a cutoff exists and the phase line over bins 1 .. cutoff - 1 exists with a nonzero slope; the result keeps the axis and CSD, holds every bin's coherence, the last coherent bin, that phase line, and the velocity of its slope; when a cutoff exists, a failure is a degenerate fit if the phase line does not exist and a zero slope otherwise |
| ConvectionVelocity.PhaseLine | compute_RMP_ConvectionVelocity.py:72-74 | the fit over the slices [1:cut] of frequency and phase fails, as a degenerate fit, exactly when the frequencies' determinant is zero; otherwise no line has a smaller squared error on those slices |
| ConvectionVelocity.FreqDomainFromParts | compute_RMP_ConvectionVelocity.py:68-77 | given the cutoff and a phase line over it with a nonzero slope, the method succeeds with that cutoff and line, and with that slope's velocity |
| ConvectionVelocity.PhaseLineOfSwapped | compute_RMP_ConvectionVelocity.py:73-74 | the phase line of the swapped spectra has the opposite slope |
| ConvectionVelocity.SwappingSignalsNegatesFreqDomainVelocity | compute_RMP_ConvectionVelocity.py:37-84 | exchanging the signals but not the positions still succeeds, negating the slope and the velocity |
| ConvectionVelocity.RelabellingKeepsFreqDomainVelocity | compute_RMP_ConvectionVelocity.py:22-34 | exchanging the probes (signals and positions together) still succeeds with the same velocity |
| ConvectionVelocity.PhaseLineOfShifted | compute_RMP_ConvectionVelocity.py:73-74 | adding a constant to the unwrapped phase keeps the fit defined and its slope unchanged |
| ConvectionVelocity.FreqDomainPhaseOffsetInvariant | compute_RMP_ConvectionVelocity.py:73-77 | the frequency-domain slope and velocity do not depend on a constant phase offset, such as a multiple of 2 pi chosen by the unwrapping |
| ConvectionVelocity.FreqDomainRecoversLinearPhase | compute_RMP_ConvectionVelocity.py:37-84 | a phase exactly linear with slope 2 pi (x2 - x1) / u, over a non-degenerate fit range, gives back that line and the velocity u |

## Left out

- The Welch and cross-spectral density estimates (`signal.csd`, `signal.welch`, lines 47-65) are not modelled. `FreqDomain` takes the resulting spectra as an input (`Spectra`). Windowing, FFT and averaging are floating-point numerics outside the model, so `N_window` and `N_overlap` have no counterpart.
- `np.angle` and `np.unwrap` (lines 73-74) are not modelled. The unwrapped phase is an input over the whole axis. The source unwraps only the slice, and the two can differ by a constant multiple of 2 pi; `FreqDomainPhaseOffsetInvariant` shows that this constant does not change the slope or the velocity.
- Floating-point rounding is not modelled: arithmetic is over exact reals. `Pi` is the exact value of the double `np.pi`.
- TimeVelocity: the source divides as numpy floats and does not raise. With fs = 0 and a nonzero lag, `timeDiff` is an infinity and the velocity comes out as 0.0. With a zero lag the velocity is an infinity, or NaN when x2 = x1 or fs = 0 as well. Here these cases are explicit `ZeroSamplingRate` and `ZeroLag` errors.
- FreqVelocity: a zero slope yields an infinity or NaN in the source. Here it is a `ZeroSlope` error.
- TimeDomain: the source fails inside numpy/scipy on an empty signal (the mean of an empty array is NaN, and correlating an empty array raises). Here that is an `EmptySignal` error.
- LineFit: `np.polyfit` raises on an empty range, but on one point or on equal frequencies it returns a minimum-norm solution with a warning. The model reports `DegenerateFit` for all of these.
- CoherenceOf: the bound coherence <= 1 is proved only under `|Pxy|^2 <= Pxx * Pyy`. That inequality holds for Welch estimates, which are not modelled.
- TimeDomainRecoversDelay: stated for a delay of whole samples, with every nonzero fluctuation of probe 1 arriving within probe 2's record. A fractional delay or a pattern cut off by the end of the record is not covered.
- SwappingSignalsNegatesTimeDomainVelocity: the result holds only when the correlation peak is unique. `TiedPeakIsNotMirrored` shows that with a tie the swapped run need not pick the mirrored lag.
- RelabellingKeepsTimeDomainVelocity: also holds only when the correlation peak is unique, for the same reason.
- SwappingSignalsNegatesFreqDomainVelocity: stated for the spectra `Swapped(s)`. That relies on two facts the model does not derive:
  - the cross-spectrum of the reversed pair is the conjugate;
  - unwrapping a negated phase gives the negated unwrapped phase. In exact arithmetic np.unwrap commutes with negation, because numpy gives a jump of exactly ±pi the jump's own sign; only floating-point rounding, which is not modelled, can break it.
- RelabellingKeepsFreqDomainVelocity: stated for `Swapped(s)` for the same reason.
- The plotting methods (`plot_freqdomain`, `plot_timedomain`, from line 120) and the example driver script are not modelled. The plotting dictionaries are kept as the `CorrelationEstimate` and `SpectralEstimate` results.
