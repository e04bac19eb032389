/** RMP_ConvectionVelocityCalculator: the convection velocity of pressure
    fluctuations between two remote microphone probes at chord positions x1 and
    x2, by the cross-spectral phase fit and by the cross-correlation lag. */
module ConvectionVelocity {
  import opened Failures
  import opened Correlation
  import opened Spectral
  import opened Delay
  import opened Sums

  /** The calculator's configuration, fixed at construction: the two probe
      signals, the probes' chord positions (m) and the sampling rate (Hz). */
  datatype Calculator = Calculator(data1: seq<real>, data2: seq<real>, x1: real, x2: real, fs: real)

  /** What the time-domain method returns: the correlation and its lag axis
      (the plotting payload), the index of the peak, and the velocity. */
  datatype CorrelationEstimate = CorrelationEstimate(rxy: seq<real>, lags: seq<int>, peak: nat, velocity: real)

  /** What the frequency-domain method returns: the frequency axis, the CSD, the
      coherence, the cutoff index, the fitted phase line, and the velocity. */
  datatype SpectralEstimate = SpectralEstimate(freq: seq<real>, csd: seq<Complex>, coherence: seq<Coherence>,
                                               cutoff: nat, fit: Line, velocity: real)

  /** The constructor: it stores the signals, positions and rate as given and
      checks none of them; an empty signal or a zero rate surfaces only when a
      method runs. */
  function NewCalculator(data1: seq<real>, data2: seq<real>, x1: real, x2: real, fs: real): (c: Calculator)
    ensures c.data1 == data1 && c.data2 == data2
    ensures c.x1 == x1 && c.x2 == x2 && c.fs == fs
  {
    Calculator(data1, data2, x1, x2, fs)
  }

  /** The probes swapped: signals and positions exchange their roles. */
  function Relabelled(c: Calculator): Calculator
  {
    Calculator(c.data2, c.data1, c.x2, c.x1, c.fs)
  }

  /** Only the two signals swapped, the positions kept. */
  function SignalsSwapped(c: Calculator): Calculator
  {
    Calculator(c.data2, c.data1, c.x1, c.x2, c.fs)
  }

  /** The time-domain method: remove each signal's mean, correlate the
      fluctuations over every lag, take the lag of largest |Rxy| (the last one on
      a tie), and divide the probe separation by that lag's delay. */
  function TimeDomain(c: Calculator): (r: Result<CorrelationEstimate>)
    ensures (|c.data1| == 0 || |c.data2| == 0) <==> r.Err? && r.error == EmptySignal
    ensures r.Ok? ==>
      && |c.data1| > 0 && |c.data2| > 0
      && r.value.rxy == CrossCorrelation(Demean(c.data1), Demean(c.data2))
      && r.value.lags == Lags(|c.data1|, |c.data2|)
      && IsLastPeak(r.value.rxy, r.value.peak)
      && r.value.lags[r.value.peak] == PeakLag(c.data1, c.data2)
      && TimeVelocity(c.x2 - c.x1, r.value.lags[r.value.peak], c.fs) == Ok(r.value.velocity)
    ensures r.Ok? <==> |c.data1| > 0 && |c.data2| > 0 && c.fs != 0.0 && PeakLag(c.data1, c.data2) != 0
    ensures r.Err? && r.error == ZeroSamplingRate <==> |c.data1| > 0 && |c.data2| > 0 && c.fs == 0.0
    ensures r.Err? && r.error == ZeroLag <==>
      |c.data1| > 0 && |c.data2| > 0 && c.fs != 0.0 && PeakLag(c.data1, c.data2) == 0
  {
    if |c.data1| == 0 || |c.data2| == 0 then Err(EmptySignal)
    else
      var rxy := CrossCorrelation(Demean(c.data1), Demean(c.data2));
      var lags := Lags(|c.data1|, |c.data2|);
      var peak := PeakIndex(rxy);
      PeakIndexIsLastPeak(rxy, peak);
      match TimeVelocity(c.x2 - c.x1, lags[peak], c.fs)
      case Err(e) => Err(e)
      case Ok(v) => Ok(CorrelationEstimate(rxy, lags, peak, v))
  }

  /** The least-squares line through the unwrapped phase over bins 1 .. cut - 1. */
  function PhaseLine(s: Spectra, cut: nat): (r: Result<Line>)
    requires s.Aligned() && cut <= |s.freq|
    ensures r.Err? <==> FitDenominator(FitRange(s.freq, cut)) == 0.0
    ensures r.Err? ==> r.error == DegenerateFit
    ensures r.Ok? ==> forall m: Line ::
      SquaredError(FitRange(s.freq, cut), FitRange(s.phase, cut), r.value)
        <= SquaredError(FitRange(s.freq, cut), FitRange(s.phase, cut), m)
  {
    LineFitIsLeastSquaresEverywhere(FitRange(s.freq, cut), FitRange(s.phase, cut));
    LineFit(FitRange(s.freq, cut), FitRange(s.phase, cut))
  }

  /** The frequency-domain method on the Welch spectra of the two signals:
      coherence per bin, the cutoff at the last bin whose coherence reaches 0.1,
      a least-squares line through the unwrapped phase over bins 1 .. cutoff - 1,
      and the separation over the slope times 2 pi. */
  function FreqDomain(c: Calculator, s: Spectra): (r: Result<SpectralEstimate>)
    requires s.Aligned()
    ensures r.Err? && r.error == InsufficientCoherence <==> forall i :: 0 <= i < |s.freq| ==> !Meets(Coherences(s)[i])
    ensures r.Ok? <==>
      && Cutoff(Coherences(s)).Some?
      && PhaseLine(s, Cutoff(Coherences(s)).value).Ok?
      && PhaseLine(s, Cutoff(Coherences(s)).value).value.slope != 0.0
    ensures r.Ok? ==>
      && r.value.freq == s.freq && r.value.csd == s.csd
      && r.value.coherence == Coherences(s)
      && Cutoff(r.value.coherence) == Some(r.value.cutoff)
      && r.value.cutoff < |s.freq|
      && Meets(r.value.coherence[r.value.cutoff])
      && (forall i :: r.value.cutoff < i < |s.freq| ==> !Meets(r.value.coherence[i]))
      && PhaseLine(s, r.value.cutoff) == Ok(r.value.fit)
      && FreqVelocity(c.x2 - c.x1, r.value.fit.slope) == Ok(r.value.velocity)
    ensures Cutoff(Coherences(s)).Some? && r.Err? ==>
      r.error == if PhaseLine(s, Cutoff(Coherences(s)).value).Err? then DegenerateFit else ZeroSlope
  {
    var g := Coherences(s);
    match Cutoff(g)
    case None => Err(InsufficientCoherence)
    case Some(cut) =>
      match PhaseLine(s, cut)
      case Err(e) => Err(e)
      case Ok(line) =>
        match FreqVelocity(c.x2 - c.x1, line.slope)
        case Err(e) => Err(e)
        case Ok(v) => Ok(SpectralEstimate(s.freq, s.csd, g, cut, line, v))
  }

  /** A time-domain estimate's velocity is the one the peak lag gives; the
      separation, lag and rate are passed in so callers can name them. */
  lemma TimeDomainVelocity(c: Calculator, dx: real, lag: int, fs: real)
    requires TimeDomain(c).Ok? && |c.data1| > 0 && |c.data2| > 0
    requires dx == c.x2 - c.x1 && lag == PeakLag(c.data1, c.data2) && fs == c.fs
    ensures TimeVelocity(dx, lag, fs) == Ok(TimeDomain(c).value.velocity)
  {
  }

  /** When probe 2 records the fluctuations of probe 1 delayed by d > 0 samples,
      all of which arrive before its record ends, the time-domain method finds
      the lag -d, a unique peak, and the velocity -(x2 - x1) * fs / d: a
      downstream probe that receives the pattern later gives a negative value. */
  lemma TimeDomainRecoversDelay(c: Calculator, d: nat)
    requires |c.data1| > 0 && |c.data2| > 0 && c.fs != 0.0 && d > 0
    requires LeadingZeros(Demean(c.data1)) < |c.data1|
    requires ArrivesWithin(Demean(c.data1), d, |c.data2|)
    requires Demean(c.data2) == Delayed(Demean(c.data1), d, |c.data2|)
    ensures TimeDomain(c).Ok?
    ensures TimeDomain(c).value.lags[TimeDomain(c).value.peak] == -(d as int)
    ensures UniquePeak(TimeDomain(c).value.rxy, TimeDomain(c).value.peak)
    ensures TimeDomain(c).value.velocity == DelayVelocity(c.x2 - c.x1, d, c.fs)
  {
    PeakLagOfDelayed(c.data1, c.data2, d);
    var e := TimeDomain(c).value;
    PeakIndexIsLastPeak(e.rxy, e.peak);
    VelocityOfPeakLag(c, d);
  }

  /** A peak lag of -d gives the time-domain velocity -(x2 - x1) * fs / d. */
  lemma VelocityOfPeakLag(c: Calculator, d: nat)
    requires |c.data1| > 0 && |c.data2| > 0 && c.fs != 0.0 && d > 0
    requires PeakLag(c.data1, c.data2) == -(d as int)
    ensures TimeDomain(c).Ok?
    ensures TimeDomain(c).value.velocity == DelayVelocity(c.x2 - c.x1, d, c.fs)
  {
    var lag := -(d as int);
    TimeDomainVelocity(c, c.x2 - c.x1, lag, c.fs);
    TimeVelocityOfDelay(c.x2 - c.x1, d, c.fs, lag);
  }

  /** A pulse +1, -1 at probe 1 that reaches probe 2 one sample later, with the
      probes 1 m apart and fs = 1 Hz: the peak is at lag -1 and the velocity is -1 m/s. */
  lemma DelayedPulseGivesNegativeVelocity()
    ensures var c := Calculator([1.0, -1.0, 0.0], [0.0, 1.0, -1.0], 0.0, 1.0, 1.0);
      && TimeDomain(c).Ok?
      && TimeDomain(c).value.lags[TimeDomain(c).value.peak] == -1
      && TimeDomain(c).value.velocity == -1.0
  {
    var c := Calculator([1.0, -1.0, 0.0], [0.0, 1.0, -1.0], 0.0, 1.0, 1.0);
    var a, b := c.data1, c.data2;
    assert SumRange(Padded(a), 1, 3) == -1.0;
    assert SumRange(Padded(b), 1, 3) == 0.0;
    DemeanOfZeroSum(a);
    DemeanOfZeroSum(b);
    assert LeadingZeros(a) == 0;
    assert Delayed(a, 1, 3) == b;
    TimeDomainRecoversDelay(c, 1);
  }

  /** With a unique correlation peak, exchanging the two signals but not the
      positions reverses the sign of the time-domain velocity. */
  lemma SwappingSignalsNegatesTimeDomainVelocity(c: Calculator)
    requires TimeDomain(c).Ok?
    requires UniquePeak(TimeDomain(c).value.rxy, TimeDomain(c).value.peak)
    ensures TimeDomain(SignalsSwapped(c)).Ok?
    ensures TimeDomain(SignalsSwapped(c)).value.velocity == -TimeDomain(c).value.velocity
  {
    var dx, lag := c.x2 - c.x1, PeakLag(c.data1, c.data2);
    var c' := SignalsSwapped(c);
    assert c'.data1 == c.data2 && c'.data2 == c.data1 && c'.x2 - c'.x1 == dx && c'.fs == c.fs;
    assert TimeDomain(c').Ok? && PeakLag(c'.data1, c'.data2) == -lag by {
      var e := TimeDomain(c).value;
      PeakIndexIsLastPeak(e.rxy, e.peak);
      PeakLagSwap(c.data1, c.data2);
    }
    var ndx, nlag := -dx, -lag;
    TimeDomainVelocity(c, dx, lag, c.fs);
    TimeDomainVelocity(c', dx, nlag, c.fs);
    TimeVelocityUnderNegation(dx, lag, c.fs, ndx, nlag);
  }

  /** With a unique correlation peak, exchanging the probes (signals and
      positions together) leaves the time-domain velocity unchanged. */
  lemma RelabellingKeepsTimeDomainVelocity(c: Calculator)
    requires TimeDomain(c).Ok?
    requires UniquePeak(TimeDomain(c).value.rxy, TimeDomain(c).value.peak)
    ensures TimeDomain(Relabelled(c)).Ok?
    ensures TimeDomain(Relabelled(c)).value.velocity == TimeDomain(c).value.velocity
  {
    var dx, lag := c.x2 - c.x1, PeakLag(c.data1, c.data2);
    var c' := Relabelled(c);
    assert c'.data1 == c.data2 && c'.data2 == c.data1 && c'.x2 - c'.x1 == -dx && c'.fs == c.fs;
    assert TimeDomain(c').Ok? && PeakLag(c'.data1, c'.data2) == -lag by {
      var e := TimeDomain(c).value;
      PeakIndexIsLastPeak(e.rxy, e.peak);
      PeakLagSwap(c.data1, c.data2);
    }
    var ndx, nlag := -dx, -lag;
    TimeDomainVelocity(c, dx, lag, c.fs);
    TimeDomainVelocity(c', ndx, nlag, c.fs);
    TimeVelocityUnderNegation(dx, lag, c.fs, ndx, nlag);
  }

  /** Given the cutoff and a sloped phase line below it, the frequency-domain
      method succeeds with that line, and its velocity is the one the slope
      gives; the separation and cutoff are passed in so callers can name them. */
  lemma FreqDomainFromParts(c: Calculator, s: Spectra, dx: real, cut: nat, slope: real)
    requires s.Aligned() && dx == c.x2 - c.x1 && Cutoff(Coherences(s)) == Some(cut)
    requires PhaseLine(s, cut).Ok? && PhaseLine(s, cut).value.slope == slope && slope != 0.0
    ensures FreqDomain(c, s).Ok? && FreqDomain(c, s).value.cutoff == cut
    ensures FreqDomain(c, s).value.fit == PhaseLine(s, cut).value
    ensures FreqVelocity(dx, slope) == Ok(FreqDomain(c, s).value.velocity)
  {
  }

  /** The swapped spectra's phase line has the opposite slope. */
  lemma PhaseLineOfSwapped(s: Spectra, cut: nat)
    requires s.Aligned() && cut <= |s.freq| && PhaseLine(s, cut).Ok?
    ensures PhaseLine(Swapped(s), cut).Ok?
    ensures PhaseLine(Swapped(s), cut).value.slope == -PhaseLine(s, cut).value.slope
  {
    var s' := Swapped(s);
    var x, y, y' := FitRange(s.freq, cut), FitRange(s.phase, cut), FitRange(s'.phase, cut);
    assert FitRange(s'.freq, cut) == x;
    assert forall j :: 0 <= j < |x| ==> y'[j] == -1.0 * y[j] + 0.0;
    LineFitAffine(x, y, y', -1.0, 0.0);
  }

  /** Exchanging the two signals but not the positions, so that the spectra
      become the swapped ones, negates the fitted slope and the velocity. */
  lemma SwappingSignalsNegatesFreqDomainVelocity(c: Calculator, s: Spectra)
    requires s.Aligned() && FreqDomain(c, s).Ok?
    ensures FreqDomain(SignalsSwapped(c), Swapped(s)).Ok?
    ensures FreqDomain(SignalsSwapped(c), Swapped(s)).value.fit.slope == -FreqDomain(c, s).value.fit.slope
    ensures FreqDomain(SignalsSwapped(c), Swapped(s)).value.velocity == -FreqDomain(c, s).value.velocity
  {
    var e := FreqDomain(c, s).value;
    var cut, c', s' := e.cutoff, SignalsSwapped(c), Swapped(s);
    var dx, slope, nslope := c.x2 - c.x1, e.fit.slope, -e.fit.slope;
    CoherencesOfSwapped(s);
    PhaseLineOfSwapped(s, cut);
    FreqDomainFromParts(c, s, dx, cut, slope);
    FreqDomainFromParts(c', s', dx, cut, nslope);
    FreqVelocityUnderNegation(dx, slope, -dx, nslope);
  }

  /** Exchanging the probes (signals and positions together) leaves the
      frequency-domain velocity unchanged. */
  lemma RelabellingKeepsFreqDomainVelocity(c: Calculator, s: Spectra)
    requires s.Aligned() && FreqDomain(c, s).Ok?
    ensures FreqDomain(Relabelled(c), Swapped(s)).Ok?
    ensures FreqDomain(Relabelled(c), Swapped(s)).value.velocity == FreqDomain(c, s).value.velocity
  {
    var e := FreqDomain(c, s).value;
    var cut, c', s' := e.cutoff, Relabelled(c), Swapped(s);
    var dx, slope := c.x2 - c.x1, e.fit.slope;
    var ndx, nslope := -dx, -slope;
    CoherencesOfSwapped(s);
    PhaseLineOfSwapped(s, cut);
    FreqDomainFromParts(c, s, dx, cut, slope);
    FreqDomainFromParts(c', s', ndx, cut, nslope);
    FreqVelocityUnderNegation(dx, slope, ndx, nslope);
  }

  /** The spectra with a constant k added to the unwrapped phase, as a
      different starting branch of the unwrapping would give. */
  function PhaseShifted(s: Spectra, k: real): (t: Spectra)
    requires s.Aligned()
    ensures t.Aligned() && t.freq == s.freq && t.csd == s.csd && t.pxx == s.pxx && t.pyy == s.pyy
    ensures forall i :: 0 <= i < |t.phase| ==> t.phase[i] == s.phase[i] + k
  {
    s.(phase := seq(|s.phase|, i requires 0 <= i < |s.phase| => s.phase[i] + k))
  }

  /** Shifting the phase by a constant moves only the intercept of the phase line. */
  lemma PhaseLineOfShifted(s: Spectra, k: real, cut: nat)
    requires s.Aligned() && cut <= |s.freq| && PhaseLine(s, cut).Ok?
    ensures PhaseLine(PhaseShifted(s, k), cut).Ok?
    ensures PhaseLine(PhaseShifted(s, k), cut).value.slope == PhaseLine(s, cut).value.slope
  {
    var s' := PhaseShifted(s, k);
    var x, y, y' := FitRange(s.freq, cut), FitRange(s.phase, cut), FitRange(s'.phase, cut);
    assert FitRange(s'.freq, cut) == x;
    assert forall j :: 0 <= j < |x| ==> y'[j] == 1.0 * y[j] + k;
    LineFitAffine(x, y, y', 1.0, k);
  }

  /** The velocity does not depend on the constant offset of the unwrapped phase. */
  lemma FreqDomainPhaseOffsetInvariant(c: Calculator, s: Spectra, k: real)
    requires s.Aligned() && FreqDomain(c, s).Ok?
    ensures FreqDomain(c, PhaseShifted(s, k)).Ok?
    ensures FreqDomain(c, PhaseShifted(s, k)).value.fit.slope == FreqDomain(c, s).value.fit.slope
    ensures FreqDomain(c, PhaseShifted(s, k)).value.velocity == FreqDomain(c, s).value.velocity
  {
    var e := FreqDomain(c, s).value;
    var cut, s' := e.cutoff, PhaseShifted(s, k);
    var dx, slope := c.x2 - c.x1, e.fit.slope;
    assert Coherences(s') == Coherences(s);
    PhaseLineOfShifted(s, k, cut);
    FreqDomainFromParts(c, s, dx, cut, slope);
    FreqDomainFromParts(c, s', dx, cut, slope);
  }

  /** A phase that is exactly linear below the cutoff, with the slope 2 pi dx / u
      of a disturbance convected at u, gives back u and that line. */
  lemma FreqDomainRecoversLinearPhase(c: Calculator, s: Spectra, u: real, phase0: real)
    requires s.Aligned() && c.x2 != c.x1 && u != 0.0
    requires Cutoff(Coherences(s)).Some?
    requires FitDenominator(FitRange(s.freq, Cutoff(Coherences(s)).value)) != 0.0
    requires forall i :: 0 <= i < |s.freq| ==> s.phase[i] == 2.0 * Pi * (c.x2 - c.x1) / u * s.freq[i] + phase0
    ensures FreqDomain(c, s).Ok?
    ensures FreqDomain(c, s).value.fit == Line(2.0 * Pi * (c.x2 - c.x1) / u, phase0)
    ensures FreqDomain(c, s).value.velocity == u
  {
    var cut := Cutoff(Coherences(s)).value;
    var dx := c.x2 - c.x1;
    var slope := 2.0 * Pi * dx / u;
    var x, y := FitRange(s.freq, cut), FitRange(s.phase, cut);
    assert forall j :: 0 <= j < |x| ==> y[j] == slope * x[j] + phase0;
    LineFitRecoversExactLine(x, y, slope, phase0);
    FreqVelocityOfLinearPhase(dx, u, slope);
    FreqDomainFromParts(c, s, dx, cut, slope);
  }
}
