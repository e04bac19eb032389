/** The frequency-domain estimator's discrete logic (compute_freqdomain) once
    the Welch spectra exist: coherence per bin, the fit cutoff, the fit range,
    the least-squares line through the phase, and the velocity formula. */
module Spectral {
  import opened Sums
  import opened Failures

  /** A cross-spectral density value. */
  datatype Complex = Complex(re: real, im: real)
  {
    function Conjugate(): Complex
    {
      Complex(re, -im)
    }

    /** abs(z) ** 2 */
    function NormSquared(): real
    {
      re * re + im * im
    }
  }

  /** The spectra of one probe pair on a shared frequency axis: the cross-spectral
      density, the two auto-spectral densities, and the unwrapped CSD phase (radians). */
  datatype Spectra = Spectra(freq: seq<real>, csd: seq<Complex>, pxx: seq<real>, pyy: seq<real>, phase: seq<real>)
  {
    predicate Aligned()
    {
      |csd| == |freq| && |pxx| == |freq| && |pyy| == |freq| && |phase| == |freq|
    }
  }

  /** |Pxy|^2 / (Pxx * Pyy) evaluated with float division: a finite value, or
      +infinity (nonzero over zero), or NaN (zero over zero). */
  datatype Coherence = Finite(value: real) | PosInfinity | NotANumber

  /** The fixed coherence threshold that bounds the fit range. */
  const CoherenceThreshold: real := 0.1

  /** gamma2 >= 0.1 as a float comparison: true for +infinity, false for NaN. */
  predicate Meets(g: Coherence)
  {
    match g
    case Finite(v) => v >= CoherenceThreshold
    case PosInfinity => true
    case NotANumber => false
  }

  /** The magnitude-squared coherence of one bin. */
  function CoherenceOf(pxy: Complex, pxx: real, pyy: real): (g: Coherence)
    ensures g.Finite? <==> pxx * pyy != 0.0
    ensures g.Finite? ==> g.value * (pxx * pyy) == pxy.NormSquared()
    ensures g.NotANumber? <==> pxx * pyy == 0.0 && pxy.NormSquared() == 0.0
    ensures pxx * pyy > 0.0 ==> g.Finite? && g.value >= 0.0
    ensures pxx * pyy > 0.0 && pxy.NormSquared() <= pxx * pyy ==> g.Finite? && g.value <= 1.0
  {
    var num, den := pxy.NormSquared(), pxx * pyy;
    if den != 0.0 then Finite(num / den)
    else if num == 0.0 then NotANumber
    else PosInfinity
  }

  /** Whether one bin enters the fit range, in terms of its spectral values: with
      a positive density product the bin passes exactly when |Pxy|^2 reaches 0.1
      of it; with a negative one it never passes; with a zero one it passes
      exactly when the CSD is nonzero (+infinity compares true, NaN false). */
  lemma MeetsOfCoherence(pxy: Complex, pxx: real, pyy: real)
    ensures pxx * pyy > 0.0 ==>
      (Meets(CoherenceOf(pxy, pxx, pyy)) <==> pxy.NormSquared() >= CoherenceThreshold * (pxx * pyy))
    ensures pxx * pyy < 0.0 ==> !Meets(CoherenceOf(pxy, pxx, pyy))
    ensures pxx * pyy == 0.0 ==> (Meets(CoherenceOf(pxy, pxx, pyy)) <==> pxy.NormSquared() != 0.0)
  {
    var g, num, den := CoherenceOf(pxy, pxx, pyy), pxy.NormSquared(), pxx * pyy;
    if den > 0.0 {
      ScaledComparison(g.value, CoherenceThreshold, den, num);
    } else if den < 0.0 {
      NormSquaredNonNegative(pxy);
      NegativeRatio(g.value, den, num);
    }
  }

  lemma NormSquaredNonNegative(z: Complex)
    ensures z.NormSquared() >= 0.0
  {
  }

  /** v >= t exactly when v * d >= t * d, for positive d. */
  lemma ScaledComparison(v: real, t: real, d: real, n: real)
    requires d > 0.0 && v * d == n
    ensures v >= t <==> n >= t * d
  {
    if v >= t {
      assert (v - t) * d >= 0.0;
    } else {
      assert (t - v) * d > 0.0;
    }
  }

  lemma NegativeRatio(v: real, d: real, n: real)
    requires d < 0.0 && n >= 0.0 && v * d == n
    ensures v < CoherenceThreshold
  {
    if v > 0.0 {
      assert v * d < 0.0;
    }
  }

  /** The coherence of every bin, aligned with the frequency axis. */
  function Coherences(s: Spectra): (g: seq<Coherence>)
    requires s.Aligned()
    ensures |g| == |s.freq|
    ensures forall i :: 0 <= i < |g| ==> g[i] == CoherenceOf(s.csd[i], s.pxx[i], s.pyy[i])
  {
    seq(|s.freq|, i requires 0 <= i < |s.freq| => CoherenceOf(s.csd[i], s.pxx[i], s.pyy[i]))
  }

  /** The indices, in increasing order, of the bins whose coherence meets the threshold. */
  function CoherentIndices(g: seq<Coherence>): (ind: seq<nat>)
    ensures forall j :: 0 <= j < |ind| ==> ind[j] < |g| && Meets(g[ind[j]])
    ensures forall i :: 0 <= i < |g| && Meets(g[i]) ==> i in ind
    ensures forall j, k :: 0 <= j < k < |ind| ==> ind[j] < ind[k]
  {
    if |g| == 0 then []
    else CoherentIndices(g[..|g| - 1]) + (if Meets(g[|g| - 1]) then [|g| - 1] else [])
  }

  /** The fit cutoff: the last of the coherent indices, or none when no bin meets the threshold. */
  function Cutoff(g: seq<Coherence>): (c: Option<nat>)
    ensures c.None? <==> forall i :: 0 <= i < |g| ==> !Meets(g[i])
    ensures c.Some? ==> c.value < |g| && Meets(g[c.value])
    ensures c.Some? ==> forall i :: c.value < i < |g| ==> !Meets(g[i])
  {
    var ind := CoherentIndices(g);
    if |ind| == 0 then None else Some(ind[|ind| - 1])
  }

  /** When the coherence meets the threshold on bins 0..k and on no later bin,
      the cutoff is k: on a decaying coherence the last-index rule and the
      first-drop rule agree. */
  lemma CutoffOfDecayingCoherence(g: seq<Coherence>, k: nat)
    requires k < |g|
    requires forall i :: 0 <= i <= k ==> Meets(g[i])
    requires forall i :: k < i < |g| ==> !Meets(g[i])
    ensures Cutoff(g) == Some(k)
  {
    assert Meets(g[k]);
  }

  /** A bin that recovers after a dip moves the cutoff past the dip. */
  lemma CutoffSkipsDip()
    ensures Cutoff([Finite(0.5), Finite(0.05), Finite(0.5)]) == Some(2)
  {
    var g := [Finite(0.5), Finite(0.05), Finite(0.5)];
    assert Meets(g[2]);
  }

  /** The spectra with the two probes exchanged: the cross-spectrum is
      conjugated, the auto-spectra trade places and the phase changes sign. */
  function Swapped(s: Spectra): (t: Spectra)
    requires s.Aligned()
    ensures t.Aligned() && t.freq == s.freq && t.pxx == s.pyy && t.pyy == s.pxx
    ensures forall i :: 0 <= i < |t.csd| ==> t.csd[i] == s.csd[i].Conjugate()
    ensures forall i :: 0 <= i < |t.phase| ==> t.phase[i] == -s.phase[i]
  {
    Spectra(s.freq, seq(|s.csd|, i requires 0 <= i < |s.csd| => s.csd[i].Conjugate()), s.pyy, s.pxx,
            seq(|s.phase|, i requires 0 <= i < |s.phase| => -s.phase[i]))
  }

  /** Coherence is symmetric in the two probes. */
  lemma CoherencesOfSwapped(s: Spectra)
    requires s.Aligned()
    ensures Coherences(Swapped(s)) == Coherences(s)
  {
    var t := Swapped(s);
    forall i | 0 <= i < |s.freq|
      ensures Coherences(t)[i] == Coherences(s)[i]
    {
      assert t.csd[i].NormSquared() == s.csd[i].NormSquared();
      assert t.pxx[i] * t.pyy[i] == s.pxx[i] * s.pyy[i];
    }
  }

  /** The slice s[1:cut] of numpy: the bins strictly between the DC bin and the cutoff. */
  function FitRange<T>(s: seq<T>, cut: nat): (r: seq<T>)
    requires cut <= |s|
    ensures |r| == if cut <= 1 then 0 else cut - 1
    ensures forall j :: 0 <= j < |r| ==> r[j] == s[j + 1]
  {
    if cut <= 1 then [] else s[1..cut]
  }

  /** A straight line phase = slope * f + intercept. */
  datatype Line = Line(slope: real, intercept: real)

  /** n * sxx - sx^2: the determinant of the normal equations. */
  function Determinant(n: real, sx: real, sxx: real): real
  {
    n * sxx - sx * sx
  }

  /** n * sum(x^2) - sum(x)^2, the determinant of the normal equations over x, or zero
      when there are no points. */
  function FitDenominator(x: seq<real>): (d: real)
    ensures |x| == 0 ==> d == 0.0
  {
    if |x| == 0 then 0.0 else Determinant(|x| as real, Sum(x), SumProducts(x, x))
  }

  /** The least-squares line from the point count n and the sums of x, y, x^2 and x * y:
      slope = (n sxy - sx sy) / (n sxx - sx^2), intercept = (sy - slope sx) / n. */
  function FitFromSums(n: real, sx: real, sy: real, sxx: real, sxy: real): (r: Result<Line>)
    ensures r.Err? <==> n == 0.0 || Determinant(n, sx, sxx) == 0.0
    ensures r.Err? ==> r.error == DegenerateFit
  {
    var d := Determinant(n, sx, sxx);
    if n == 0.0 || d == 0.0 then Err(DegenerateFit)
    else
      var slope := (n * sxy - sx * sy) / d;
      Ok(Line(slope, (sy - slope * sx) / n))
  }

  /** The fitted line solves the two normal equations of least squares. */
  lemma FitFromSumsSolvesNormalEquations(n: real, sx: real, sy: real, sxx: real, sxy: real)
    requires FitFromSums(n, sx, sy, sxx, sxy).Ok?
    ensures var l := FitFromSums(n, sx, sy, sxx, sxy).value;
      && sy == l.slope * sx + l.intercept * n
      && sxy == l.slope * sxx + l.intercept * sx
  {
    var l, d := FitFromSums(n, sx, sy, sxx, sxy).value, n * sxx - sx * sx;
    assert l.intercept * n == sy - l.slope * sx;
    assert l.slope * d == n * sxy - sx * sy;
    calc {
      n * (l.slope * sxx + l.intercept * sx);
      l.slope * (n * sxx) + (l.intercept * n) * sx;
      l.slope * (d + sx * sx) + (sy - l.slope * sx) * sx;
      l.slope * d + sy * sx;
      n * sxy;
    }
  }

  /** The ordinary least-squares line through the points (x[i], y[i]), in closed form
      (np.polyfit of degree 1 over exact reals). */
  function LineFit(x: seq<real>, y: seq<real>): (r: Result<Line>)
    requires |x| == |y|
    ensures r.Err? <==> FitDenominator(x) == 0.0
    ensures r.Err? ==> r.error == DegenerateFit
  {
    FitFromSums(|x| as real, Sum(x), Sum(y), SumProducts(x, x), SumProducts(x, y))
  }

  /** The residual y[i] - (slope * x[i] + intercept) of point i, zero outside the data. */
  function Residual(x: seq<real>, y: seq<real>, l: Line): int -> real
  {
    i => if 0 <= i < |x| then At(y, i) - (l.slope * At(x, i) + l.intercept) else 0.0
  }

  /** The sum of squared residuals of a line through the points. */
  function SquaredError(x: seq<real>, y: seq<real>, l: Line): real
  {
    SumRange(Mul(Residual(x, y, l), Residual(x, y, l)), 0, |x|)
  }

  /** The fitted line satisfies the least-squares normal equations. */
  lemma LineFitNormalEquations(x: seq<real>, y: seq<real>)
    requires |x| == |y| && LineFit(x, y).Ok?
    ensures var l, n := LineFit(x, y).value, |x| as real;
      && Sum(y) == l.slope * Sum(x) + l.intercept * n
      && SumProducts(x, y) == l.slope * SumProducts(x, x) + l.intercept * Sum(x)
  {
    FitFromSumsSolvesNormalEquations(|x| as real, Sum(x), Sum(y), SumProducts(x, x), SumProducts(x, y));
  }

  /** x[i] times the residual of point i, expanded: x[i] * y[i] - slope * x[i]^2 - intercept * x[i]. */
  lemma WeightedResidualExpansion(x: seq<real>, y: seq<real>, l: Line)
    requires |x| == |y|
    ensures forall i :: 0 <= i < |x| ==>
      Mul(Padded(x), Residual(x, y, l))(i)
      == Combine(Combine(Times(x, y), Times(x, x), 1.0, -l.slope), Padded(x), 1.0, -l.intercept)(i)
  {
  }

  /** A line through the centroid (the first normal equation) leaves residuals that sum to zero. */
  lemma ResidualsSumToZero(x: seq<real>, y: seq<real>, l: Line)
    requires |x| == |y|
    requires Sum(y) == l.slope * Sum(x) + l.intercept * |x| as real
    ensures SumRange(Residual(x, y, l), 0, |x|) == 0.0
  {
    var n, r := |x|, Residual(x, y, l);
    forall i | 0 <= i < n
      ensures r(i) == 1.0 * Padded(y)(i) + -l.slope * Padded(x)(i) + -l.intercept
    {
    }
    SumRangeLinear(Padded(y), Padded(x), r, 1.0, -l.slope, -l.intercept, 0, n);
  }

  /** A line that solves the second normal equation leaves residuals orthogonal to the frequencies. */
  lemma ResidualsOrthogonalToFrequencies(x: seq<real>, y: seq<real>, l: Line)
    requires |x| == |y|
    requires SumProducts(x, y) == l.slope * SumProducts(x, x) + l.intercept * Sum(x)
    ensures SumRange(Mul(Padded(x), Residual(x, y, l)), 0, |x|) == 0.0
  {
    var n, a, b := |x|, l.slope, l.intercept;
    var t := Combine(Times(x, y), Times(x, x), 1.0, -a);
    WeightedResidualExpansion(x, y, l);
    SumRangeCongruent(Mul(Padded(x), Residual(x, y, l)), Combine(t, Padded(x), 1.0, -b), 0, n);
    SumRangeCombine(t, Padded(x), 1.0, -b, 0, n);
    SumRangeCombine(Times(x, y), Times(x, x), 1.0, -a, 0, n);
  }

  /** The residual of l times the gap between the residuals of l and m is a
      combination of the residual of l and x times it. */
  lemma GapProductExpansion(x: seq<real>, y: seq<real>, l: Line, m: Line)
    requires |x| == |y|
    ensures var r := Residual(x, y, l);
      forall i :: 0 <= i < |x| ==>
        Mul(r, Diff(r, Residual(x, y, m)))(i)
        == Combine(Mul(Padded(x), r), r, m.slope - l.slope, m.intercept - l.intercept)(i)
  {
    var r, rm := Residual(x, y, l), Residual(x, y, m);
    var da, db := m.slope - l.slope, m.intercept - l.intercept;
    forall i | 0 <= i < |x|
      ensures Mul(r, Diff(r, rm))(i) == Combine(Mul(Padded(x), r), r, da, db)(i)
    {
      var xi, ri := At(x, i), r(i);
      assert r(i) - rm(i) == da * xi + db;
      assert ri * (da * xi + db) == da * (xi * ri) + db * ri;
    }
  }

  /** When the residuals of l sum to zero and are orthogonal to the frequencies,
      they are orthogonal to the gap between the residuals of l and of any m. */
  lemma CrossTermVanishes(x: seq<real>, y: seq<real>, l: Line, m: Line)
    requires |x| == |y|
    requires SumRange(Residual(x, y, l), 0, |x|) == 0.0
    requires SumRange(Mul(Padded(x), Residual(x, y, l)), 0, |x|) == 0.0
    ensures var r := Residual(x, y, l);
      SumRange(Mul(r, Diff(r, Residual(x, y, m))), 0, |x|) == 0.0
  {
    var n, r := |x|, Residual(x, y, l);
    var da, db := m.slope - l.slope, m.intercept - l.intercept;
    GapProductExpansion(x, y, l, m);
    SumRangeCongruent(Mul(r, Diff(r, Residual(x, y, m))), Combine(Mul(Padded(x), r), r, da, db), 0, n);
    SumRangeCombine(Mul(Padded(x), r), r, da, db, 0, n);
  }

  /** The squared error of m is that of l, plus the squared gap, minus twice the cross term. */
  lemma SquaredErrorOfGap(x: seq<real>, y: seq<real>, l: Line, m: Line)
    requires |x| == |y|
    ensures var r, e := Residual(x, y, l), Diff(Residual(x, y, l), Residual(x, y, m));
      SquaredError(x, y, m)
      == SquaredError(x, y, l) + SumRange(Mul(e, e), 0, |x|) - 2.0 * SumRange(Mul(r, e), 0, |x|)
  {
    var n, r, rm := |x|, Residual(x, y, l), Residual(x, y, m);
    var e := Diff(r, rm);
    SumRangeCongruent(Mul(rm, rm), Mul(Diff(r, e), Diff(r, e)), 0, n);
    SumSquaredDifference(r, e, 0, n);
  }

  /** A line whose residuals sum to zero and are orthogonal to the frequencies has
      the smallest sum of squared residuals of all lines. */
  lemma OrthogonalResidualsMinimise(x: seq<real>, y: seq<real>, l: Line, m: Line)
    requires |x| == |y|
    requires SumRange(Residual(x, y, l), 0, |x|) == 0.0
    requires SumRange(Mul(Padded(x), Residual(x, y, l)), 0, |x|) == 0.0
    ensures SquaredError(x, y, l) <= SquaredError(x, y, m)
  {
    var e := Diff(Residual(x, y, l), Residual(x, y, m));
    CrossTermVanishes(x, y, l, m);
    SquaredErrorOfGap(x, y, l, m);
    SumRangeNonNegative(Mul(e, e), 0, |x|);
  }

  /** No line through the points has a smaller sum of squared residuals than the fitted one. */
  lemma LineFitIsLeastSquares(x: seq<real>, y: seq<real>, m: Line)
    requires |x| == |y| && LineFit(x, y).Ok?
    ensures SquaredError(x, y, LineFit(x, y).value) <= SquaredError(x, y, m)
  {
    var l := LineFit(x, y).value;
    LineFitNormalEquations(x, y);
    ResidualsSumToZero(x, y, l);
    ResidualsOrthogonalToFrequencies(x, y, l);
    OrthogonalResidualsMinimise(x, y, l, m);
  }

  /** When there is a fitted line, it beats every line at once. */
  lemma LineFitIsLeastSquaresEverywhere(x: seq<real>, y: seq<real>)
    requires |x| == |y|
    ensures LineFit(x, y).Ok? ==> forall m: Line :: SquaredError(x, y, LineFit(x, y).value) <= SquaredError(x, y, m)
  {
    if LineFit(x, y).Ok? {
      forall m: Line
        ensures SquaredError(x, y, LineFit(x, y).value) <= SquaredError(x, y, m)
      {
        LineFitIsLeastSquares(x, y, m);
      }
    }
  }

  /** The closed-form fit in terms of the four sums, when they describe points on the line s * x + c. */
  lemma FitOfLinearSums(n: real, sx: real, sy: real, sxx: real, sxy: real, s: real, c: real)
    requires n != 0.0 && Determinant(n, sx, sxx) != 0.0
    requires sy == s * sx + n * c && sxy == s * sxx + c * sx
    ensures FitFromSums(n, sx, sy, sxx, sxy) == Ok(Line(s, c))
  {
    LinearSumsCoefficients(n, sx, sy, sxx, sxy, s, c);
    FitFromSumsValue(n, sx, sy, sxx, sxy);
    var r := FitFromSums(n, sx, sy, sxx, sxy);
    assert r.Ok? && r.value.slope == s && r.value.intercept == c;
  }

  /** The two closed-form coefficients on sums that describe points on the line s * x + c. */
  lemma LinearSumsCoefficients(n: real, sx: real, sy: real, sxx: real, sxy: real, s: real, c: real)
    requires n != 0.0 && Determinant(n, sx, sxx) != 0.0
    requires sy == s * sx + n * c && sxy == s * sxx + c * sx
    ensures (n * sxy - sx * sy) / Determinant(n, sx, sxx) == s
    ensures (sy - s * sx) / n == c
  {
    LinearNumerator(n, sx, sy, sxx, sxy, s, c);
    DivideExact(n * sxy - sx * sy, Determinant(n, sx, sxx), s);
    DivideExact(sy - s * sx, n, c);
  }

  lemma LinearNumerator(n: real, sx: real, sy: real, sxx: real, sxy: real, s: real, c: real)
    requires sy == s * sx + n * c && sxy == s * sxx + c * sx
    ensures n * sxy - sx * sy == s * Determinant(n, sx, sxx)
  {
    calc {
      n * sxy - sx * sy;
      n * (s * sxx + c * sx) - sx * (s * sx + n * c);
      s * (n * sxx) + n * c * sx - s * (sx * sx) - n * c * sx;
      s * Determinant(n, sx, sxx);
    }
  }

  /** The sum of points lying on the line s * x + c. */
  lemma SumOnLine(x: seq<real>, y: seq<real>, s: real, c: real)
    requires |x| == |y|
    requires forall i :: 0 <= i < |x| ==> y[i] == s * x[i] + c
    ensures Sum(y) == s * Sum(x) + |x| as real * c
  {
    SumRangeLinear(Padded(x), Padded(x), Padded(y), s, 0.0, c, 0, |x|);
  }

  /** x times a point on the line s * x + c, term by term. */
  lemma TimesOnLine(x: seq<real>, y: seq<real>, s: real, c: real)
    requires |x| == |y|
    requires forall i :: 0 <= i < |x| ==> y[i] == s * x[i] + c
    ensures forall i :: 0 <= i < |x| ==> Times(x, y)(i) == s * Times(x, x)(i) + c * Padded(x)(i) + 0.0
  {
    forall i | 0 <= i < |x|
      ensures Times(x, y)(i) == s * Times(x, x)(i) + c * Padded(x)(i) + 0.0
    {
      assert x[i] * (s * x[i] + c) == s * (x[i] * x[i]) + c * x[i];
    }
  }

  /** The sum of x times points lying on the line s * x + c. */
  lemma SumProductsOnLine(x: seq<real>, y: seq<real>, s: real, c: real)
    requires |x| == |y|
    requires forall i :: 0 <= i < |x| ==> y[i] == s * x[i] + c
    ensures SumProducts(x, y) == s * SumProducts(x, x) + c * Sum(x)
  {
    TimesOnLine(x, y, s, c);
    SumRangeLinear(Times(x, x), Padded(x), Times(x, y), s, c, 0.0, 0, |x|);
  }

  /** Points lying exactly on a line are fitted by that line. */
  lemma LineFitRecoversExactLine(x: seq<real>, y: seq<real>, s: real, c: real)
    requires |x| == |y| && FitDenominator(x) != 0.0
    requires forall i :: 0 <= i < |x| ==> y[i] == s * x[i] + c
    ensures LineFit(x, y) == Ok(Line(s, c))
  {
    var n, sx, sy, sxx, sxy := |x| as real, Sum(x), Sum(y), SumProducts(x, x), SumProducts(x, y);
    SumOnLine(x, y, s, c);
    SumProductsOnLine(x, y, s, c);
    assert n != 0.0 && Determinant(n, sx, sxx) == FitDenominator(x);
    FitOfLinearSums(n, sx, sy, sxx, sxy, s, c);
    assert LineFit(x, y) == FitFromSums(n, sx, sy, sxx, sxy);
  }

  lemma DivideExact(a: real, d: real, q: real)
    requires d != 0.0 && a == q * d
    ensures a / d == q
  {
  }

  lemma DivideScaled(a: real, b: real, d: real, q: real)
    requires d != 0.0 && a == q * b
    ensures a / d == q * (b / d)
  {
  }

  lemma DivideAffine(a: real, b: real, d: real, q: real, k: real)
    requires d != 0.0 && a == q * b + d * k
    ensures a / d == q * (b / d) + k
  {
  }

  /** The fit's two coefficients, named for the steps of the proofs below. */
  lemma FitFromSumsValue(n: real, sx: real, sy: real, sxx: real, sxy: real)
    requires n != 0.0 && Determinant(n, sx, sxx) != 0.0
    ensures var slope := (n * sxy - sx * sy) / Determinant(n, sx, sxx);
      FitFromSums(n, sx, sy, sxx, sxy) == Ok(Line(slope, (sy - slope * sx) / n))
  {
  }

  lemma AffineNumerator(n: real, sx: real, sy: real, sxy: real, sy': real, sxy': real, q: real, k: real)
    requires sy' == q * sy + n * k && sxy' == q * sxy + k * sx
    ensures n * sxy' - sx * sy' == q * (n * sxy - sx * sy)
  {
    calc {
      n * sxy' - sx * sy';
      n * (q * sxy + k * sx) - sx * (q * sy + n * k);
      q * (n * sxy) + n * k * sx - q * (sx * sy) - n * k * sx;
      q * (n * sxy - sx * sy);
    }
  }

  lemma AffineInterceptNumerator(n: real, sx: real, sy: real, sy': real, slope: real, slope': real, q: real, k: real)
    requires sy' == q * sy + n * k && slope' == q * slope
    ensures sy' - slope' * sx == q * (sy - slope * sx) + n * k
  {
    calc {
      sy' - slope' * sx;
      q * sy + n * k - q * slope * sx;
      q * (sy - slope * sx) + n * k;
    }
  }

  /** The closed-form slope after the y values are mapped by q * y + k is q times the old one. */
  lemma AffineSlope(n: real, sx: real, sy: real, sxx: real, sxy: real, sy': real, sxy': real, q: real, k: real)
    requires Determinant(n, sx, sxx) != 0.0
    requires sy' == q * sy + n * k && sxy' == q * sxy + k * sx
    ensures (n * sxy' - sx * sy') / Determinant(n, sx, sxx) == q * ((n * sxy - sx * sy) / Determinant(n, sx, sxx))
  {
    AffineNumerator(n, sx, sy, sxy, sy', sxy', q, k);
    DivideScaled(n * sxy' - sx * sy', n * sxy - sx * sy, Determinant(n, sx, sxx), q);
  }

  /** The closed-form intercept after the y values are mapped by q * y + k, given the scaled slope. */
  lemma AffineIntercept(n: real, sx: real, sy: real, sy': real, slope: real, slope': real, q: real, k: real)
    requires n != 0.0 && sy' == q * sy + n * k && slope' == q * slope
    ensures (sy' - slope' * sx) / n == q * ((sy - slope * sx) / n) + k
  {
    AffineInterceptNumerator(n, sx, sy, sy', slope, slope', q, k);
    DivideAffine(sy' - slope' * sx, sy - slope * sx, n, q, k);
  }

  /** The closed-form fit in terms of the four sums, after the y values are mapped by q * y + k. */
  lemma FitOfAffineSums(n: real, sx: real, sy: real, sxx: real, sxy: real, sy': real, sxy': real, q: real, k: real)
    requires FitFromSums(n, sx, sy, sxx, sxy).Ok?
    requires sy' == q * sy + n * k && sxy' == q * sxy + k * sx
    ensures var l := FitFromSums(n, sx, sy, sxx, sxy).value;
      && FitFromSums(n, sx, sy', sxx, sxy').Ok?
      && FitFromSums(n, sx, sy', sxx, sxy').value == Line(q * l.slope, q * l.intercept + k)
  {
    var d := Determinant(n, sx, sxx);
    var slope, slope' := (n * sxy - sx * sy) / d, (n * sxy' - sx * sy') / d;
    AffineSlope(n, sx, sy, sxx, sxy, sy', sxy', q, k);
    AffineIntercept(n, sx, sy, sy', slope, slope', q, k);
    FitFromSumsValue(n, sx, sy, sxx, sxy);
    FitFromSumsValue(n, sx, sy', sxx, sxy');
  }

  /** The sum of x times y after every y value is mapped by q * y + k. */
  lemma SumProductsOfAffine(x: seq<real>, y: seq<real>, y': seq<real>, q: real, k: real)
    requires |x| == |y| == |y'|
    requires forall i :: 0 <= i < |x| ==> y'[i] == q * y[i] + k
    ensures SumProducts(x, y') == q * SumProducts(x, y) + k * Sum(x)
  {
    forall i | 0 <= i < |x|
      ensures Times(x, y')(i) == q * Times(x, y)(i) + k * Padded(x)(i) + 0.0
    {
      assert x[i] * (q * y[i] + k) == q * (x[i] * y[i]) + k * x[i];
    }
    SumRangeLinear(Times(x, y), Padded(x), Times(x, y'), q, k, 0.0, 0, |x|);
  }

  /** Mapping every phase value by q * y + k scales the fitted slope by q and maps the
      intercept the same way; with q = 1 a constant phase offset leaves the slope unchanged. */
  lemma LineFitAffine(x: seq<real>, y: seq<real>, y': seq<real>, q: real, k: real)
    requires |x| == |y| == |y'| && LineFit(x, y).Ok?
    requires forall i :: 0 <= i < |x| ==> y'[i] == q * y[i] + k
    ensures var l := LineFit(x, y).value;
      LineFit(x, y').Ok? && LineFit(x, y').value == Line(q * l.slope, q * l.intercept + k)
  {
    var n, sx, sxx := |x| as real, Sum(x), SumProducts(x, x);
    var sy, sxy, sy', sxy' := Sum(y), SumProducts(x, y), Sum(y'), SumProducts(x, y');
    assert sy' == q * sy + n * k && sxy' == q * sxy + k * sx by {
      SumOnLine(y, y', q, k);
      SumProductsOfAffine(x, y, y', q, k);
    }
    FitOfAffineSums(n, sx, sy, sxx, sxy, sy', sxy', q, k);
  }

  /** np.pi: the double nearest to pi, written out exactly. */
  const Pi: real := 3.141592653589793115997963468544185161590576171875

  /** The convection velocity from the fitted phase slope (radians per Hz): the
      separation over the slope, times 2 pi; undefined for a zero slope. */
  function FreqVelocity(dx: real, slope: real): (r: Result<real>)
    ensures r.Err? <==> slope == 0.0
    ensures r.Err? ==> r.error == ZeroSlope
    ensures r.Ok? ==> r.value * slope == 2.0 * Pi * dx
  {
    if slope == 0.0 then Err(ZeroSlope) else Ok(dx / slope * 2.0 * Pi)
  }

  /** Negating the slope negates the velocity; negating the separation as well
      restores it (nslope = -slope, ndx = -dx). */
  lemma FreqVelocityUnderNegation(dx: real, slope: real, ndx: real, nslope: real)
    requires FreqVelocity(dx, slope).Ok?
    requires ndx == -dx && nslope == -slope
    ensures FreqVelocity(dx, nslope) == Ok(-FreqVelocity(dx, slope).value)
    ensures FreqVelocity(ndx, nslope) == FreqVelocity(dx, slope)
  {
    assert dx / nslope == -(dx / slope);
    assert ndx / nslope == dx / slope;
  }

  /** A phase slope of 2 pi dx / u radians per Hz gives back the velocity u. */
  lemma FreqVelocityOfLinearPhase(dx: real, u: real, slope: real)
    requires dx != 0.0 && u != 0.0 && slope == 2.0 * Pi * dx / u
    ensures FreqVelocity(dx, slope) == Ok(u)
  {
    assert slope != 0.0;
    assert dx / slope == u / (2.0 * Pi);
  }
}
