/** A convected pattern: probe 2 sees the fluctuations of probe 1 some samples
    later. The autocorrelation of a nonzero finite signal is largest at lag 0
    and strictly smaller at every other lag, so the full cross-correlation of
    the two probes has a unique peak, at minus the delay. */
module Delay {
  import opened Sums
  import opened Correlation

  /** The first n samples of a delayed by d samples: zeros before the pattern
      arrives, and the pattern cut off after sample n - 1. */
  function Delayed(a: seq<real>, d: nat, n: nat): (b: seq<real>)
    ensures |b| == n
    ensures forall i :: 0 <= i < n ==> b[i] == At(a, i - d)
  {
    seq(n, i => At(a, i - d))
  }

  /** Every nonzero sample of a still arrives within n samples after a delay of d. */
  predicate ArrivesWithin(a: seq<real>, d: nat, n: nat)
  {
    forall j :: 0 <= j < |a| && a[j] != 0.0 ==> j + d < n
  }

  /** The number of zero samples before the first nonzero one (|a| when there is none). */
  function LeadingZeros(a: seq<real>): (p: nat)
    ensures p <= |a|
    ensures forall j :: 0 <= j < p ==> a[j] == 0.0
    ensures p < |a| ==> a[p] != 0.0
  {
    if |a| == 0 || a[0] != 0.0 then 0 else 1 + LeadingZeros(a[1..])
  }

  /** p is the index of the first nonzero sample of a. */
  predicate FirstNonzero(a: seq<real>, p: int)
  {
    0 <= p < |a| && a[p] != 0.0 && forall j :: 0 <= j < p ==> a[j] == 0.0
  }

  /** The delayed signal, zero-padded, is the zero-padded original shifted by d. */
  lemma AtDelayed(a: seq<real>, d: nat, n: nat, j: int)
    requires ArrivesWithin(a, d, n)
    ensures At(Delayed(a, d, n), j) == At(a, j - d)
  {
    if n <= j && 0 <= j - d < |a| {
      assert !(j - d + d < n);
    }
  }

  /** Correlating a with its delayed copy at a lag is the autocorrelation of a at that lag plus the delay. */
  lemma CorrOfDelayed(a: seq<real>, d: nat, n: nat, lag: int)
    requires ArrivesWithin(a, d, n)
    ensures Corr(a, Delayed(a, d, n), lag) == Corr(a, a, lag + d)
  {
    var b := Delayed(a, d, n);
    forall i | 0 <= i < |a|
      ensures Product(a, b, lag)(i) == Product(a, a, lag + d)(i)
    {
      AtDelayed(a, d, n, i - lag);
    }
    SumRangeCongruent(Product(a, b, lag), Product(a, a, lag + d), 0, |a|);
  }

  /** s times a shifted by m samples, zero-padded. */
  function Lagged(a: seq<real>, m: int, s: real): int -> real
  {
    i => s * At(a, i - m)
  }

  lemma SquareNonNegative(x: real)
    ensures x * x >= 0.0
    ensures x != 0.0 ==> x * x > 0.0
  {
    if x < 0.0 {
      assert x * x == (-x) * (-x);
    }
  }

  lemma ScaledSquare(s: real, x: real)
    requires s * s == 1.0
    ensures (s * x) * (s * x) == x * x
  {
    assert (s * x) * (s * x) == (s * s) * (x * x);
  }

  /** A product with a nonzero factor is zero only when the other factor is. */
  lemma ZeroProduct(x: real, y: real)
    requires x * y == 0.0 && y != 0.0
    ensures x == 0.0
  {
  }

  lemma SquareTermPositive(a: seq<real>, p: int)
    requires 0 <= p < |a| && a[p] != 0.0
    ensures Product(a, a, 0)(p) > 0.0
  {
    SquareNonNegative(a[p]);
    if Product(a, a, 0)(p) == 0.0 {
      ZeroProduct(a[p], At(a, p));
    }
  }

  /** The energy of a nonzero signal, its autocorrelation at lag 0, is positive. */
  lemma EnergyPositive(a: seq<real>, p: int)
    requires 0 <= p < |a| && a[p] != 0.0
    ensures Corr(a, a, 0) > 0.0
  {
    var e := Product(a, a, 0);
    forall i | 0 <= i < |a|
      ensures e(i) >= 0.0
    {
      assert e(i) == a[i] * a[i];
      SquareNonNegative(a[i]);
    }
    SquareTermPositive(a, p);
    SumRangePositive(e, 0, p, |a|);
  }

  /** Over any window holding both a and its shift by m, the squares of the shifted copy sum to the energy. */
  lemma SquaresOfLagged(a: seq<real>, m: int, s: real, lo: int, hi: int)
    requires s * s == 1.0
    requires lo <= 0 && lo <= m && |a| <= hi && |a| + m <= hi
    ensures SumRange(Mul(Lagged(a, m, s), Lagged(a, m, s)), lo, hi) == Corr(a, a, 0)
  {
    var h, e := Mul(Lagged(a, m, s), Lagged(a, m, s)), Product(a, a, 0);
    forall i | m <= i < |a| + m
      ensures h(i) == e(i + -m)
    {
      var x := At(a, i - m);
      assert h(i) == (s * x) * (s * x);
      ScaledSquare(s, x);
    }
    SumRangeShift(e, h, m, |a| + m, -m);
    forall i | h(i) != 0.0
      ensures lo <= i < hi && m <= i < |a| + m
    {
    }
    SumRangeSupport(h, lo, hi, m, |a| + m);
  }

  /** Over any window holding both a and its shift by m, the products of a with the shifted copy sum to s times the autocorrelation at m. */
  lemma CrossOfLagged(a: seq<real>, m: int, s: real, lo: int, hi: int)
    requires lo <= 0 && lo <= m && |a| <= hi && |a| + m <= hi
    ensures SumRange(Mul(Lagged(a, 0, 1.0), Lagged(a, m, s)), lo, hi) == s * Corr(a, a, m)
  {
    CrossSum(a, m, s, lo, hi);
    ProductWindow(a, m, lo, hi);
  }

  lemma CrossSum(a: seq<real>, m: int, s: real, lo: int, hi: int)
    ensures SumRange(Mul(Lagged(a, 0, 1.0), Lagged(a, m, s)), lo, hi) == s * SumRange(Product(a, a, m), lo, hi)
  {
    var h, e := Mul(Lagged(a, 0, 1.0), Lagged(a, m, s)), Product(a, a, m);
    forall i | lo <= i < hi
      ensures h(i) == s * e(i)
    {
      CrossTerm(a, m, s, i);
    }
    SumRangeScale(e, h, s, lo, hi);
  }

  /** The autocorrelation at m may be summed over any window holding a. */
  lemma ProductWindow(a: seq<real>, m: int, lo: int, hi: int)
    requires lo <= 0 && |a| <= hi
    ensures SumRange(Product(a, a, m), lo, hi) == Corr(a, a, m)
  {
    var e := Product(a, a, m);
    forall i | e(i) != 0.0
      ensures lo <= i < hi && 0 <= i < |a|
    {
      assert At(a, i) != 0.0;
    }
    SumRangeSupport(e, lo, hi, 0, |a|);
  }

  lemma CrossTerm(a: seq<real>, m: int, s: real, i: int)
    ensures Mul(Lagged(a, 0, 1.0), Lagged(a, m, s))(i) == s * Product(a, a, m)(i)
  {
    var x, y := At(a, i), At(a, i - m);
    assert Mul(Lagged(a, 0, 1.0), Lagged(a, m, s))(i) == (1.0 * x) * (s * y);
    assert Product(a, a, m)(i) == x * y;
    Rescale(x, y, s);
  }

  lemma Rescale(x: real, y: real, s: real)
    ensures (1.0 * x) * (s * y) == s * (x * y)
  {
  }

  /** The squared difference of a and s times its shift by m has a positive term, at the first nonzero sample. */
  lemma DifferencePositiveTerm(a: seq<real>, m: int, s: real, p: int, k: int)
    requires s * s == 1.0 && m != 0 && FirstNonzero(a, p)
    requires k == if m > 0 then p else p + m
    ensures Mul(Diff(Lagged(a, 0, 1.0), Lagged(a, m, s)), Diff(Lagged(a, 0, 1.0), Lagged(a, m, s)))(k) > 0.0
  {
    var x := a[p];
    var d := Diff(Lagged(a, 0, 1.0), Lagged(a, m, s));
    if m > 0 {
      assert At(a, k - m) == 0.0;
      assert d(k) == x;
    } else {
      assert At(a, k) == 0.0;
      assert d(k) == -(s * x);
      if s * x == 0.0 {
        ZeroProduct(s, x);
      }
    }
    SquareNonNegative(d(k));
    if Mul(d, d)(k) == 0.0 {
      ZeroProduct(d(k), d(k));
    }
  }

  /** One side of the strict bound: s * R(m) < R(0) for s = 1 or s = -1. */
  lemma SignedAutocorrelationBound(a: seq<real>, m: int, s: real, p: int)
    requires s * s == 1.0 && m != 0 && FirstNonzero(a, p)
    ensures s * Corr(a, a, m) < Corr(a, a, 0)
  {
    var f, g := Lagged(a, 0, 1.0), Lagged(a, m, s);
    var lo := if m < 0 then m else 0;
    var hi := if m > 0 then |a| + m else |a|;
    var k := if m > 0 then p else p + m;
    var sq := Mul(Diff(f, g), Diff(f, g));
    DifferencePositiveTerm(a, m, s, p, k);
    forall i | lo <= i < hi
      ensures sq(i) >= 0.0
    {
    }
    SumRangePositive(sq, lo, k, hi);
    SumSquaredDifference(f, g, lo, hi);
    SquaresOfLagged(a, 0, 1.0, lo, hi);
    SquaresOfLagged(a, m, s, lo, hi);
    CrossOfLagged(a, m, s, lo, hi);
  }

  /** Strict Cauchy-Schwarz for shifts: away from lag 0 the autocorrelation of a
      nonzero finite signal is strictly smaller in magnitude than its energy. */
  lemma AutocorrelationPeaksAtZero(a: seq<real>, m: int, p: int)
    requires m != 0 && FirstNonzero(a, p)
    ensures Abs(Corr(a, a, m)) < Corr(a, a, 0)
  {
    SignedAutocorrelationBound(a, m, 1.0, p);
    SignedAutocorrelationBound(a, m, -1.0, p);
  }

  /** The cross-correlation of a nonzero signal with its copy delayed by d
      samples has a unique peak, at the index whose lag is -d. */
  lemma DelayedPeak(a: seq<real>, d: nat, n: nat)
    requires LeadingZeros(a) < |a| && ArrivesWithin(a, d, n)
    ensures d < n
    ensures Lags(|a|, n)[n - 1 - d] == -(d as int)
    ensures var r := CrossCorrelation(a, Delayed(a, d, n));
      UniquePeak(r, n - 1 - d) && PeakIndex(r) == n - 1 - d
  {
    var p := LeadingZeros(a);
    assert FirstNonzero(a, p);
    assert p + d < n;
    var b, k := Delayed(a, d, n), n - 1 - d;
    var r, lags := CrossCorrelation(a, b), Lags(|a|, n);
    assert lags[k] == -(d as int);
    CorrOfDelayed(a, d, n, -(d as int));
    EnergyPositive(a, p);
    assert Abs(r[k]) == Corr(a, a, 0);
    forall j | 0 <= j < |r| && j != k
      ensures Abs(r[j]) < Abs(r[k])
    {
      assert lags[j] + d != 0;
      CorrOfDelayed(a, d, n, lags[j]);
      AutocorrelationPeaksAtZero(a, lags[j] + d, p);
    }
    UniquePeakOfReversed(r, k);
  }

  /** When the fluctuations at probe 2 are those at probe 1 delayed by d samples,
      and none of them arrives after the record ends, the peak lag is -d. */
  lemma PeakLagOfDelayed(data1: seq<real>, data2: seq<real>, d: nat)
    requires |data1| > 0 && |data2| > 0
    requires LeadingZeros(Demean(data1)) < |data1|
    requires ArrivesWithin(Demean(data1), d, |data2|)
    requires Demean(data2) == Delayed(Demean(data1), d, |data2|)
    ensures PeakLag(data1, data2) == -(d as int)
    ensures var r := CrossCorrelation(Demean(data1), Demean(data2)); UniquePeak(r, PeakIndex(r))
  {
    DelayedPeak(Demean(data1), d, |data2|);
  }
}
