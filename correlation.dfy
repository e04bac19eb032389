/** The time-domain estimator's building blocks (compute_timedomain): removing
    the mean, the full cross-correlation with its lag axis, and the peak search. */
module Correlation {
  import opened Sums
  import opened Failures

  function Abs(x: real): real
  {
    if x < 0.0 then -x else x
  }

  /** np.mean: the value whose |s| copies add up to the signal's total. */
  function Mean(s: seq<real>): (m: real)
    requires |s| > 0
    ensures m * |s| as real == Sum(s)
  {
    Sum(s) / |s| as real
  }

  /** The fluctuating part of a probe signal: every sample minus the signal's mean. */
  function Demean(s: seq<real>): (d: seq<real>)
    requires |s| > 0
    ensures |d| == |s|
  {
    seq(|s|, i requires 0 <= i < |s| => s[i] - Mean(s))
  }

  /** Removing the mean leaves samples whose sum, and so whose mean, is zero. */
  lemma DemeanSumsToZero(s: seq<real>)
    requires |s| > 0
    ensures Sum(Demean(s)) == 0.0
    ensures Mean(Demean(s)) == 0.0
  {
    var d, n := Demean(s), |s| as real;
    SumRangeLinear(Padded(s), Padded(s), Padded(d), 1.0, 0.0, -Mean(s), 0, |s|);
    assert Sum(d) == Sum(s) - n * (Sum(s) / n);
  }

  /** A signal that already sums to zero is its own fluctuating part. */
  lemma DemeanOfZeroSum(s: seq<real>)
    requires |s| > 0 && Sum(s) == 0.0
    ensures Demean(s) == s
  {
    assert Mean(s) == 0.0;
  }

  /** Removing the mean changes no difference between two samples: the fluctuations are kept. */
  lemma DemeanKeepsDifferences(s: seq<real>, i: nat, j: nat)
    requires i < |s| && j < |s|
    ensures Demean(s)[i] - Demean(s)[j] == s[i] - s[j]
  {
  }

  /** Term i of the correlation at a lag: a[i] times b[i - lag], zero where either index leaves its signal. */
  function Product(a: seq<real>, b: seq<real>, lag: int): int -> real
  {
    i => At(a, i) * At(b, i - lag)
  }

  /** The correlation of a with b at one lag: the sum over i of a[i] * b[i - lag]. */
  function Corr(a: seq<real>, b: seq<real>, lag: int): real
  {
    SumRange(Product(a, b, lag), 0, |a|)
  }

  /** The lag axis of a full correlation of signals of lengths n1 and n2: every
      sample offset from -(n2 - 1) up to n1 - 1, in steps of one. */
  function Lags(n1: nat, n2: nat): (l: seq<int>)
    requires n1 > 0 && n2 > 0
    ensures |l| == n1 + n2 - 1
    ensures l[0] == -(n2 - 1) && l[|l| - 1] == n1 - 1
    ensures forall k :: 0 <= k < |l| - 1 ==> l[k + 1] == l[k] + 1
  {
    seq(n1 + n2 - 1, k => k - (n2 - 1))
  }

  /** The full (non-circular) cross-correlation: one value per lag of Lags(|a|, |b|). */
  function CrossCorrelation(a: seq<real>, b: seq<real>): (r: seq<real>)
    requires |a| > 0 && |b| > 0
    ensures |r| == |Lags(|a|, |b|)|
    ensures forall k :: 0 <= k < |r| ==> r[k] == Corr(a, b, Lags(|a|, |b|)[k])
  {
    var lags := Lags(|a|, |b|);
    seq(|lags|, k requires 0 <= k < |lags| => Corr(a, b, lags[k]))
  }

  /** Dot product of two equally long signals, as an independent reference. */
  function Dot(a: seq<real>, b: seq<real>): real
    requires |a| == |b|
  {
    if |a| == 0 then 0.0 else a[0] * b[0] + Dot(a[1..], b[1..])
  }

  lemma {:induction false} CorrAtZeroLagIsDot(a: seq<real>, b: seq<real>)
    requires |a| == |b|
    ensures Corr(a, b, 0) == Dot(a, b)
    decreases |a|
  {
    if |a| > 0 {
      var a', b' := a[1..], b[1..];
      CorrAtZeroLagIsDot(a', b');
      SumRangeShift(Product(a, b, 0), Product(a', b', 0), 0, |a'|, 1);
    }
  }

  /** For signals of one length, the lag-0 entry sits at index |b| - 1 and is their dot product. */
  lemma ZeroLagIsDot(a: seq<real>, b: seq<real>)
    requires |a| == |b| > 0
    ensures Lags(|a|, |b|)[|b| - 1] == 0
    ensures CrossCorrelation(a, b)[|b| - 1] == Dot(a, b)
  {
    CorrAtZeroLagIsDot(a, b);
  }

  /** Correlating b with a at -lag gives the correlation of a with b at lag. */
  lemma CorrSwap(a: seq<real>, b: seq<real>, lag: int)
    ensures Corr(b, a, -lag) == Corr(a, b, lag)
  {
    var t, u := Product(a, b, lag), Product(b, a, -lag);
    var lo := if lag < 0 then lag else 0;
    var hi := if |a| < |b| + lag then |b| + lag else |a|;
    SumRangeWindow(t, lo, 0, |a|, hi);
    SumRangeWindow(u, lo - lag, 0, |b|, hi - lag);
    SumRangeShift(t, u, lo - lag, hi - lag, lag);
  }

  function Reversed<T>(s: seq<T>): (r: seq<T>)
    ensures |r| == |s|
    ensures forall k :: 0 <= k < |s| ==> r[k] == s[|s| - 1 - k]
  {
    seq(|s|, k requires 0 <= k < |s| => s[|s| - 1 - k])
  }

  /** Entry k of the swapped correlation is entry n - 1 - k of the original one. */
  lemma CrossCorrelationSwapAt(a: seq<real>, b: seq<real>, k: nat)
    requires |a| > 0 && |b| > 0 && k < |a| + |b| - 1
    ensures CrossCorrelation(b, a)[k] == CrossCorrelation(a, b)[|a| + |b| - 2 - k]
  {
    var j := |a| + |b| - 2 - k;
    var ra, rb := CrossCorrelation(a, b), CrossCorrelation(b, a);
    var la, lb := Lags(|a|, |b|), Lags(|b|, |a|);
    LagsSwap(|a|, |b|, k);
    CorrSwap(a, b, la[j]);
    assert rb[k] == Corr(b, a, lb[k]);
    assert ra[j] == Corr(a, b, la[j]);
  }

  /** Swapping the two signals reverses the correlation sequence. */
  lemma CrossCorrelationSwap(a: seq<real>, b: seq<real>)
    requires |a| > 0 && |b| > 0
    ensures CrossCorrelation(b, a) == Reversed(CrossCorrelation(a, b))
  {
    var r, r' := CrossCorrelation(a, b), CrossCorrelation(b, a);
    forall k | 0 <= k < |r'|
      ensures r'[k] == Reversed(r)[k]
    {
      CrossCorrelationSwapAt(a, b, k);
    }
  }

  /** Swapping the two signals mirrors the lag axis: index k of one is minus index n - 1 - k of the other. */
  lemma LagsSwap(n1: nat, n2: nat, k: nat)
    requires n1 > 0 && n2 > 0 && k < n1 + n2 - 1
    ensures Lags(n2, n1)[k] == -Lags(n1, n2)[n1 + n2 - 2 - k]
  {
  }

  /** The index of largest |r[k]|; among equal magnitudes the LAST such index
      wins, as Python's max over (value, index) pairs compares the index second. */
  function PeakIndex(r: seq<real>): (k: nat)
    requires |r| > 0
    ensures k < |r|
    ensures forall j :: 0 <= j < |r| ==> Abs(r[j]) <= Abs(r[k])
    ensures forall j :: k < j < |r| ==> Abs(r[j]) < Abs(r[k])
  {
    if |r| == 1 then 0
    else
      var k := PeakIndex(r[..|r| - 1]);
      if Abs(r[|r| - 1]) >= Abs(r[k]) then |r| - 1 else k
  }

  /** k holds the largest magnitude and no later index reaches it. */
  predicate IsLastPeak(r: seq<real>, k: int)
  {
    && 0 <= k < |r|
    && (forall j :: 0 <= j < |r| ==> Abs(r[j]) <= Abs(r[k]))
    && (forall j :: k < j < |r| ==> Abs(r[j]) < Abs(r[k]))
  }

  /** PeakIndex is the one index with the last-peak property. */
  lemma PeakIndexIsLastPeak(r: seq<real>, k: int)
    requires |r| > 0
    ensures IsLastPeak(r, k) <==> k == PeakIndex(r)
  {
  }

  /** Only index k reaches the largest magnitude. */
  predicate UniquePeak(r: seq<real>, k: int)
  {
    && 0 <= k < |r|
    && forall j :: 0 <= j < |r| && j != k ==> Abs(r[j]) < Abs(r[k])
  }

  /** A unique peak is found wherever it is, so reversing the sequence moves it to the mirrored index. */
  lemma UniquePeakOfReversed(r: seq<real>, k: nat)
    requires UniquePeak(r, k)
    ensures PeakIndex(r) == k
    ensures PeakIndex(Reversed(r)) == |r| - 1 - k
  {
    PeakIndexIsLastPeak(r, k);
    var rr := Reversed(r);
    assert UniquePeak(rr, |r| - 1 - k) by {
      forall j | 0 <= j < |rr| && j != |r| - 1 - k
        ensures Abs(rr[j]) < Abs(rr[|r| - 1 - k])
      {
        assert rr[j] == r[|r| - 1 - j];
      }
    }
    PeakIndexIsLastPeak(rr, |r| - 1 - k);
  }

  /** On a tie the last index wins in both orders, so the peak of the reversed
      sequence is not the mirror of the original peak. */
  lemma TiedPeakIsNotMirrored()
    ensures PeakIndex([1.0, -1.0]) == 1
    ensures PeakIndex(Reversed([1.0, -1.0])) == 1
  {
    assert Reversed([1.0, -1.0]) == [-1.0, 1.0];
  }

  /** The lag at the last peak of the de-meaned signals' cross-correlation. */
  function PeakLag(data1: seq<real>, data2: seq<real>): (lag: int)
    requires |data1| > 0 && |data2| > 0
    ensures -(|data2| - 1) <= lag <= |data1| - 1
  {
    Lags(|data1|, |data2|)[PeakIndex(CrossCorrelation(Demean(data1), Demean(data2)))]
  }

  /** When the correlation peak is unique, swapping the two signals negates the
      peak lag; on a tie the last-index rule breaks this symmetry. */
  lemma PeakLagSwap(data1: seq<real>, data2: seq<real>)
    requires |data1| > 0 && |data2| > 0
    requires var r := CrossCorrelation(Demean(data1), Demean(data2)); UniquePeak(r, PeakIndex(r))
    ensures PeakLag(data2, data1) == -PeakLag(data1, data2)
  {
    var a, b := Demean(data1), Demean(data2);
    var r := CrossCorrelation(a, b);
    var k := PeakIndex(r);
    CrossCorrelationSwap(a, b);
    UniquePeakOfReversed(r, k);
    LagsSwap(|a|, |b|, |r| - 1 - k);
  }

  /** The convection velocity from the peak lag: the separation over the delay
      lag / fs; undefined when the sampling rate or the lag is zero. */
  function TimeVelocity(dx: real, lag: int, fs: real): (r: Result<real>)
    ensures r.Err? <==> fs == 0.0 || lag == 0
    ensures r.Err? ==> r.error == if fs == 0.0 then ZeroSamplingRate else ZeroLag
    ensures r.Ok? ==> r.value * (lag as real / fs) == dx
  {
    if fs == 0.0 then Err(ZeroSamplingRate)
    else if lag == 0 then Err(ZeroLag)
    else Ok(dx / (lag as real / fs))
  }

  /** Negating both the separation and the lag (ndx = -dx, nlag = -lag) leaves
      the velocity unchanged; negating only the lag negates it. */
  lemma TimeVelocityUnderNegation(dx: real, lag: int, fs: real, ndx: real, nlag: int)
    requires TimeVelocity(dx, lag, fs).Ok?
    requires ndx == -dx && nlag == -lag
    ensures TimeVelocity(ndx, nlag, fs) == TimeVelocity(dx, lag, fs)
    ensures TimeVelocity(dx, nlag, fs) == Ok(-TimeVelocity(dx, lag, fs).value)
  {
    var t := lag as real / fs;
    assert nlag as real / fs == -t;
    assert ndx / -t == dx / t;
    assert dx / -t == -(dx / t);
  }

  /** The velocity at which a pattern crosses separation dx in d samples of
      rate fs, signed as the peak lag -d makes it: negative for dx > 0. */
  function DelayVelocity(dx: real, d: nat, fs: real): (v: real)
    requires d > 0
    ensures dx > 0.0 && fs > 0.0 ==> v < 0.0
  {
    PositiveQuotient(dx * fs, d as real);
    -dx * fs / d as real
  }

  lemma PositiveQuotient(p: real, q: real)
    requires q > 0.0
    ensures p > 0.0 ==> p / q > 0.0
  {
  }

  lemma TimeVelocityOfDelay(dx: real, d: nat, fs: real, lag: int)
    requires d > 0 && fs != 0.0 && lag == -(d as int)
    ensures TimeVelocity(dx, lag, fs) == Ok(DelayVelocity(dx, d, fs))
  {
    var t := lag as real / fs;
    assert t == -(d as real) / fs;
    assert dx / t == -dx * fs / d as real;
    assert DelayVelocity(dx, d, fs) == -dx * fs / d as real;
  }
}
