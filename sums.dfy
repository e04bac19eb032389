/** Finite sums over exact reals: the summations behind the mean, the
    cross-correlation and the least-squares line fit. */
module Sums {

  /** f(lo) + f(lo + 1) + ... + f(hi - 1); zero when the range is empty. */
  function SumRange(f: int -> real, lo: int, hi: int): real
    decreases hi - lo
  {
    if hi <= lo then 0.0 else f(lo) + SumRange(f, lo + 1, hi)
  }

  /** Element i of s, and zero outside s (the zero padding of a full correlation). */
  function At(s: seq<real>, i: int): real
  {
    if 0 <= i < |s| then s[i] else 0.0
  }

  /** s as a zero-padded function of the sample index. */
  function Padded(s: seq<real>): int -> real
  {
    i => At(s, i)
  }

  /** Sample-by-sample product of a and b, zero-padded. */
  function Times(a: seq<real>, b: seq<real>): int -> real
  {
    i => At(a, i) * At(b, i)
  }

  function Sum(s: seq<real>): real
  {
    SumRange(Padded(s), 0, |s|)
  }

  /** The sum of a[i] * b[i] over the indices of a. */
  function SumProducts(a: seq<real>, b: seq<real>): real
  {
    SumRange(Times(a, b), 0, |a|)
  }

  lemma {:induction false} SumRangeSplit(f: int -> real, lo: int, mid: int, hi: int)
    requires lo <= mid <= hi
    ensures SumRange(f, lo, hi) == SumRange(f, lo, mid) + SumRange(f, mid, hi)
    decreases mid - lo
  {
    if lo < mid {
      SumRangeSplit(f, lo + 1, mid, hi);
    }
  }

  lemma {:induction false} SumRangeZero(f: int -> real, lo: int, hi: int)
    requires forall i :: lo <= i < hi ==> f(i) == 0.0
    ensures SumRange(f, lo, hi) == 0.0
    decreases hi - lo
  {
    if lo < hi {
      SumRangeZero(f, lo + 1, hi);
    }
  }

  /** A sum over a window is unchanged by extending the window with zero terms. */
  lemma SumRangeWindow(f: int -> real, lo: int, a: int, b: int, hi: int)
    requires lo <= a <= b <= hi
    requires forall i :: lo <= i < a ==> f(i) == 0.0
    requires forall i :: b <= i < hi ==> f(i) == 0.0
    ensures SumRange(f, lo, hi) == SumRange(f, a, b)
  {
    SumRangeSplit(f, lo, a, hi);
    SumRangeSplit(f, a, b, hi);
    SumRangeZero(f, lo, a);
    SumRangeZero(f, b, hi);
  }

  /** Re-indexing a sum by a constant offset d. */
  lemma {:induction false} SumRangeShift(f: int -> real, g: int -> real, lo: int, hi: int, d: int)
    requires forall i :: lo <= i < hi ==> g(i) == f(i + d)
    ensures SumRange(g, lo, hi) == SumRange(f, lo + d, hi + d)
    decreases hi - lo
  {
    if lo < hi {
      SumRangeShift(f, g, lo + 1, hi, d);
    }
  }

  /** Sums are linear: a pointwise combination p * f + q * g + c sums to the same combination of sums. */
  lemma {:induction false} SumRangeLinear(f: int -> real, g: int -> real, h: int -> real, p: real, q: real, c: real, lo: int, hi: int)
    requires lo <= hi
    requires forall i :: lo <= i < hi ==> h(i) == p * f(i) + q * g(i) + c
    ensures SumRange(h, lo, hi) == p * SumRange(f, lo, hi) + q * SumRange(g, lo, hi) + (hi - lo) as real * c
    decreases hi - lo
  {
    if lo < hi {
      SumRangeLinear(f, g, h, p, q, c, lo + 1, hi);
      var F, G := SumRange(f, lo + 1, hi), SumRange(g, lo + 1, hi);
      calc {
        SumRange(h, lo, hi);
        h(lo) + SumRange(h, lo + 1, hi);
        (p * f(lo) + q * g(lo) + c) + (p * F + q * G + (hi - lo - 1) as real * c);
        p * (f(lo) + F) + q * (g(lo) + G) + (hi - lo) as real * c;
      }
    }
  }

  lemma {:induction false} SumRangeNonNegative(f: int -> real, lo: int, hi: int)
    requires forall i :: lo <= i < hi ==> f(i) >= 0.0
    ensures SumRange(f, lo, hi) >= 0.0
    decreases hi - lo
  {
    if lo < hi {
      SumRangeNonNegative(f, lo + 1, hi);
    }
  }

  function Mul(f: int -> real, g: int -> real): int -> real
  {
    i => f(i) * g(i)
  }

  /** The pointwise combination p * f + q * g. */
  function Combine(f: int -> real, g: int -> real, p: real, q: real): int -> real
  {
    i => p * f(i) + q * g(i)
  }

  function Diff(f: int -> real, g: int -> real): int -> real
  {
    i => f(i) - g(i)
  }

  /** Scaling every term scales the sum. */
  lemma {:induction false} SumRangeScale(f: int -> real, g: int -> real, s: real, lo: int, hi: int)
    requires forall i :: lo <= i < hi ==> g(i) == s * f(i)
    ensures SumRange(g, lo, hi) == s * SumRange(f, lo, hi)
    decreases hi - lo
  {
    if lo < hi {
      SumRangeScale(f, g, s, lo + 1, hi);
    }
  }

  lemma {:induction false} SumRangeCongruent(f: int -> real, g: int -> real, lo: int, hi: int)
    requires forall i :: lo <= i < hi ==> f(i) == g(i)
    ensures SumRange(f, lo, hi) == SumRange(g, lo, hi)
    decreases hi - lo
  {
    if lo < hi {
      SumRangeCongruent(f, g, lo + 1, hi);
    }
  }

  /** The sum of (f - g)^2 expands to sum f^2 + sum g^2 - 2 sum f g. */
  lemma {:induction false} SumSquaredDifference(f: int -> real, g: int -> real, lo: int, hi: int)
    ensures SumRange(Mul(Diff(f, g), Diff(f, g)), lo, hi)
         == SumRange(Mul(f, f), lo, hi) + SumRange(Mul(g, g), lo, hi) - 2.0 * SumRange(Mul(f, g), lo, hi)
    decreases hi - lo
  {
    if lo < hi {
      SumSquaredDifference(f, g, lo + 1, hi);
      assert (f(lo) - g(lo)) * (f(lo) - g(lo)) == f(lo) * f(lo) + g(lo) * g(lo) - 2.0 * (f(lo) * g(lo));
    }
  }

  lemma SumRangeCombine(f: int -> real, g: int -> real, p: real, q: real, lo: int, hi: int)
    requires lo <= hi
    ensures SumRange(Combine(f, g, p, q), lo, hi) == p * SumRange(f, lo, hi) + q * SumRange(g, lo, hi)
  {
    SumRangeLinear(f, g, Combine(f, g, p, q), p, q, 0.0, lo, hi);
  }

  /** Non-negative terms of which one is positive have a positive sum. */
  lemma SumRangePositive(f: int -> real, lo: int, k: int, hi: int)
    requires lo <= k < hi
    requires forall i :: lo <= i < hi ==> f(i) >= 0.0
    requires f(k) > 0.0
    ensures SumRange(f, lo, hi) > 0.0
  {
    SumRangeSplit(f, lo, k, hi);
    SumRangeNonNegative(f, lo, k);
    SumRangeNonNegative(f, k + 1, hi);
  }

  /** Two windows that both hold every nonzero term have the same sum. */
  lemma SumRangeSupport(f: int -> real, lo: int, hi: int, lo': int, hi': int)
    requires lo <= hi && lo' <= hi'
    requires forall i :: f(i) != 0.0 ==> lo <= i < hi && lo' <= i < hi'
    ensures SumRange(f, lo, hi) == SumRange(f, lo', hi')
  {
    var a := if lo < lo' then lo' else lo;
    var b := if hi < hi' then hi else hi';
    if a <= b {
      SumRangeWindow(f, lo, a, b, hi);
      SumRangeWindow(f, lo', a, b, hi');
    } else {
      SumRangeZero(f, lo, hi);
      SumRangeZero(f, lo', hi');
    }
  }
}
