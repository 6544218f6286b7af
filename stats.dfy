/** The arithmetic mean that `np.mean` computes over a list of implied
    volatilities, on exact reals. */
module Stats {

  /** Sum of the values, added left to right. */
  function Sum(xs: seq<real>): real {
    if xs == [] then 0.0 else Sum(xs[..|xs| - 1]) + xs[|xs| - 1]
  }

  /** Every value lies in [lo, hi]. */
  ghost predicate Within(xs: seq<real>, lo: real, hi: real) {
    forall i :: 0 <= i < |xs| ==> lo <= xs[i] <= hi
  }

  /** A sum of n values in [lo, hi] lies in [n * lo, n * hi]. */
  lemma {:induction false} SumWithin(xs: seq<real>, lo: real, hi: real)
    requires Within(xs, lo, hi)
    ensures (|xs| as real) * lo <= Sum(xs) <= (|xs| as real) * hi
  {
    if xs != [] {
      var init, last := xs[..|xs| - 1], xs[|xs| - 1];
      SumWithin(init, lo, hi);
      var m := |init| as real;
      assert lo <= last <= hi;
      assert (|xs| as real) * lo == m * lo + lo;
      assert (|xs| as real) * hi == m * hi + hi;
    }
  }

  /** Smallest value of a non-empty list. */
  ghost function Min(xs: seq<real>): (m: real)
    requires |xs| > 0
    ensures m in xs && forall i :: 0 <= i < |xs| ==> m <= xs[i]
  {
    if |xs| == 1 then xs[0]
    else var m := Min(xs[..|xs| - 1]); if xs[|xs| - 1] < m then xs[|xs| - 1] else m
  }

  /** Largest value of a non-empty list. */
  ghost function Max(xs: seq<real>): (m: real)
    requires |xs| > 0
    ensures m in xs && forall i :: 0 <= i < |xs| ==> xs[i] <= m
  {
    if |xs| == 1 then xs[0]
    else var m := Max(xs[..|xs| - 1]); if m < xs[|xs| - 1] then xs[|xs| - 1] else m
  }

  /** `np.mean` of a non-empty list: its sum divided by its count, which
      lies between the smallest and the largest value. */
  function Mean(xs: seq<real>): (r: real)
    requires |xs| > 0
    ensures Min(xs) <= r <= Max(xs)
  {
    SumWithin(xs, Min(xs), Max(xs));
    RatioWithin(Sum(xs), |xs| as real, Min(xs), Max(xs));
    Sum(xs) / (|xs| as real)
  }

  /** A total between n * lo and n * hi, shared out over n > 0, gives a share in [lo, hi]. */
  lemma RatioWithin(total: real, n: real, lo: real, hi: real)
    requires n > 0.0 && n * lo <= total <= n * hi
    ensures lo <= total / n <= hi
  {
    var q := total / n;
    assert q * n == total;
  }

  /** The mean of values in [lo, hi] lies in [lo, hi]: averaging never
      produces a volatility outside the range observed at that strike. */
  lemma MeanWithin(xs: seq<real>, lo: real, hi: real)
    requires |xs| > 0 && Within(xs, lo, hi)
    ensures lo <= Mean(xs) <= hi
  {
    assert lo <= xs[0] <= hi;
  }

  /** The mean is any sum over the matching count. */
  lemma MeanIsRatio(xs: seq<real>, total: real, count: nat)
    requires |xs| > 0 && |xs| == count && Sum(xs) == total
    ensures Mean(xs) == total / (count as real)
  {
  }

  /** A single observation is its own mean. */
  lemma MeanOfOne(v: real)
    ensures Mean([v]) == v
  {
    assert [v][..0] == [];
    assert Sum([v]) == v;
  }
}
