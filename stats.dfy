/**
 * The distance aggregation behind `_calculate_base_stats`: minimum, mean,
 * median and maximum of the neighbour distances returned by the index, and
 * the number of neighbours strictly closer than the threshold.
 */
module DistanceStats {

  /** The index returns neighbours in ascending order of distance. */
  predicate Ascending(ds: seq<real>) {
    forall i, j :: 0 <= i < j < |ds| ==> ds[i] <= ds[j]
  }

  /** Every distance lies in [lo, hi]. */
  predicate AllWithin(ds: seq<real>, lo: real, hi: real) {
    forall i :: 0 <= i < |ds| ==> lo <= ds[i] <= hi
  }

  function Sum(ds: seq<real>): real {
    if ds == [] then 0.0 else Sum(ds[..|ds| - 1]) + ds[|ds| - 1]
  }

  /** `np.mean`. */
  function Mean(ds: seq<real>): real
    requires ds != []
  {
    Sum(ds) / (|ds| as real)
  }

  /** Python's `min` over the list. */
  function Min(ds: seq<real>): real
    requires ds != []
  {
    if |ds| == 1 then ds[0]
    else
      var m := Min(ds[..|ds| - 1]);
      if ds[|ds| - 1] < m then ds[|ds| - 1] else m
  }

  /** Python's `max` over the list. */
  function Max(ds: seq<real>): real
    requires ds != []
  {
    if |ds| == 1 then ds[0]
    else
      var m := Max(ds[..|ds| - 1]);
      if ds[|ds| - 1] > m then ds[|ds| - 1] else m
  }

  /**
   * `np.median` of a list that is already in ascending order: the middle
   * value, or the average of the two middle values when the length is even.
   */
  function Median(ds: seq<real>): real
    requires ds != [] && Ascending(ds)
  {
    var n := |ds|;
    if n % 2 == 1 then ds[n / 2] else (ds[n / 2 - 1] + ds[n / 2]) / 2.0
  }

  /** Number of distances strictly below the threshold. */
  function CountBelow(ds: seq<real>, threshold: real): nat {
    if ds == [] then 0
    else CountBelow(ds[..|ds| - 1], threshold) + (if ds[|ds| - 1] < threshold then 1 else 0)
  }

  lemma {:induction false} MinIsLeast(ds: seq<real>)
    requires ds != []
    ensures forall i :: 0 <= i < |ds| ==> Min(ds) <= ds[i]
    ensures exists i :: 0 <= i < |ds| && Min(ds) == ds[i]
  {
    if |ds| > 1 {
      var init := ds[..|ds| - 1];
      MinIsLeast(init);
      var j :| 0 <= j < |init| && Min(init) == init[j];
      if ds[|ds| - 1] < Min(init) {
        assert Min(ds) == ds[|ds| - 1];
      } else {
        assert ds[j] == init[j];
        assert Min(ds) == ds[j];
      }
      forall i | 0 <= i < |ds| ensures Min(ds) <= ds[i] {
        if i < |ds| - 1 { assert ds[i] == init[i]; }
      }
    } else {
      assert Min(ds) == ds[0];
    }
  }

  lemma {:induction false} MaxIsGreatest(ds: seq<real>)
    requires ds != []
    ensures forall i :: 0 <= i < |ds| ==> ds[i] <= Max(ds)
    ensures exists i :: 0 <= i < |ds| && Max(ds) == ds[i]
  {
    if |ds| > 1 {
      var init := ds[..|ds| - 1];
      MaxIsGreatest(init);
      var j :| 0 <= j < |init| && Max(init) == init[j];
      if ds[|ds| - 1] > Max(init) {
        assert Max(ds) == ds[|ds| - 1];
      } else {
        assert ds[j] == init[j];
        assert Max(ds) == ds[j];
      }
      forall i | 0 <= i < |ds| ensures ds[i] <= Max(ds) {
        if i < |ds| - 1 { assert ds[i] == init[i]; }
      }
    } else {
      assert Max(ds) == ds[0];
    }
  }

  /** On an ascending list the minimum is the first and the maximum the last distance. */
  lemma AscendingEnds(ds: seq<real>)
    requires ds != [] && Ascending(ds)
    ensures Min(ds) == ds[0] && Max(ds) == ds[|ds| - 1]
  {
    MinIsLeast(ds);
    MaxIsGreatest(ds);
  }

  lemma {:induction false} SumBounds(ds: seq<real>, lo: real, hi: real)
    requires AllWithin(ds, lo, hi)
    ensures (|ds| as real) * lo <= Sum(ds) <= (|ds| as real) * hi
  {
    if ds != [] {
      var init := ds[..|ds| - 1];
      assert AllWithin(init, lo, hi) by {
        forall i | 0 <= i < |init| ensures lo <= init[i] <= hi { assert init[i] == ds[i]; }
      }
      SumBounds(init, lo, hi);
      assert (|ds| as real) * lo == (|init| as real) * lo + lo;
      assert (|ds| as real) * hi == (|init| as real) * hi + hi;
    }
  }

  /** The mean lies between the smallest and the largest distance. */
  lemma MeanBetweenMinAndMax(ds: seq<real>)
    requires ds != []
    ensures Min(ds) <= Mean(ds) <= Max(ds)
  {
    MinIsLeast(ds);
    MaxIsGreatest(ds);
    SumBounds(ds, Min(ds), Max(ds));
    var n := |ds| as real;
    DivideBounds(Sum(ds), n, Min(ds), Max(ds));
  }

  lemma DivideBounds(s: real, n: real, lo: real, hi: real)
    requires n > 0.0 && n * lo <= s <= n * hi
    ensures lo <= s / n <= hi
  {
    var q := s / n;
    assert q * n == s;
    assert (q - lo) * n >= 0.0;
    assert (hi - q) * n >= 0.0;
  }

  /** The median lies between the smallest and the largest distance. */
  lemma MedianBetweenMinAndMax(ds: seq<real>)
    requires ds != [] && Ascending(ds)
    ensures Min(ds) <= Median(ds) <= Max(ds)
  {
    AscendingEnds(ds);
  }

  /** Distances in [lo, hi] give a minimum, mean, median and maximum in [lo, hi]. */
  lemma StatsWithin(ds: seq<real>, lo: real, hi: real)
    requires ds != [] && Ascending(ds) && AllWithin(ds, lo, hi)
    ensures lo <= Min(ds) && Max(ds) <= hi
    ensures lo <= Mean(ds) <= hi && lo <= Median(ds) <= hi
  {
    MinIsLeast(ds);
    MaxIsGreatest(ds);
    MeanBetweenMinAndMax(ds);
    MedianBetweenMinAndMax(ds);
  }

  lemma {:induction false} CountBelowBounds(ds: seq<real>, threshold: real)
    ensures CountBelow(ds, threshold) <= |ds|
    ensures CountBelow(ds, threshold) == 0 <==> forall i :: 0 <= i < |ds| ==> ds[i] >= threshold
  {
    if ds != [] {
      var init := ds[..|ds| - 1];
      CountBelowBounds(init, threshold);
      if CountBelow(ds, threshold) == 0 {
        forall i | 0 <= i < |ds| ensures ds[i] >= threshold {
          if i < |ds| - 1 { assert ds[i] == init[i]; }
        }
      }
      if forall i :: 0 <= i < |ds| ==> ds[i] >= threshold {
        forall i | 0 <= i < |init| ensures init[i] >= threshold { assert init[i] == ds[i]; }
      }
    }
  }
}
