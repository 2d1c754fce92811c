/** The percentile estimator (`getMonteCarloAverageStat`) and the choice the
    stat grid makes between it and the fixed-mode evaluator. */
module PercentileEstimator {
  import opened Catalog
  import opened StatEvaluator
  import opened StatProperties
  import opened Sorting

  datatype Option<T> = None | Some(value: T)

  /** `Math.round(n / 100 * percentile)` on the exact quotient: the nearest
      integer, halves rounded up. */
  function RankIndex(n: nat, percentile: nat): (k: nat)
    ensures 100 * k <= n * percentile + 50 < 100 * k + 100
  {
    (n * percentile + 50) / 100
  }

  /** The index is in range exactly when `n * (100 - percentile) > 50`; the
      source does not clamp it, so for instance two samples at the 75th
      percentile give index 2, past the end. */
  lemma RankIndexInRange(n: nat, percentile: nat)
    ensures RankIndex(n, percentile) < n <==> 50 < n * (100 - percentile)
  {
    var k := RankIndex(n, percentile);
    assert n * (100 - percentile) == 100 * n - n * percentile;
    if k < n {
      assert 100 * k + 100 <= 100 * n;
    } else {
      assert 100 * n <= 100 * k;
    }
  }

  /** The sample of rank `RankIndex` among the sorted samples, or `None`
      where the source reads past the end of the list (`undefined`). */
  function Percentile(samples: seq<int>, percentile: nat): (r: Option<int>)
    ensures r.Some? <==> RankIndex(|samples|, percentile) < |samples|
    ensures r.Some? ==> r.value in multiset(samples)
  {
    var sorted := Sort(samples);
    var k := RankIndex(|samples|, percentile);
    assert |sorted| == |multiset(sorted)| == |samples|;
    if k < |sorted| then
      assert sorted[k] in multiset(sorted);
      Some(sorted[k])
    else None
  }

  /** `n` random samples; sample `i` sees the draws `draws(i)`. */
  function Samples(p: Props, classes: Classes, stat: Stat, n: nat, draws: nat -> nat -> real): (s: seq<int>)
    requires WellFormed(p, classes)
    ensures |s| == n
  {
    seq(n, i requires 0 <= i => SampleStat(p, classes, stat, draws(i)))
  }

  lemma SamplesSnoc(p: Props, classes: Classes, stat: Stat, i: nat, draws: nat -> nat -> real)
    requires WellFormed(p, classes)
    ensures Samples(p, classes, stat, i + 1, draws)
         == Samples(p, classes, stat, i, draws) + [SampleStat(p, classes, stat, draws(i))]
  {
  }

  /** `getMonteCarloAverageStat(stat, n, percentile)`: collects `n` random
      samples, sorts them ascending and reads the one at the rounded rank. */
  method MonteCarloAverageStat(p: Props, classes: Classes, stat: Stat, n: nat, percentile: nat,
                               draws: nat -> nat -> real) returns (r: Option<int>)
    requires WellFormed(p, classes)
    ensures r == Percentile(Samples(p, classes, stat, n, draws), percentile)
  {
    var dataList: seq<int> := [];
    var i := 0;
    while i < n
      invariant 0 <= i <= n
      invariant dataList == Samples(p, classes, stat, i, draws)
    {
      var sample := AverageStat(p, classes, stat, false, draws(i));
      SamplesSnoc(p, classes, stat, i, draws);
      dataList := dataList + [sample];
      i := i + 1;
    }
    dataList := Sort(dataList);
    var index := RankIndex(n, percentile);
    if index < |dataList| {
      r := Some(dataList[index]);
    } else {
      r := None;
    }
  }

  /** The value a stat cell shows: fixed mode at exactly the 50th percentile,
      the Monte Carlo estimate otherwise. */
  method StatDisplayValue(p: Props, classes: Classes, stat: Stat, percentile: nat, percentileIterations: nat,
                          draws: nat -> nat -> real) returns (r: Option<int>)
    requires WellFormed(p, classes)
    ensures percentile == 50 ==> r == Some(FixedStat(p, classes, stat))
    ensures percentile != 50 ==> r == Percentile(Samples(p, classes, stat, percentileIterations, draws), percentile)
  {
    if percentile == 50 {
      var v := AverageStat(p, classes, stat, true, draws(0));
      r := Some(v);
    } else {
      r := MonteCarloAverageStat(p, classes, stat, percentileIterations, percentile, draws);
    }
  }

  /** A found percentile is the element of rank `RankIndex` in every
      ascending arrangement of the samples, whichever sort produced it. */
  lemma PercentileIsRank(samples: seq<int>, percentile: nat, arranged: seq<int>)
    requires Ascending(arranged) && multiset(arranged) == multiset(samples)
    requires Percentile(samples, percentile).Some?
    ensures |arranged| == |samples|
    ensures arranged[RankIndex(|samples|, percentile)] == Percentile(samples, percentile).value
  {
    assert |arranged| == |multiset(arranged)| == |samples|;
    SortedPermutationsEqual(arranged, Sort(samples));
  }

  /** A percentile of a list of equal samples is that value. */
  lemma PercentileOfConstant(samples: seq<int>, percentile: nat, x: int)
    requires forall k :: 0 <= k < |samples| ==> samples[k] == x
    requires Percentile(samples, percentile).Some?
    ensures Percentile(samples, percentile).value == x
  {
    var y := Percentile(samples, percentile).value;
    assert y in samples;
  }

  /** Every estimate of a grown stat lies between the all-failures run and
      that run plus one point per trial. */
  lemma EstimateWithinSampleBounds(p: Props, classes: Classes, stat: Stat, n: nat, percentile: nat,
                                   draws: nat -> nat -> real)
    requires WellFormed(p, classes) && stat != Mv
    requires Percentile(Samples(p, classes, stat, n, draws), percentile).Some?
    ensures var x := Percentile(Samples(p, classes, stat, n, draws), percentile).value;
      AllFailures(p, classes, stat) <= x <= AllFailures(p, classes, stat) + 100 * TotalTrials(IntervalsOf(p, classes, stat))
  {
    var s := Samples(p, classes, stat, n, draws);
    var x := Percentile(s, percentile).value;
    assert x in s;
    var i :| 0 <= i < n && s[i] == x;
    SampleBounds(p, classes, stat, draws(i));
  }

  /** Movement estimates are the final class's movement, like the fixed mode. */
  lemma MovementEstimate(p: Props, classes: Classes, n: nat, percentile: nat, draws: nat -> nat -> real)
    requires WellFormed(p, classes)
    requires Percentile(Samples(p, classes, Mv, n, draws), percentile).Some?
    ensures Percentile(Samples(p, classes, Mv, n, draws), percentile).value == FixedStat(p, classes, Mv)
  {
    var s := Samples(p, classes, Mv, n, draws);
    forall k | 0 <= k < |s| ensures s[k] == FixedStat(p, classes, Mv) {
      MovementIsFinalClassBase(p, classes, draws(k));
    }
    PercentileOfConstant(s, percentile, FixedStat(p, classes, Mv));
  }

  /** Two samples at the 75th percentile: the rank is 2 and nothing is found. */
  lemma TwoSamplesAtSeventyFifth(a: int, b: int)
    ensures RankIndex(2, 75) == 2
    ensures Percentile([a, b], 75) == None
  {
  }
}
