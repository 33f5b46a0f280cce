/** Bootstrap confidence intervals: resampling driven by a 64-bit linear congruential
  generator, exact rational arithmetic in place of floating point.
  */
module Bootstrap {
  import opened Sorting

  const MODULUS := 0x1_0000_0000_0000_0000
  const MULTIPLIER := 6364136223846793005
  const SEED := 123456789

  /** Generator state after `k` draws. */
  function Rng(k: nat): (r: nat)
    ensures r < MODULUS
  {
    if k == 0 then SEED else (Rng(k - 1) * MULTIPLIER + 1) % MODULUS
  }

  function Pick(k: nat, n: nat): (i: nat)
    requires n > 0
    ensures i < n
  {
    Rng(k + 1) / 0x1_0000_0000 % n
  }

  /** Reference words and errors of one sample, for a baseline and for the run of interest. */
  datatype Sample = Sample(words: nat, baseline: nat, errors: nat)

  /** Totals of `m` draws starting at draw `from`. */
  function Drawn(samples: seq<Sample>, from: nat, m: nat): Sample {
    if m == 0 || samples == [] then Sample(0, 0, 0) else
    var t, s := Drawn(samples, from, m - 1), samples[Pick(from + m - 1, |samples|)];
    Sample(t.words + s.words, t.baseline + s.baseline, t.errors + s.errors)
  }

  /** Error rate of one resample, in percent. */
  function Rate(t: Sample): real {
    if t.words > 0 then t.errors as real / t.words as real * 100.0 else 0.0
  }

  /** Difference to the baseline's error rate. */
  function RateDelta(t: Sample): real {
    if t.words == 0 then 0.0
    else (t.errors as real / t.words as real - t.baseline as real / t.words as real) * 100.0
  }

  function Statistics(statistic: Sample -> real, samples: seq<Sample>, iterations: nat): (s: seq<real>)
    ensures |s| == iterations
    ensures forall t :: 0 <= t < iterations ==> s[t] == statistic(Drawn(samples, t * |samples|, |samples|))
  {
    seq(iterations, t requires 0 <= t < iterations => statistic(Drawn(samples, t * |samples|, |samples|)))
  }

  function AtMost(): (real, real) -> bool {
    (x, y) => x <= y
  }

  /** The 2.5th and 97.5th percentile entries of the sorted statistics. */
  function Interval(statistics: seq<real>): (real, real)
    requires statistics != []
  {
    SortCorrect(AtMost(), statistics);
    var sorted := Sort(AtMost(), statistics);
    (sorted[|sorted| * 25 / 1000], sorted[|sorted| * 975 / 1000])
  }

  /** Both bootstraps: draw as many samples as there are, add up, keep the statistic. */
  method Resample(statistic: Sample -> real, samples: seq<Sample>, iterations: nat) returns (statistics: seq<real>)
    ensures statistics == Statistics(statistic, samples, iterations)
  {
    var rng := SEED;
    statistics := [];
    var n := |samples|;
    for t := 0 to iterations
      invariant rng == Rng(t * n)
      invariant statistics == Statistics(statistic, samples, t)
    {
      var total := Sample(0, 0, 0);
      for m := 0 to n
        invariant rng == Rng(t * n + m)
        invariant total == Drawn(samples, t * n, m)
      {
        rng := (rng * MULTIPLIER + 1) % MODULUS;
        var i := rng / 0x1_0000_0000 % n;
        assert i == Pick(t * n + m, n);
        total := Sample(total.words + samples[i].words, total.baseline + samples[i].baseline,
                        total.errors + samples[i].errors);
      }
      assert (t + 1) * n == t * n + n;
      statistics := statistics + [statistic(total)];
    }
  }

  method BootstrapCi(samples: seq<Sample>, iterations: nat) returns (low: real, high: real)
    requires iterations > 0
    ensures samples == [] ==> low == high == 0.0
    ensures samples != [] ==> (low, high) == Interval(Statistics(Rate, samples, iterations))
  {
    if samples == [] {
      return 0.0, 0.0;
    }
    var rates := Resample(Rate, samples, iterations);
    var interval := Interval(rates);
    low, high := interval.0, interval.1;
  }

  method BootstrapDeltaCi(samples: seq<Sample>, iterations: nat) returns (low: real, high: real)
    requires iterations > 0
    ensures (low, high) == Interval(Statistics(RateDelta, samples, iterations))
  {
    var deltas := Resample(RateDelta, samples, iterations);
    var interval := Interval(deltas);
    low, high := interval.0, interval.1;
  }

  // ------------------------------------------------------------------- properties

  lemma IntervalWithin(statistics: seq<real>, lo: real, hi: real)
    requires statistics != [] && forall k :: 0 <= k < |statistics| ==> lo <= statistics[k] <= hi
    ensures lo <= Interval(statistics).0 <= Interval(statistics).1 <= hi
  {
    SortCorrect(AtMost(), statistics);
    var sorted := Sort(AtMost(), statistics);
    var i, j := |sorted| * 25 / 1000, |sorted| * 975 / 1000;
    assert sorted[i] in multiset(statistics) && sorted[j] in multiset(statistics);
    if i < j { assert AtMost()(sorted[i], sorted[j]); }
  }

  /** Bounds on every sample's ratio carry over to any sum of samples. */
  lemma {:induction false} DrawnWithin(samples: seq<Sample>, from: nat, m: nat, lo: real, hi: real)
    requires samples != []
    requires forall k :: 0 <= k < |samples| ==> samples[k].words > 0 && Within(samples[k], lo, hi)
    ensures Drawn(samples, from, m).words >= m && Within(Drawn(samples, from, m), lo, hi)
  {
    hide Pick, Within;
    if m == 0 { NothingWithin(lo, hi); }
    if m > 0 {
      DrawnWithin(samples, from, m - 1, lo, hi);
      AddWithin(Drawn(samples, from, m - 1), samples[Pick(from + m - 1, |samples|)], lo, hi);
    }
  }

  ghost predicate Within(t: Sample, lo: real, hi: real) {
    lo * t.words as real <= 100.0 * t.errors as real <= hi * t.words as real
  }

  lemma NothingWithin(lo: real, hi: real)
    ensures Within(Sample(0, 0, 0), lo, hi)
  {
  }

  lemma AddWithin(t: Sample, s: Sample, lo: real, hi: real)
    requires Within(t, lo, hi) && Within(s, lo, hi)
    ensures Within(Sample(t.words + s.words, t.baseline + s.baseline, t.errors + s.errors), lo, hi)
  {
    Distribute(lo, t.words as real, s.words as real);
    Distribute(hi, t.words as real, s.words as real);
  }

  lemma Distribute(c: real, x: real, y: real)
    ensures c * (x + y) == c * x + c * y
  {
  }

  lemma Cancel(x: real, y: real, w: real)
    requires w > 0.0 && x * w <= y * w
    ensures x <= y
  {
    assert (y - x) * w >= 0.0;
  }

  lemma RateTimesWords(t: Sample)
    requires t.words > 0
    ensures Rate(t) * t.words as real == 100.0 * t.errors as real
  {
    var w, e := t.words as real, t.errors as real;
    assert e / w * w == e;
  }

  lemma ScaledUp(x: real, y: real, w: real)
    requires w > 0.0 && x <= y
    ensures x * w <= y * w
  {
  }

  lemma RateWithin(t: Sample, lo: real, hi: real)
    requires t.words > 0 && Within(t, lo, hi)
    ensures lo <= Rate(t) <= hi
  {
    RateTimesWords(t);
    Cancel(lo, Rate(t), t.words as real);
    Cancel(Rate(t), hi, t.words as real);
  }

  /** A rate is errors in the hundred words, or zero without words. */
  lemma RateIs(t: Sample)
    ensures if t.words == 0 then Rate(t) == 0.0 else Rate(t) * t.words as real == 100.0 * t.errors as real
  {
    if t.words > 0 { RateTimesWords(t); }
  }

  /** The paired statistic is the rate of the run less the rate of the baseline. */
  lemma DeltaIsDifference(t: Sample)
    ensures RateDelta(t) == Rate(t) - Rate(t.(errors := t.baseline))
  {
  }

  /** The ends of the interval are the entries at 2.5 and 97.5 percent of the statistics in
      ascending order. */
  lemma IntervalIsPercentiles(statistics: seq<real>) returns (ascending: seq<real>)
    requires statistics != []
    ensures multiset(ascending) == multiset(statistics) && |ascending| == |statistics|
    ensures forall i, j :: 0 <= i < j < |ascending| ==> ascending[i] <= ascending[j]
    ensures Interval(statistics).0 == ascending[|statistics| * 25 / 1000]
    ensures Interval(statistics).1 == ascending[|statistics| * 975 / 1000]
  {
    SortCorrect(AtMost(), statistics);
    ascending := Sort(AtMost(), statistics);
    forall i, j | 0 <= i < j < |ascending| ensures ascending[i] <= ascending[j] {
      assert AtMost()(ascending[i], ascending[j]);
    }
  }

  /** The first three states of the generator, and what they draw out of ten. */
  lemma FirstDraws()
    ensures Rng(0) == 123456789
    ensures Rng(1) == 16749904790159980466 && Rng(2) == 2667450993250490443 && Rng(3) == 17179414867444283952
    ensures Pick(0, 10) == 3 && Pick(1, 10) == 1 && Pick(2, 10) == 1
  {
  }

  /** The interval lies between the smallest and the largest per-sample error rate, in order. */
  lemma IntervalWithinSampleRates(samples: seq<Sample>, iterations: nat, lo: real, hi: real)
    requires samples != [] && iterations > 0
    requires forall k :: 0 <= k < |samples| ==> samples[k].words > 0 && lo <= Rate(samples[k]) <= hi
    ensures var ci := Interval(Statistics(Rate, samples, iterations)); lo <= ci.0 <= ci.1 <= hi
  {
    hide Rate, Drawn, Interval;
    forall k | 0 <= k < |samples| ensures Within(samples[k], lo, hi)
    {
      RateTimesWords(samples[k]);
      ScaledUp(lo, Rate(samples[k]), samples[k].words as real);
      ScaledUp(Rate(samples[k]), hi, samples[k].words as real);
    }
    forall t | 0 <= t < iterations ensures lo <= Statistics(Rate, samples, iterations)[t] <= hi {
      DrawnWithin(samples, t * |samples|, |samples|, lo, hi);
      RateWithin(Drawn(samples, t * |samples|, |samples|), lo, hi);
    }
    IntervalWithin(Statistics(Rate, samples, iterations), lo, hi);
  }

  lemma {:induction false} NoBaselineErrors(samples: seq<Sample>, from: nat, m: nat)
    requires forall k :: 0 <= k < |samples| ==> samples[k].baseline == 0
    ensures Drawn(samples, from, m).baseline == 0
  {
    if m > 0 { NoBaselineErrors(samples, from, m - 1); }
  }

  /** Against an error-free baseline the interval of the difference is the interval of the
      rate; the two programs draw the same resamples. */
  lemma DeltaAgainstPerfectBaseline(samples: seq<Sample>, iterations: nat)
    requires iterations > 0 && forall k :: 0 <= k < |samples| ==> samples[k].baseline == 0
    ensures Interval(Statistics(RateDelta, samples, iterations)) == Interval(Statistics(Rate, samples, iterations))
    ensures samples == [] ==> Interval(Statistics(RateDelta, samples, iterations)) == (0.0, 0.0)
  {
    forall t | 0 <= t < iterations
      ensures Statistics(RateDelta, samples, iterations)[t] == Statistics(Rate, samples, iterations)[t]
    {
      NoBaselineErrors(samples, t * |samples|, |samples|);
      var total := Drawn(samples, t * |samples|, |samples|);
      if total.words > 0 { assert 0.0 / total.words as real == 0.0; }
    }
    assert Statistics(RateDelta, samples, iterations) == Statistics(Rate, samples, iterations);
    if samples == [] {
      IntervalWithin(Statistics(RateDelta, samples, iterations), 0.0, 0.0);
    }
  }
}
