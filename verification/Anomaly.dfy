/** The anomaly verdict over one weekly slot: a classic z-score and the robust one side by
    side. The square root behind the standard deviation is outside the model: the deviation
    is an argument, constrained to be the root of the sample variance. */
module Anomaly {
  import opened Reals
  import opened RobustStats

  const MIN_SAMPLES_FOR_BASELINE := 5

  function SquaredDistances(s: seq<real>, center: real): real {
    if s == [] then 0.0 else (s[0] - center) * (s[0] - center) + SquaredDistances(s[1..], center)
  }

  /** `d` is `statistics.stdev(samples)`. */
  predicate IsStdev(samples: seq<real>, d: real) {
    && d >= 0.0
    && (if |samples| > 1 then d * d * ((|samples| - 1) as real) == SquaredDistances(samples, Mean(samples)) else d == 0.0)
  }

  datatype Score = Finite(value: real) | Infinite

  predicate Reaches(z: Score, threshold: real) {
    z.Infinite? || z.value >= threshold
  }

  datatype Verdict =
    | InsufficientBaseline
    | Verdict(isAnomaly: bool, zScore: Score, robustZScore: real, classicAnomaly: bool, robustAnomaly: bool,
              poisoningSuspected: bool)

  function ClassicScore(total: real, mean: real, stdev: real): Score {
    if stdev == 0.0 then (if total != mean then Infinite else Finite(0.0))
    else Finite((total - mean) / stdev)
  }

  /** `check_anomaly` on the samples of the slot. */
  function CheckAnomaly(total: real, samples: seq<real>, stdev: real, threshold: real): Verdict
    requires IsStdev(samples, stdev)
  {
    if |samples| < MIN_SAMPLES_FOR_BASELINE then InsufficientBaseline
    else
      var (median, mad) := MedianMad(samples);
      var z := ClassicScore(total, Mean(samples), stdev);
      var robustZ := ModifiedZScore(total, median, mad);
      var classic := Reaches(z, threshold);
      var robust := robustZ >= threshold;
      Verdict(classic || robust, z, robustZ, classic, robust, robust && !classic)
  }

  // ---------- the verdict in plain terms ----------

  function SumOfSquares(s: seq<real>): real {
    if s == [] then 0.0 else s[0] * s[0] + SumOfSquares(s[1..])
  }

  lemma OneMoreSample(s: seq<real>, c: real)
    requires s != []
    ensures SquaredDistances(s, c) == (s[0] - c) * (s[0] - c) + SquaredDistances(s[1..], c)
    ensures SumOfSquares(s) == s[0] * s[0] + SumOfSquares(s[1..])
    ensures Sum(s) == s[0] + Sum(s[1..])
    ensures |s| as real == (|s[1..]| as real) + 1.0
  {}

  lemma NoSamples(c: real)
    ensures SquaredDistances([], c) == SumOfSquares([]) == Sum([]) == 0.0
  {}

  lemma {:induction false} DistancesFromSums(s: seq<real>, c: real)
    ensures SquaredDistances(s, c) == SumOfSquares(s) - 2.0 * c * Sum(s) + (|s| as real) * c * c
  {
    hide SquaredDistances, SumOfSquares, Sum;
    if s == [] {
      NoSamples(c);
    } else {
      OneMoreSample(s, c);
      DistancesFromSums(s[1..], c);
      OneMoreDistance(s[0], c, SumOfSquares(s[1..]), Sum(s[1..]), |s[1..]| as real);
    }
  }

  lemma OneMoreDistance(x: real, c: real, squares: real, sum: real, n: real)
    ensures (x - c) * (x - c) + (squares - 2.0 * c * sum + n * c * c)
            == (x * x + squares) - 2.0 * c * (x + sum) + (n + 1.0) * c * c
  {}

  /** The standard deviation by sums alone: n (n - 1) times its square is n times the sum of
      the squares less the square of the sum. A single sample has none. */
  lemma StdevFromSums(samples: seq<real>, d: real)
    ensures |samples| < 2 ==> (IsStdev(samples, d) <==> d == 0.0)
    ensures |samples| >= 2 ==>
              var n := |samples| as real;
              (IsStdev(samples, d) <==>
               d >= 0.0 && d * d * (n - 1.0) * n == n * SumOfSquares(samples) - Sum(samples) * Sum(samples))
  {
    hide SquaredDistances, SumOfSquares, Sum;
    if |samples| < 2 { return; }
    var n, c := |samples| as real, Mean(samples);
    DistancesFromSums(samples, c);
    var q := SquaredDistances(samples, c);
    CenteredSums(n, c, SumOfSquares(samples), Sum(samples), q);
    SameProduct(d * d * (n - 1.0), q, n);
  }

  lemma CenteredSums(n: real, c: real, squares: real, sum: real, q: real)
    requires n > 0.0 && c == sum / n && q == squares - 2.0 * c * sum + n * c * c
    ensures q * n == n * squares - sum * sum
  {
    QuotientTimes(sum, n);
    assert c * n == sum;
    assert (n * c * c) * n == (c * n) * (c * n) == sum * sum;
    assert (2.0 * c * sum) * n == 2.0 * sum * (c * n) == 2.0 * sum * sum;
  }

  lemma SameProduct(a: real, b: real, n: real)
    requires n > 0.0
    ensures a == b <==> a * n == b * n
  {
    if a < b { StrictProduct(a, b, n); } else if b < a { StrictProduct(b, a, n); }
  }

  lemma ClassicBound(total: real, mean: real, stdev: real, threshold: real)
    requires stdev > 0.0
    ensures (total - mean) / stdev * stdev == total - mean
    ensures (total - mean) / stdev >= threshold <==> total >= mean + threshold * stdev
  {
    var z := (total - mean) / stdev;
    QuotientTimes(total - mean, stdev);
    assert z * stdev == total - mean;
    if z >= threshold { MonotoneProduct(threshold, z, stdev); } else { StrictProduct(z, threshold, stdev); }
  }

  lemma ClassicInPlainTerms(total: real, mean: real, stdev: real, threshold: real)
    requires stdev >= 0.0
    ensures var z := ClassicScore(total, mean, stdev);
            && (Reaches(z, threshold) <==>
                  if stdev > 0.0 then total >= mean + threshold * stdev else total != mean || threshold <= 0.0)
            && (if stdev > 0.0 then z.Finite? && z.value * stdev == total - mean
                else z == if total == mean then Finite(0.0) else Infinite)
  {
    if stdev > 0.0 { ClassicBound(total, mean, stdev, threshold); }
  }

  lemma RobustInPlainTerms(total: real, med: real, mad: real, threshold: real)
    requires mad >= 0.0
    ensures var z := ModifiedZScore(total, med, mad);
            && (z >= threshold <==> if mad > 0.0 then 0.6745 * (total - med) >= threshold * mad else threshold <= 0.0)
            && (if mad > 0.0 then z * mad == 0.6745 * (total - med) else z == 0.0)
  {
    ScoreInScaledMads(total, med, mad);
    if mad > 0.0 { ScaledBound(total, med, mad, threshold); }
  }

  /** The whole verdict. Fewer than five samples give none. Otherwise the classic detector
      reports the totals at least `threshold` standard deviations above the mean, or, without
      any deviation, the totals that differ from the mean; the robust one those whose scaled
      distance above the median reaches `threshold` MADs; either report is an anomaly, and a
      robust one alone is a suspicion of poisoning. */
  lemma VerdictInPlainTerms(total: real, samples: seq<real>, stdev: real, threshold: real)
    requires IsStdev(samples, stdev)
    ensures var v := CheckAnomaly(total, samples, stdev, threshold);
            if |samples| < 5 then v == InsufficientBaseline
            else
              var (mean, (med, mad)) := (Mean(samples), MedianMad(samples));
              && v.Verdict?
              && (v.classicAnomaly <==>
                    if stdev > 0.0 then total >= mean + threshold * stdev else total != mean || threshold <= 0.0)
              && (v.robustAnomaly <==> if mad > 0.0 then 0.6745 * (total - med) >= threshold * mad else threshold <= 0.0)
              && (v.isAnomaly <==> v.classicAnomaly || v.robustAnomaly)
              && (v.poisoningSuspected <==> v.robustAnomaly && !v.classicAnomaly)
              && (if stdev > 0.0 then v.zScore.Finite? && v.zScore.value * stdev == total - mean
                  else v.zScore == if total == mean then Finite(0.0) else Infinite)
              && (if mad > 0.0 then v.robustZScore * mad == 0.6745 * (total - med) else v.robustZScore == 0.0)
  {
    hide MedianMad, Mean, SquaredDistances, ModifiedZScore, ClassicScore, Reaches;
    if |samples| >= 5 {
      var (med, mad) := MedianMad(samples);
      MadIsNonNegative(samples);
      ClassicInPlainTerms(total, Mean(samples), stdev, threshold);
      RobustInPlainTerms(total, med, mad, threshold);
    }
  }

  /** A baseline whose median is its minimum: eight samples of 10 and one of 16 have mean
      32/3, deviation 2 and MAD 0, so only the classic detector can report, and a total of
      100 is reported. */
  lemma ClassicCoversZeroMad()
    ensures var samples := [10.0, 10.0, 10.0, 10.0, 10.0, 10.0, 10.0, 10.0, 16.0];
            && IsStdev(samples, 2.0) && Mean(samples) == 32.0 / 3.0 && MedianMad(samples) == (10.0, 0.0)
            && var v := CheckAnomaly(100.0, samples, 2.0, 3.0);
               v.Verdict? && v.isAnomaly && v.classicAnomaly && !v.robustAnomaly && !v.poisoningSuspected
  {
    hide MedianMad, CheckAnomaly, IsStdev, Mean;
    var tens := [10.0, 10.0, 10.0, 10.0, 10.0, 10.0, 10.0, 10.0];
    var samples := tens + [16.0];
    assert samples == [10.0, 10.0, 10.0, 10.0, 10.0, 10.0, 10.0, 10.0, 16.0];
    TensAndSixteen(tens);
    AlmostAllEqual(samples, tens, 10.0);
    VerdictInPlainTerms(100.0, samples, 2.0, 3.0);
  }

  lemma TensAndSixteen(tens: seq<real>)
    requires |tens| == 8 && forall i | 0 <= i < 8 :: tens[i] == 10.0
    ensures IsStdev(tens + [16.0], 2.0) && Mean(tens + [16.0]) == 32.0 / 3.0
  {
    hide IsStdev, Sum, SumOfSquares;
    EqualSums(tens, 10.0);
    SumAppend(tens, 16.0);
    SquaresAppend(tens, 16.0);
    StdevFromSums(tens + [16.0], 2.0);
  }

  lemma {:induction false} EqualSums(s: seq<real>, c: real)
    requires forall i | 0 <= i < |s| :: s[i] == c
    ensures Sum(s) == c * (|s| as real) && SumOfSquares(s) == c * c * (|s| as real)
  {
    if s != [] {
      EqualSums(s[1..], c);
      assert |s| as real == 1.0 + (|s[1..]| as real);
    }
  }

  lemma {:induction false} SquaresAppend(s: seq<real>, x: real)
    ensures SumOfSquares(s + [x]) == SumOfSquares(s) + x * x
  {
    if s == [] {
      assert s + [x] == [x];
      assert [x][1..] == [];
    } else {
      assert (s + [x])[1..] == s[1..] + [x];
      SquaresAppend(s[1..], x);
    }
  }

  lemma AlmostAllEqual(samples: seq<real>, front: seq<real>, c: real)
    requires |front| > 1 && |samples| == |front| + 1 && front == samples[..|samples| - 1] && forall i | 0 <= i < |front| :: front[i] == c
    ensures MedianMad(samples) == (c, 0.0)
  {
    hide Median, Deviations, Count;
    assert samples == front + samples[|samples| - 1..];
    CountConcat(front, samples[|samples| - 1..], In(c, c));
    CountAll(front, In(c, c));
    MajorityBoundsMedian(samples, c, c);
    MajorityBoundsMad(samples, c, c, c);
  }

  lemma ScaledBound(x: real, med: real, mad: real, threshold: real)
    requires mad > 0.0
    ensures ModifiedZScore(x, med, mad) >= threshold <==> MAD_SCALE * (x - med) >= threshold * mad
  {
    var z := MAD_SCALE * (x - med) / mad;
    assert z * mad == MAD_SCALE * (x - med);
    if z >= threshold { MonotoneProduct(threshold, z, mad); }
    if MAD_SCALE * (x - med) >= threshold * mad && z < threshold { StrictProduct(z, threshold, mad); }
  }

  lemma MonotoneProduct(a: real, b: real, c: real)
    requires a <= b && c >= 0.0
    ensures a * c <= b * c
  {}

  lemma StrictProduct(a: real, b: real, c: real)
    requires a < b && c > 0.0
    ensures a * c < b * c
  {}

  lemma MadIsNonNegative(values: seq<real>)
    requires values != []
    ensures MedianMad(values).1 >= 0.0
  {
    var d := Deviations(values, Median(values));
    SortedSorts(d, AtLeast(0.0));
    var s := Sorted(d);
    forall i | 0 <= i < |s| ensures s[i] >= 0.0 { assert s[i] in s; }
  }

  /** Exactly which totals the robust detector reports once it has dispersion to work with:
      those far enough above the median. With MAD 0 it reports nothing at a positive
      threshold and leaves the case to the classic score. */
  lemma RobustReportsIff(total: real, samples: seq<real>, stdev: real, threshold: real)
    requires IsStdev(samples, stdev) && |samples| >= MIN_SAMPLES_FOR_BASELINE
    ensures var (med, mad) := MedianMad(samples);
            CheckAnomaly(total, samples, stdev, threshold).robustAnomaly <==>
              if mad == 0.0 then threshold <= 0.0 else MAD_SCALE * (total - med) >= threshold * mad
  {
    var (med, mad) := MedianMad(samples);
    MadIsNonNegative(samples);
    if mad != 0.0 { ScaledBound(total, med, mad, threshold); }
  }

  /** Anti-poisoning detection: with fewer injected than clean samples and a baseline whose
      MAD is not zero, every total beyond the clean maximum by `threshold` clean ranges
      (scaled) is reported, whatever was injected. */
  lemma PoisonedBaselineStillReports(total: real, samples: seq<real>, clean: seq<real>, injected: seq<real>,
                                     lo: real, hi: real, stdev: real, threshold: real)
    requires IsMix(samples, clean, injected) && |injected| < |clean|
    requires forall i | 0 <= i < |clean| :: lo <= clean[i] <= hi
    requires IsStdev(samples, stdev) && |samples| >= MIN_SAMPLES_FOR_BASELINE
    requires MedianMad(samples).1 != 0.0 && threshold >= 0.0
    requires MAD_SCALE * (total - hi) >= threshold * (hi - lo)
    ensures CheckAnomaly(total, samples, stdev, threshold).isAnomaly
    ensures CheckAnomaly(total, samples, stdev, threshold).robustAnomaly
  {
    hide CheckAnomaly, MedianMad, IsMix, IsStdev;
    PoisoningBound(samples, clean, injected, lo, hi);
    RobustReportsIff(total, samples, stdev, threshold);
    RobustIsReported(total, samples, stdev, threshold);
    var (med, mad) := MedianMad(samples);
    BeyondTheRange(total, med, mad, lo, hi, threshold);
  }

  lemma RobustIsReported(total: real, samples: seq<real>, stdev: real, threshold: real)
    requires IsStdev(samples, stdev) && |samples| >= MIN_SAMPLES_FOR_BASELINE
    ensures CheckAnomaly(total, samples, stdev, threshold).robustAnomaly ==>
              CheckAnomaly(total, samples, stdev, threshold).isAnomaly
  {
    hide MedianMad, IsStdev;
  }

  lemma BeyondTheRange(total: real, med: real, mad: real, lo: real, hi: real, threshold: real)
    requires med <= hi && mad <= hi - lo && threshold >= 0.0
    requires MAD_SCALE * (total - hi) >= threshold * (hi - lo)
    ensures MAD_SCALE * (total - med) >= threshold * mad
  {
    MonotoneProduct(mad, hi - lo, threshold);
    assert mad * threshold == threshold * mad;
    assert (hi - lo) * threshold == threshold * (hi - lo);
  }

  predicate RobustReports(total: real, samples: seq<real>, threshold: real) {
    RobustZ(total, samples) >= threshold
  }

  /** Every total far enough beyond the clean samples is reported by the robust detector,
      whatever `m` samples are injected. */
  ghost predicate AlwaysReports(clean: seq<real>, m: nat, lo: real, hi: real, threshold: real) {
    forall samples, injected, total |
      IsMix(samples, clean, injected) && |injected| == m && MAD_SCALE * (total - hi) >= threshold * (hi - lo) ::
      RobustReports(total, samples, threshold)
  }

  lemma BeyondIsReported(total: real, samples: seq<real>, clean: seq<real>, injected: seq<real>,
                         lo: real, hi: real, threshold: real)
    requires IsMix(samples, clean, injected) && |injected| < |clean| && !HasHeavyValue(clean, |injected|)
    requires forall i | 0 <= i < |clean| :: lo <= clean[i] <= hi
    requires threshold >= 0.0 && MAD_SCALE * (total - hi) >= threshold * (hi - lo)
    ensures MedianMad(samples).1 != 0.0 && RobustReports(total, samples, threshold)
  {
    hide MedianMad, IsMix, HasHeavyValue;
    PoisoningBound(samples, clean, injected, lo, hi);
    if MedianMad(samples).1 == 0.0 {
      ZeroMadNeedsHeavyValue(samples, clean, injected);
      assert false;
    }
    var (med, mad) := MedianMad(samples);
    BeyondTheRange(total, med, mad, lo, hi, threshold);
    ScaledBound(total, med, mad, threshold);
  }

  /** Exactly when a minority of `m` injected samples cannot suppress detection: no value is
      heavy in the clean samples. The condition is on the clean samples alone. */
  lemma DetectionIsUnconditionalIff(clean: seq<real>, m: nat, lo: real, hi: real, threshold: real)
    requires m < |clean| && threshold > 0.0 && forall i | 0 <= i < |clean| :: lo <= clean[i] <= hi
    ensures AlwaysReports(clean, m, lo, hi, threshold) <==> !HasHeavyValue(clean, m)
  {
    hide HasHeavyValue, MedianMad;
    if HasHeavyValue(clean, m) {
      var injected := HeavyValueZeroesMad(clean, m);
      var total := hi + threshold * (hi - lo) / MAD_SCALE;
      assert MAD_SCALE * (total - hi) >= threshold * (hi - lo);
      assert IsMix(clean + injected, clean, injected) && !RobustReports(total, clean + injected, threshold);
    } else {
      forall samples, injected, total |
        IsMix(samples, clean, injected) && |injected| == m && MAD_SCALE * (total - hi) >= threshold * (hi - lo)
        ensures RobustReports(total, samples, threshold)
      {
        BeyondIsReported(total, samples, clean, injected, lo, hi, threshold);
      }
    }
  }

  /** Anti-poisoning detection from the clean samples alone: without a heavy value, every
      total beyond the clean maximum by `threshold` clean ranges (scaled) is reported,
      whatever minority was injected. */
  lemma PoisonedBaselineAlwaysReports(total: real, samples: seq<real>, clean: seq<real>, injected: seq<real>,
                                      lo: real, hi: real, stdev: real, threshold: real)
    requires IsMix(samples, clean, injected) && |injected| < |clean| && !HasHeavyValue(clean, |injected|)
    requires forall i | 0 <= i < |clean| :: lo <= clean[i] <= hi
    requires IsStdev(samples, stdev) && |samples| >= MIN_SAMPLES_FOR_BASELINE
    requires threshold >= 0.0 && MAD_SCALE * (total - hi) >= threshold * (hi - lo)
    ensures CheckAnomaly(total, samples, stdev, threshold).isAnomaly
    ensures CheckAnomaly(total, samples, stdev, threshold).robustAnomaly
  {
    hide CheckAnomaly, MedianMad, IsMix, IsStdev, HasHeavyValue;
    BeyondIsReported(total, samples, clean, injected, lo, hi, threshold);
    PoisonedBaselineStillReports(total, samples, clean, injected, lo, hi, stdev, threshold);
  }

  lemma {:induction false} ConstantDistances(s: seq<real>, c: real)
    requires forall i | 0 <= i < |s| :: s[i] == c
    ensures Sum(s) == c * (|s| as real) && SquaredDistances(s, c) == 0.0
  {
    if s != [] { ConstantDistances(s[1..], c); }
  }

  /** On a baseline without any variation, and a positive threshold, exactly the totals
      that differ from it are reported, below it as well as above it. */
  lemma ConstantBaselineReportsIff(total: real, samples: seq<real>, c: real, stdev: real, threshold: real)
    requires |samples| >= MIN_SAMPLES_FOR_BASELINE && forall i | 0 <= i < |samples| :: samples[i] == c
    requires IsStdev(samples, stdev) && threshold > 0.0
    ensures CheckAnomaly(total, samples, stdev, threshold).isAnomaly <==> total != c
  {
    ConstantDistances(samples, c);
    assert Mean(samples) == c;
    ZeroRoot(stdev, (|samples| - 1) as real);
    MajorityOfEqual(samples, c);
  }

  lemma ZeroRoot(d: real, n: real)
    requires d >= 0.0 && n > 0.0 && d * d * n == 0.0
    ensures d == 0.0
  {
    if d > 0.0 {
      PositiveProduct(d, d, d * d);
      PositiveProduct(d * d, n, d * d * n);
      assert false;
    }
  }

  lemma PositiveProduct(a: real, b: real, c: real)
    requires a > 0.0 && b > 0.0 && c == a * b
    ensures c > 0.0
  {}

  lemma MajorityOfEqual(samples: seq<real>, c: real)
    requires samples != [] && forall i | 0 <= i < |samples| :: samples[i] == c
    ensures MedianMad(samples) == (c, 0.0)
  {
    CountAll(samples, In(c, c));
    MajorityBoundsMedian(samples, c, c);
    MajorityBoundsMad(samples, c, c, c);
  }
}
