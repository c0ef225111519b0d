/** The fixed-point comparisons of sensor readings. */
module Percent {
  import opened Words

  function Larger(a: Word, b: Word): Word {
    if a > b then a else b
  }

  function Smaller(a: Word, b: Word): Word {
    if a > b then b else a
  }

  function Diff(a: Word, b: Word): Word {
    Larger(a, b) - Smaller(a, b)
  }

  /** The average as computed: the sum is a 32-bit one. */
  function Average(a: Word, b: Word): Word {
    Wrap(Larger(a, b) + Smaller(a, b)) / 2
  }

  predicate DifferByPercent(a: Word, b: Word, percent: Word, accuracy: Word) {
    && Larger(a, b) != 0 && Average(a, b) != 0
    && Wrap(Diff(a, b) * accuracy) / Average(a, b) > Wrap(percent * accuracy) / 100
  }

  predicate ChangedByThreshold(input: Word, last: Word, threshold: Word) {
    (input > last && input - last > threshold) || (last > input && last - input > threshold)
  }

  /** No intermediate result of the comparison exceeds 32 bits. */
  predicate Fits(a: Word, b: Word, percent: Word, accuracy: Word) {
    a + b < M && Diff(a, b) * accuracy < M && percent * accuracy < M
  }

  /** By how much the difference exceeds the percentage of the average, in hundredths. */
  function Excess(a: Word, b: Word, percent: Word): int {
    100 * Diff(a, b) - percent * ((a + b) / 2)
  }

  /**
   Without overflow, the test reports a difference exactly when it exceeds the
   percentage by at least the resolution, one `steps`-th of the average.  So it
   never reports one that is not there.
   */
  lemma ReportsDownToResolution(a: Word, b: Word, percent: Word, steps: nat)
    requires 100 * steps < M && Fits(a, b, percent, 100 * steps) && a + b >= 2
    ensures DifferByPercent(a, b, percent, 100 * steps) <==> Excess(a, b, percent) * steps >= (a + b) / 2
    ensures DifferByPercent(a, b, percent, 100 * steps) ==> Excess(a, b, percent) > 0
  {
    Unwrapped(a, b, percent, steps);
    Fraction(Diff(a, b), steps, percent, (a + b) / 2);
  }

  lemma Fraction(d: nat, steps: nat, percent: nat, avg: nat)
    requires avg > 0
    ensures var excess := 100 * d - percent * avg;
            && (d * (100 * steps) / avg > percent * steps <==> excess * steps >= avg)
            && (excess * steps >= avg ==> excess > 0)
  {
    Rearrange(d, steps, percent, avg);
    NonNegative(d, 100 * steps);
    QuotientExceeds(d * (100 * steps), avg, percent * steps);
    PositiveFactor(100 * d - percent * avg, steps);
  }

  lemma PositiveFactor(x: int, k: nat)
    ensures x * k > 0 ==> x > 0
  {
    if x <= 0 {
      NonNegative(-x, k);
      assert x * k == -(-x * k);
    }
  }

  lemma Unwrapped(a: Word, b: Word, percent: Word, steps: nat)
    requires 100 * steps < M && Fits(a, b, percent, 100 * steps) && a + b >= 2
    ensures DifferByPercent(a, b, percent, 100 * steps) <==> Diff(a, b) * (100 * steps) / ((a + b) / 2) > percent * steps
  {
    NonNegative(Diff(a, b), 100 * steps);
    NonNegative(percent, 100 * steps);
    Hundredth(percent, steps);
    WrapSmall(Diff(a, b) * (100 * steps));
    WrapSmall(percent * (100 * steps));
    WrapSmall(a + b);
    hide Wrap;
    assert Larger(a, b) + Smaller(a, b) == a + b;
  }

  lemma WrapSmall(n: nat)
    requires n < M
    ensures Wrap(n) == n
  {
  }

  lemma Hundredth(p: nat, steps: nat)
    ensures p * (100 * steps) / 100 == p * steps
  {
    assert p * (100 * steps) == 100 * (p * steps);
  }

  lemma QuotientExceeds(n: nat, d: nat, t: int)
    requires d > 0
    ensures n / d > t <==> n >= t * d + d
  {
    var q := n / d;
    if q > t {
      assert q * d == (q - t) * d + t * d;
      AtLeast(q - t, d);
    } else {
      NonNegative(t - q, d);
      assert t * d == (t - q) * d + q * d;
    }
  }

  lemma Rearrange(d: nat, steps: nat, percent: nat, avg: nat)
    ensures (100 * d - percent * avg) * steps == d * (100 * steps) - percent * steps * avg
  {
    assert (100 * d - percent * avg) * steps == 100 * d * steps - percent * avg * steps;
    assert percent * avg * steps == percent * steps * avg;
  }

  /** With as many steps as the average is large, the test is exact. */
  lemma Exact(a: Word, b: Word, percent: Word, steps: nat)
    requires 100 * steps < M && Fits(a, b, percent, 100 * steps) && a + b >= 2 && (a + b) / 2 <= steps
    ensures DifferByPercent(a, b, percent, 100 * steps) <==> 100 * Diff(a, b) > percent * ((a + b) / 2)
  {
    ReportsDownToResolution(a, b, percent, steps);
    if Excess(a, b, percent) > 0 {
      AtLeast(Excess(a, b, percent), steps);
    }
  }

  /** With fewer, it misses exactly the differences smaller than its resolution. */
  lemma MissesBelowResolution(a: Word, b: Word, percent: Word, steps: nat)
    requires 100 * steps < M && Fits(a, b, percent, 100 * steps) && a + b >= 2
    ensures (DifferByPercent(a, b, percent, 100 * steps) <==> Excess(a, b, percent) > 0)
       <==> !(0 < Excess(a, b, percent) && Excess(a, b, percent) * steps < (a + b) / 2)
  {
    ReportsDownToResolution(a, b, percent, steps);
  }

  lemma Symmetric(a: Word, b: Word, percent: Word, accuracy: Word)
    ensures DifferByPercent(a, b, percent, accuracy) == DifferByPercent(b, a, percent, accuracy)
  {
    OrderDoesNotMatter(a, b);
    hide Larger, Diff, Average, Wrap;
  }

  lemma OrderDoesNotMatter(a: Word, b: Word)
    ensures Larger(a, b) == Larger(b, a) && Diff(a, b) == Diff(b, a) && Average(a, b) == Average(b, a)
  {
    hide Wrap;
  }

  const PERCENT_DIFF_ACCURACY := 1_000_000

  /** The test says what exact arithmetic would say of the two readings. */
  predicate ExactFor(a: Word, b: Word, percent: Word, accuracy: Word) {
    DifferByPercent(a, b, percent, accuracy) <==> a + b >= 2 && 100 * Diff(a, b) > percent * ((a + b) / 2)
  }

  /** Two and a half times the average is more than two readings can differ by, but for rounding. */
  lemma FarAboveAverage(larger: nat, smaller: nat)
    requires larger >= smaller
    ensures larger + smaller >= 2 && 100 * (larger - smaller) > 250 * ((larger + smaller) / 2) <==> larger == 3 && smaller == 0
  {
    var avg := (larger + smaller) / 2;
    assert 2 * avg <= larger + smaller <= 2 * avg + 1;
  }

  /** Readings below 4295 are compared exactly at every percentage whose own product fits. */
  lemma SmallReadingsExact(a: Word, b: Word, percent: Word)
    requires a < 4295 && b < 4295 && percent <= 4294
    ensures ExactFor(a, b, percent, PERCENT_DIFF_ACCURACY)
  {
    SmallFits(a, b, percent);
    hide Fits, DifferByPercent;
    if a + b >= 2 {
      Exact(a, b, percent, 10_000);
    } else {
      NoAverage(a, b, percent, PERCENT_DIFF_ACCURACY);
    }
  }

  /** Every pair of twelve-bit readings is compared exactly at the configured accuracy and percentages. */
  lemma SensorsComparedExactly(a: Word, b: Word, percent: Word)
    requires a < 4096 && b < 4096 && percent in {50, 250}
    ensures ExactFor(a, b, percent, PERCENT_DIFF_ACCURACY)
  {
    SmallReadingsExact(a, b, percent);
  }

  lemma SmallFits(a: Word, b: Word, percent: Word)
    requires a < 4295 && b < 4295 && percent <= 4294
    ensures Fits(a, b, percent, PERCENT_DIFF_ACCURACY)
  {
    Monotone(Diff(a, b), 4294, 1_000_000);
    Monotone(percent, 4294, 1_000_000);
  }

  lemma NoAverage(a: Word, b: Word, percent: Word, accuracy: Word)
    requires a + b < 2
    ensures !DifferByPercent(a, b, percent, accuracy)
  {
    assert Larger(a, b) + Smaller(a, b) == a + b;
    WrapSmall(a + b);
  }

  /**
   At 250 per cent, the setting of the pedal sensors, only a reading of three
   against nothing is ever reported, whatever the width of the readings.
   */
  lemma PedalMismatchNeverReported(a: Word, b: Word)
    requires a + b < M
    ensures DifferByPercent(a, b, 250, PERCENT_DIFF_ACCURACY) <==> (a == 3 && b == 0) || (a == 0 && b == 3)
    ensures ExactFor(a, b, 250, PERCENT_DIFF_ACCURACY)
  {
    FarAboveAverage(Larger(a, b), Smaller(a, b));
    if Larger(a, b) < 4295 {
      SmallReadingsExact(a, b, 250);
    } else {
      WideReadingsFarBelow(a, b);
    }
    hide DifferByPercent;
  }

  /** However the product wraps, its quotient by a large average stays below 250 per cent. */
  lemma WideReadingsFarBelow(a: Word, b: Word)
    requires a + b < M && Larger(a, b) >= 4295
    ensures !DifferByPercent(a, b, 250, PERCENT_DIFF_ACCURACY)
  {
    assert Larger(a, b) + Smaller(a, b) == a + b;
    WrapSmall(a + b);
    WrapSmall(250_000_000);
    hide Wrap;
    LowQuotient(Wrap(Diff(a, b) * PERCENT_DIFF_ACCURACY), (a + b) / 2);
  }

  lemma LowQuotient(n: Word, avg: nat)
    requires avg >= 2147
    ensures n / avg <= 2_500_000
  {
    QuotientExceeds(n, avg, 2_500_000);
    Monotone(2147, avg, 2_500_001);
  }

  /** At 4295 the product of the difference wraps, and up to 200 per cent the largest difference there is goes unreported. */
  lemma FirstOverflow(percent: Word)
    requires 1 <= percent <= 200
    ensures !DifferByPercent(4295, 0, percent, PERCENT_DIFF_ACCURACY) && Excess(4295, 0, percent) > 0
    ensures !ExactFor(4295, 0, percent, PERCENT_DIFF_ACCURACY)
  {
    assert Diff(4295, 0) == 4295 && Average(4295, 0) == 2147;
    assert Wrap(4_295_000_000) == 32_704;
    WrapSmall(percent * 1_000_000);
  }

  /**
   The test is exact on all readings below a bound if and only if the bound is
   at most 4295: all twelve-bit readings and a little more.
   */
  lemma ExactBelowBound(bound: Word, percent: Word)
    requires 1 <= percent <= 200
    ensures (forall a: Word, b: Word :: a < bound && b < bound ==> ExactFor(a, b, percent, PERCENT_DIFF_ACCURACY))
       <==> bound <= 4295
  {
    hide ExactFor;
    if bound <= 4295 {
      forall a: Word, b: Word | a < bound && b < bound ensures ExactFor(a, b, percent, PERCENT_DIFF_ACCURACY) {
        SmallReadingsExact(a, b, percent);
      }
    } else {
      FirstOverflow(percent);
    }
  }

  // ---- the differences that are compared exactly, however large the readings ----

  /** The largest average that a difference of `d` exceeds by the percentage. */
  function LargestExceeded(percent: nat, d: nat): (avg: nat)
    requires percent > 0 && d > 0
    ensures percent * avg < 100 * d <= percent * avg + percent
  {
    var avg := (100 * d - 1) / percent;
    LastBelow(100 * d, percent);
    avg
  }

  lemma LastBelow(n: nat, p: nat)
    requires p > 0 && n > 0
    ensures var q := (n - 1) / p; q >= 0 && p * q < n <= p * q + p
  {
    var q := (n - 1) / p;
    assert n - 1 == p * q + (n - 1) % p;
  }

  /** That average is exceeded by less than the resolution. */
  predicate TooFine(percent: nat, d: nat)
    requires percent > 0 && d > 0
  {
    var avg := LargestExceeded(percent, d);
    (100 * d - percent * avg) * 10_000 < avg
  }

  /** The largest average a difference exceeds is the one it exceeds by least. */
  lemma WorstAverage(percent: nat, d: nat, avg: nat)
    requires percent > 0 && d > 0
    requires 0 < 100 * d - percent * avg && (100 * d - percent * avg) * 10_000 < avg
    ensures TooFine(percent, d)
  {
    var best := LargestExceeded(percent, d);
    OneMoreMultiple(percent, best, avg);
    OneMoreMultiple(percent, avg, best);
  }

  lemma OneMoreMultiple(p: nat, x: nat, y: nat)
    ensures x < y ==> p * x + p <= p * y
  {
    if x < y {
      AtLeast(y - x, p);
      assert p * y == p * x + (y - x) * p;
    }
  }

  lemma CloseReadingsExact(a: Word, b: Word, percent: Word)
    requires a + b < M && 1 <= percent <= 200 && Diff(a, b) <= 4294
    requires Diff(a, b) > 0 ==> !TooFine(percent, Diff(a, b))
    ensures ExactFor(a, b, percent, PERCENT_DIFF_ACCURACY)
  {
    Monotone(Diff(a, b), 4294, 1_000_000);
    Monotone(percent, 4294, 1_000_000);
    if a + b >= 2 {
      var avg := (a + b) / 2;
      MissesBelowResolution(a, b, percent, 10_000);
      NonNegative(percent, avg);
      if 0 < Excess(a, b, percent) && Excess(a, b, percent) * 10_000 < avg {
        WorstAverage(percent, Diff(a, b), avg);
      }
    } else {
      NoAverage(a, b, percent, PERCENT_DIFF_ACCURACY);
    }
    hide DifferByPercent;
  }

  /** Two readings `d` apart with the average that is exceeded by least. */
  lemma TooFineIsMissed(d: Word, percent: Word)
    requires 1 <= percent <= 200 && 1 <= d <= 4294 && TooFine(percent, d)
    ensures exists a: Word, b: Word :: a + b < M && Diff(a, b) == d && !ExactFor(a, b, percent, PERCENT_DIFF_ACCURACY)
  {
    var avg := LargestExceeded(percent, d);
    AtLeast(percent, avg);
    var b: Word := avg - d / 2;
    var a: Word := b + d;
    assert Diff(a, b) == d && (a + b) / 2 == avg;
    Monotone(d, 4294, 1_000_000);
    Monotone(percent, 4294, 1_000_000);
    MissesBelowResolution(a, b, percent, 10_000);
    hide DifferByPercent;
    assert a + b < M && Diff(a, b) == d && !ExactFor(a, b, percent, PERCENT_DIFF_ACCURACY);
  }

  /**
   The test is exact for all readings up to a certain distance apart, however
   large they are, if and only if the distance is at most 4294 and no smaller
   one is too fine for the resolution.
   */
  lemma ExactUpToDistance(d: Word, percent: Word)
    requires 1 <= percent <= 200
    ensures (forall a: Word, b: Word :: a + b < M && Diff(a, b) <= d ==> ExactFor(a, b, percent, PERCENT_DIFF_ACCURACY))
       <==> d <= 4294 && forall k :: 1 <= k <= d ==> !TooFine(percent, k)
  {
    FirstOverflow(percent);
    if d <= 4294 {
      if k :| 1 <= k <= d && TooFine(percent, k) {
        TooFineIsMissed(k, percent);
      } else {
        forall a: Word, b: Word | a + b < M && Diff(a, b) <= d ensures ExactFor(a, b, percent, PERCENT_DIFF_ACCURACY) {
          CloseReadingsExact(a, b, percent);
        }
      }
    } else {
      assert Diff(4295, 0) == 4295;
    }
    hide ExactFor, TooFine;
  }

  /** From 43 per cent on nothing is too fine: an average too large for the resolution is too large to be exceeded. */
  lemma ExactFrom43(d: Word, percent: Word)
    requires 43 <= percent <= 200
    ensures (forall a: Word, b: Word :: a + b < M && Diff(a, b) <= d ==> ExactFor(a, b, percent, PERCENT_DIFF_ACCURACY))
       <==> d <= 4294
  {
    ExactUpToDistance(d, percent);
    hide ExactFor;
    forall k | 1 <= k <= d && d <= 4294 ensures !TooFine(percent, k) {
      Monotone(43, percent, LargestExceeded(percent, k));
    }
  }

  /** Below, differences are missed: 101 at one per cent, from an average of 10099. */
  lemma MissedAtOnePercent()
    ensures 100 * Diff(10150, 10049) > (10150 + 10049) / 2 && !DifferByPercent(10150, 10049, 1, PERCENT_DIFF_ACCURACY)
    ensures !ExactFor(10150, 10049, 1, PERCENT_DIFF_ACCURACY)
  {
    assert Diff(10150, 10049) == 101;
    MissesBelowResolution(10150, 10049, 1, 10_000);
  }

  lemma ThresholdIsDistance(a: Word, b: Word, threshold: Word)
    ensures ChangedByThreshold(a, b, threshold) <==> Diff(a, b) > threshold
    ensures ChangedByThreshold(a, b, threshold) == ChangedByThreshold(b, a, threshold)
  {
  }
}
