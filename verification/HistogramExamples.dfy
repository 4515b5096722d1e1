/** The examples in the unit tests of the histograms, worked out. */
module HistogramExamples {
  import opened Powers
  import opened HistogramLayout
  import opened Histograms

  // ---------- Exponential layouts ----------

  /** There is only one nearest root. */
  lemma NextStartIs(c: nat, max: nat, m: nat, n: nat)
    requires m > 0 && 0 < c <= max && IsNearestRoot(n, c, max, m)
    ensures NextStart(c, max, m) == if n > c then n else c + 1
  {
    hide Pow, DoubledTarget;
    var r := NearestRoot(c, max, m);
    if r < n {
      PowMonotone(2 * r + 1, 2 * n - 1, m);
    } else if n < r {
      PowMonotone(2 * n + 1, 2 * r - 1, m);
    }
  }

  /** The next start, from the powers of n - 1/2 and n + 1/2, everything times 2 to the power m. */
  lemma NextStartBetween(c: nat, max: nat, m: nat, n: nat, lo: nat, two: nat, rest: nat, hi: nat)
    requires m > 0 && 0 < c <= max && n > 0
    requires lo == Pow(2 * n - 1, m) && two == Pow(2, m) && rest == Pow(c, m - 1) && hi == Pow(2 * n + 1, m)
    requires lo <= two * (rest * max) < hi
    ensures NextStart(c, max, m) == if n > c then n else c + 1
  {
    hide Pow;
    NextStartIs(c, max, m, n);
  }

  /** Powers of two. */
  lemma StartsTo64()
    ensures NextStart(1, 64, 6) == 2
    ensures NextStart(2, 64, 5) == 4
    ensures NextStart(4, 64, 4) == 8
    ensures NextStart(8, 64, 3) == 16
    ensures NextStart(16, 64, 2) == 32
    ensures NextStart(32, 64, 1) == 64
  {
    NextStartBetween(1, 64, 6, 2, Pow(3, 6), Pow(2, 6), Pow(1, 5), Pow(5, 6));
    NextStartBetween(2, 64, 5, 4, Pow(7, 5), Pow(2, 5), Pow(2, 4), Pow(9, 5));
    NextStartBetween(4, 64, 4, 8, Pow(15, 4), Pow(2, 4), Pow(4, 3), Pow(17, 4));
    NextStartBetween(8, 64, 3, 16, Pow(31, 3), Pow(2, 3), Pow(8, 2), Pow(33, 3));
    NextStartBetween(16, 64, 2, 32, Pow(63, 2), Pow(2, 2), Pow(16, 1), Pow(65, 2));
    NextStartBetween(32, 64, 1, 64, Pow(127, 1), Pow(2, 1), Pow(32, 0), Pow(129, 1));
  }

  /** Of fifteen buckets from 1 to 32 the first start one by one, the last further apart. */
  lemma StartsTo32()
    ensures NextStart(1, 32, 13) == 2 && NextStart(6, 32, 8) == 7
    ensures NextStart(7, 32, 7) == 9 && NextStart(26, 32, 1) == 32
  {
    NextStartBetween(1, 32, 13, 1, Pow(1, 13), Pow(2, 13), Pow(1, 12), Pow(3, 13));
    NextStartBetween(6, 32, 8, 7, Pow(13, 8), Pow(2, 8), Pow(6, 7), Pow(15, 8));
    NextStartBetween(7, 32, 7, 9, Pow(17, 7), Pow(2, 7), Pow(7, 6), Pow(19, 7));
    NextStartBetween(26, 32, 1, 32, Pow(63, 1), Pow(2, 1), Pow(26, 0), Pow(65, 1));
  }

  lemma StartsBy(starts: seq<int>, max: nat, count: nat, i: nat)
    requires Chained(starts, max, count) && 1 <= i < |starts| - 1
    ensures 0 < starts[i] <= max && starts[i + 1] == NextStart(starts[i], max, count - 1 - i)
  {
  }

  /** Eight buckets from 1 to 64. */
  method ExponentialRanges() returns (h: Histogram)
    ensures h.ranges[..] == [0, 1, 2, 4, 8, 16, 32, 64, 0x7fff_ffff]
  {
    hide NextStart, StrictlyIncreasing, Chained, Histogram.Valid;
    h := new Histogram(1, 64, 8);
    ghost var starts := h.ranges[..h.bucketCount];
    StartsTo64();
    StartsBy(starts, 64, 8, 1);
    StartsBy(starts, 64, 8, 2);
    StartsBy(starts, 64, 8, 3);
    StartsBy(starts, 64, 8, 4);
    StartsBy(starts, 64, 8, 5);
    StartsBy(starts, 64, 8, 6);
  }

  // ---------- Linear layouts ----------

  /** Eight buckets from 2 to 14 are two wide. */
  method LinearRanges() returns (h: Histogram)
    ensures h.ranges[..] == [0, 2, 4, 6, 8, 10, 12, 14, 0x7fff_ffff]
  {
    hide StrictlyIncreasing, Histogram.Valid, LinearStart;
    h := new Histogram.Linear(2, 14, 8);
    forall i | 1 <= i < 8
      ensures LinearStart(2, 14, 8, i) == 2 * i
    {
      TwoWide(i);
    }
  }

  lemma TwoWide(i: int)
    requires 1 <= i < 8
    ensures LinearStart(2, 14, 8, i) == 2 * i
  {
    assert 2.0 * (7 - i) as real + 14.0 * (i - 1) as real == 12.0 * i as real;
  }

  // ---------- Samples out of bounds ----------

  lemma InnerStarts(ranges: seq<int>)
    requires StrictlyIncreasing(ranges) && |ranges| == 51 && ranges[1] == 10 && ranges[49] == 100
    ensures 10 < ranges[2] <= 100 && 10 <= ranges[48] < 100
  {
  }

  /** Values below the minimum are counted in the first bucket, and values from the maximum on
      in the last one; 5 counts as 5, -50 as 0. */
  method Bounds() returns (h: Histogram)
    ensures h.Valid() && h.bucketCount == 50 && h.ranges[1] == 10 && h.ranges[49] == 100
    ensures h.sample.counts[0] == 2 && h.sample.counts[1] == 0 && h.sample.counts[48] == 0 && h.sample.counts[49] == 2
    ensures h.sample.sum == 10105 && h.sample.squareSum == 100010025
  {
    hide StrictlyIncreasing, Chained, CountIn, Sum, SumOfSquares;
    h := new Histogram(10, 100, 50);
    InnerStarts(h.ranges[..]);
    h.Add(5);
    h.Add(-50);
    h.Add(100);
    h.Add(10000);
  }

  /** The bounds of a histogram are kept within the range of samples. */
  method WidestHistogram() returns (h: Histogram)
    ensures h.Valid() && h.declaredMin == 1 && h.declaredMax == 0x7fff_fffe && h.bucketCount == 3
    ensures h.sample.counts[2] == 1 && h.sample.sum == 0x7fff_fffe
  {
    hide StrictlyIncreasing, Chained, CountIn, Sum, SumOfSquares;
    h := new Histogram(0, 0x7fff_ffff, 3);
    h.Add(0x7fff_ffff);
  }
}
