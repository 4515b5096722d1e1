/** Histograms: the vectors of bucket ranges and counts, kept up to date in place. */
module Histograms {
  import opened HistogramLayout
  import Powers

  // ---------- The samples behind the counts ----------

  function CountIn(samples: seq<int>, lo: int, hi: int): nat {
    if samples == [] then 0
    else CountIn(samples[..|samples| - 1], lo, hi) + if lo <= samples[|samples| - 1] < hi then 1 else 0
  }

  function Sum(samples: seq<int>): int {
    if samples == [] then 0 else Sum(samples[..|samples| - 1]) + samples[|samples| - 1]
  }

  function SumOfSquares(samples: seq<int>): int {
    if samples == [] then 0
    else SumOfSquares(samples[..|samples| - 1]) + samples[|samples| - 1] * samples[|samples| - 1]
  }

  lemma {:induction false} CountInAppend(a: seq<int>, b: seq<int>, lo: int, hi: int)
    ensures CountIn(a + b, lo, hi) == CountIn(a, lo, hi) + CountIn(b, lo, hi)
  {
    if b == [] {
      assert a + b == a;
    } else {
      assert (a + b)[..|a + b| - 1] == a + b[..|b| - 1];
      CountInAppend(a, b[..|b| - 1], lo, hi);
    }
  }

  lemma {:induction false} SumAppend(a: seq<int>, b: seq<int>)
    ensures Sum(a + b) == Sum(a) + Sum(b)
    ensures SumOfSquares(a + b) == SumOfSquares(a) + SumOfSquares(b)
  {
    if b == [] {
      assert a + b == a;
    } else {
      assert (a + b)[..|a + b| - 1] == a + b[..|b| - 1];
      SumAppend(a, b[..|b| - 1]);
    }
  }

  // ---------- SampleSet ----------

  class SampleSet {
    var counts: array<int>
    var sum: int
    var squareSum: int

    /** The set holds exactly these samples, counted by bucket. */
    ghost predicate Records(samples: seq<int>, ranges: seq<int>)
      reads this, counts
    {
      && counts.Length + 1 == |ranges|
      && (forall i :: 0 <= i < counts.Length ==> counts[i] == CountIn(samples, ranges[i], ranges[i + 1]))
      && sum == Sum(samples) && squareSum == SumOfSquares(samples)
    }

    constructor (bucketCount: nat)
      ensures fresh(counts) && counts.Length == bucketCount && sum == 0 && squareSum == 0
      ensures forall i :: 0 <= i < bucketCount ==> counts[i] == 0
    {
      counts := new int[bucketCount](i => 0);
      sum, squareSum := 0, 0;
    }

    /** count is 1 or -1: a sample comes or goes. */
    method Accumulate(value: int, count: int, index: nat)
      requires index < counts.Length && (count == 1 || count == -1)
      modifies this`sum, this`squareSum, counts
      ensures counts[..] == old(counts[..])[index := old(counts[index]) + count]
      ensures sum == old(sum) + count * value && squareSum == old(squareSum) + count * value * value
    {
      counts[index] := counts[index] + count;
      sum := sum + count * value;
      squareSum := squareSum + (count * value) * value;
    }

    method TotalCount() returns (total: int)
      ensures total == Sum(counts[..])
    {
      total := 0;
      var i := 0;
      while i < counts.Length
        invariant i <= counts.Length && total == Sum(counts[..i])
      {
        assert counts[..i + 1][..i] == counts[..i];
        total := total + counts[i];
        i := i + 1;
      }
      assert counts[..i] == counts[..];
    }

    /** The other set may be this one, whose samples are then doubled. */
    method Add(other: SampleSet, ghost mine: seq<int>, ghost theirs: seq<int>, ghost ranges: seq<int>)
      requires this != other ==> counts != other.counts
      requires Records(mine, ranges) && other.Records(theirs, ranges)
      modifies this`sum, this`squareSum, counts
      ensures Records(mine + theirs, ranges) && (this != other ==> other.Records(theirs, ranges))
      ensures sum == old(sum) + old(other.sum) && squareSum == old(squareSum) + old(other.squareSum)
      ensures forall i :: 0 <= i < counts.Length ==> counts[i] == old(counts[i]) + old(other.counts[i])
    {
      hide CountIn, Sum, SumOfSquares;
      sum := sum + other.sum;
      squareSum := squareSum + other.squareSum;
      SumAppend(mine, theirs);
      var index := 0;
      while index < counts.Length
        invariant index <= counts.Length
        invariant this != other ==> other.Records(theirs, ranges)
        invariant sum == Sum(mine + theirs) && squareSum == SumOfSquares(mine + theirs)
        invariant forall i :: 0 <= i < index ==> counts[i] == CountIn(mine + theirs, ranges[i], ranges[i + 1])
        invariant forall i :: index <= i < counts.Length ==> counts[i] == CountIn(mine, ranges[i], ranges[i + 1])
        invariant forall i :: index <= i < counts.Length ==> other.counts[i] == CountIn(theirs, ranges[i], ranges[i + 1])
      {
        CountInAppend(mine, theirs, ranges[index], ranges[index + 1]);
        counts[index] := counts[index] + other.counts[index];
        index := index + 1;
      }
      forall i | 0 <= i < counts.Length
        ensures counts[i] == old(counts[i]) + old(other.counts[i])
      {
        CountInAppend(mine, theirs, ranges[i], ranges[i + 1]);
      }
    }

    /** Takes away samples that were recorded last; from this set itself, all of them. */
    method Subtract(other: SampleSet, ghost mine: seq<int>, ghost theirs: seq<int>, ghost ranges: seq<int>)
      requires this != other ==> counts != other.counts
      requires Records(mine + theirs, ranges) && other.Records(theirs, ranges)
      modifies this`sum, this`squareSum, counts
      ensures Records(mine, ranges) && (this != other ==> other.Records(theirs, ranges))
      ensures sum == old(sum) - old(other.sum) && squareSum == old(squareSum) - old(other.squareSum)
      ensures forall i :: 0 <= i < counts.Length ==> counts[i] == old(counts[i]) - old(other.counts[i])
    {
      hide CountIn, Sum, SumOfSquares;
      sum := sum - other.sum;
      squareSum := squareSum - other.squareSum;
      SumAppend(mine, theirs);
      var index := 0;
      while index < counts.Length
        invariant index <= counts.Length
        invariant this != other ==> other.Records(theirs, ranges)
        invariant sum == Sum(mine) && squareSum == SumOfSquares(mine)
        invariant forall i :: 0 <= i < index ==> counts[i] == CountIn(mine, ranges[i], ranges[i + 1])
        invariant forall i :: index <= i < counts.Length ==> counts[i] == CountIn(mine + theirs, ranges[i], ranges[i + 1])
        invariant forall i :: index <= i < counts.Length ==> other.counts[i] == CountIn(theirs, ranges[i], ranges[i + 1])
      {
        CountInAppend(mine, theirs, ranges[index], ranges[index + 1]);
        counts[index] := counts[index] - other.counts[index];
        index := index + 1;
      }
      forall i | 0 <= i < counts.Length
        ensures counts[i] == old(counts[i]) - old(other.counts[i])
      {
        CountInAppend(mine, theirs, ranges[i], ranges[i + 1]);
      }
    }
  }

  // ---------- Histogram ----------

  /** Add first moves a value into the range of the histogram. */
  function Clamped(value: int): int {
    if value >= SAMPLE_TYPE_MAX then SAMPLE_TYPE_MAX - 1 else if value < 0 then 0 else value
  }

  /** It is the nearest number in that range: on the way from the value to any other. */
  lemma ClampedIsNearest(value: int, x: int)
    requires 0 <= x < SAMPLE_TYPE_MAX
    ensures 0 <= Clamped(value) < SAMPLE_TYPE_MAX
    ensures value <= Clamped(value) <= x || x <= Clamped(value) <= value
  {
  }

  /** For ranges that go from 0 to the maximum, every clamped sample is in one bucket. */
  predicate Covers(ranges: seq<int>) {
    |ranges| >= 2 && ranges[0] == 0 && ranges[|ranges| - 1] == SAMPLE_TYPE_MAX
  }

  lemma BucketIsUnique(ranges: seq<int>, value: int, i: nat, j: nat)
    requires StrictlyIncreasing(ranges) && i + 1 < |ranges| && j + 1 < |ranges|
    requires ranges[i] <= value < ranges[i + 1] && ranges[j] <= value < ranges[j + 1]
    ensures i == j
  {
    assert forall k, l :: 0 <= k <= l < |ranges| ==> ranges[k] <= ranges[l];
  }

  lemma {:induction false} SumUpdate(s: seq<int>, k: nat, d: int)
    requires k < |s|
    ensures Sum(s[k := s[k] + d]) == Sum(s) + d
  {
    var n, t := |s| - 1, s[k := s[k] + d];
    if k == n {
      assert t[..n] == s[..n];
    } else {
      SumUpdate(s[..n], k, d);
      assert t[..n] == s[..n][k := s[k] + d];
    }
  }

  /** One more sample, as seen by one bucket and by the sums. */
  lemma OneMoreSample(samples: seq<int>, v: int, lo: int, hi: int)
    ensures CountIn(samples + [v], lo, hi) == CountIn(samples, lo, hi) + if lo <= v < hi then 1 else 0
    ensures Sum(samples + [v]) == Sum(samples) + v
    ensures SumOfSquares(samples + [v]) == SumOfSquares(samples) + v * v
  {
    assert (samples + [v])[..|samples|] == samples;
  }

  lemma {:induction false} ZeroSum(s: seq<int>)
    requires forall k :: 0 <= k < |s| ==> s[k] == 0
    ensures Sum(s) == 0
  {
    if s != [] {
      ZeroSum(s[..|s| - 1]);
    }
  }

  function AtLeastOne(minimum: int): int {
    if minimum <= 0 then 1 else minimum
  }

  function BelowMax(maximum: int): int {
    if maximum >= SAMPLE_TYPE_MAX then SAMPLE_TYPE_MAX - 1 else maximum
  }

  lemma TwoBuckets(ranges: seq<int>)
    requires |ranges| == 3 && ranges[0] == 0 && ranges[2] == SAMPLE_TYPE_MAX
    ensures StrictlyIncreasing(ranges) <==> 0 < ranges[1] < SAMPLE_TYPE_MAX
  {
  }

  lemma RecordsNothing(sample: SampleSet, ranges: seq<int>)
    requires sample.counts.Length + 1 == |ranges| && sample.sum == 0 == sample.squareSum
    requires forall i :: 0 <= i < sample.counts.Length ==> sample.counts[i] == 0
    ensures sample.Records([], ranges)
  {
  }

  /** One more sample changes the count of its bucket, and of no other. */
  lemma OneMoreCounted(r: seq<int>, samples: seq<int>, v: int, counts: seq<int>, index: nat)
    requires StrictlyIncreasing(r) && |counts| + 1 == |r| && index < |counts| && r[index] <= v < r[index + 1]
    requires forall i :: 0 <= i < |counts| ==> counts[i] == CountIn(samples, r[i], r[i + 1])
    ensures forall i :: 0 <= i < |counts| ==>
              counts[index := counts[index] + 1][i] == CountIn(samples + [v], r[i], r[i + 1])
    ensures forall i :: 0 <= i < |counts| ==> (r[i] <= v < r[i + 1] <==> i == index)
    ensures Sum(samples + [v]) == Sum(samples) + v && SumOfSquares(samples + [v]) == SumOfSquares(samples) + v * v
  {
    hide CountIn, Sum, SumOfSquares, StrictlyIncreasing;
    forall i | 0 <= i < |counts|
      ensures counts[index := counts[index] + 1][i] == CountIn(samples + [v], r[i], r[i + 1])
      ensures r[i] <= v < r[i + 1] <==> i == index
    {
      OneMoreSample(samples, v, r[i], r[i + 1]);
      if r[i] <= v < r[i + 1] {
        BucketIsUnique(r, v, i, index);
      }
    }
    OneMoreSample(samples, v, 0, 0);
  }

  lemma AtTheEnds(r: seq<int>, v: int, index: nat)
    requires StrictlyIncreasing(r) && Covers(r) && index + 1 < |r| && r[index] <= v < r[index + 1]
    ensures (v == 0 ==> index == 0) && (v == SAMPLE_TYPE_MAX - 1 ==> index == |r| - 2)
  {
    assert forall k, l :: 0 <= k <= l < |r| ==> r[k] <= r[l];
  }

  class Histogram {
    const declaredMin: int
    const declaredMax: int
    const bucketCount: nat
    const ranges: array<int>
    const sample: SampleSet
    ghost var samples: seq<int>   // what was added, after clamping

    /** The arguments that the code insists on. */
    static predicate Acceptable(declaredMin: int, declaredMax: int, bucketCount: nat) {
      && 1 <= declaredMin <= declaredMax < SAMPLE_TYPE_MAX
      && 1 < bucketCount <= declaredMax - declaredMin + 2
    }

    /** Among them those of the unit tests, and the widest and the narrowest ones. */
    static lemma SomeAreAcceptable()
      ensures Acceptable(1, 64, 8) && Acceptable(1, 7, 8) && Acceptable(1, 1, 2) && Acceptable(1, 0x7fff_fffe, 2)
      ensures Acceptable(1, 0x7fff_fffe, 0x7fff_ffff)
      ensures !Acceptable(0, 7, 2) && !Acceptable(1, 0x7fff_ffff, 2) && !Acceptable(1, 7, 1) && !Acceptable(1, 7, 9) && !Acceptable(8, 7, 2)
    {
    }

    ghost predicate Valid()
      reads this, ranges, sample, sample.counts
    {
      && ranges != sample.counts
      && Acceptable(declaredMin, declaredMax, bucketCount)
      && ranges.Length == bucketCount + 1 && Covers(ranges[..]) && StrictlyIncreasing(ranges[..])
      && sample.counts.Length == bucketCount && sample.Records(samples, ranges[..])
      && Sum(sample.counts[..]) == |samples|
    }

    ghost predicate Allocated()
      reads this, ranges, sample, sample.counts
    {
      && ranges != sample.counts && ranges.Length == bucketCount + 1 && sample.counts.Length == bucketCount
      && Acceptable(declaredMin, declaredMax, bucketCount)
      && ranges[0] == 0 && ranges[bucketCount] == SAMPLE_TYPE_MAX
    }

    /** What both layouts establish. */
    ghost predicate LaidOut(last: int)
      reads this, ranges, sample, sample.counts
    {
      && Allocated() && StrictlyIncreasing(ranges[..])
      && ranges[1] == declaredMin && ranges[bucketCount - 1] == last
    }

    /** The exponential layout. It ends at the declared maximum, as the code asserts,
        unless there are just two buckets for more than one value. */
    method InitializeBucketRange()
      requires Allocated()
      modifies ranges
      ensures LaidOut(if bucketCount > 2 then declaredMax else declaredMin)
      ensures Chained(ranges[..bucketCount], declaredMax, bucketCount)
    {
      hide NearestRoot, NextStart, DoubledTarget, IsNearestRoot, Powers.Pow, StrictlyIncreasing, Chained;
      var bucketIndex, current := 1, declaredMin;
      ranges[bucketIndex] := current;
      bucketIndex := bucketIndex + 1;
      IncreasingPair(ranges[0], current);
      ChainedPair(ranges[0], current, declaredMax, bucketCount);
      assert ranges[..bucketIndex] == [ranges[0], current];
      while bucketCount > bucketIndex
        invariant 2 <= bucketIndex <= bucketCount && Allocated()
        invariant 0 < current == ranges[bucketIndex - 1] && ranges[1] == declaredMin
        invariant current + (bucketCount - bucketIndex) <= declaredMax
        invariant bucketIndex == bucketCount > 2 ==> current == declaredMax
        invariant StrictlyIncreasing(ranges[..bucketIndex])
        invariant Chained(ranges[..bucketIndex], declaredMax, bucketCount)
      {
        var left := bucketCount - bucketIndex;
        NextStartFits(current, declaredMax, left);
        var next := NearestRoot(current, declaredMax, left);
        if next > current {
          current := next;
        } else {
          current := current + 1;
        }
        IncreasingOneMore(ranges[..bucketIndex], current);
        ChainedOneMore(ranges[..bucketIndex], declaredMax, bucketCount, current);
        label Before:
        ranges[bucketIndex] := current;
        bucketIndex := bucketIndex + 1;
        assert ranges[..bucketIndex] == old@Before(ranges[..bucketIndex - 1]) + [current];
      }
      IncreasingOneMore(ranges[..bucketCount], ranges[bucketCount]);
      assert ranges[..] == ranges[..bucketCount] + [ranges[bucketCount]];
    }

    /** The linear layout. With two buckets it divides zero by zero, and the one start that it
        sets may be anything. */
    method InitializeLinearBucketRange()
      requires Allocated()
      modifies ranges
      ensures Allocated() && (bucketCount > 2 ==> LaidOut(declaredMax))
      ensures bucketCount > 2 ==> forall i :: 1 <= i < bucketCount ==> ranges[i] == LinearStart(declaredMin, declaredMax, bucketCount, i)
      ensures bucketCount == 2 ==> (StrictlyIncreasing(ranges[..]) <==> 0 < ranges[1] < SAMPLE_TYPE_MAX)
    {
      hide LinearStart, LinearRange, StrictlyIncreasing;
      var min, max := declaredMin, declaredMax;
      var count: int := bucketCount;
      var i: int := 1;
      while i < bucketCount
        invariant 1 <= i <= bucketCount && Allocated()
        invariant bucketCount > 2 ==> forall k :: 1 <= k < i ==> ranges[k] == LinearStart(declaredMin, declaredMax, bucketCount, k)
      {
        if count == 2 {
          ranges[i] := *;
        } else {
          var linearRange := (min as real * (count - 1 - i) as real + max as real * (i - 1) as real) / (count - 2) as real;
          LinearStartIs(min, max, count, i);
          ranges[i] := (linearRange + 0.5).Floor;
        }
        i := i + 1;
      }
      if bucketCount == 2 {
        TwoBuckets(ranges[..]);
        return;
      }
      LinearEnds(declaredMin, declaredMax, bucketCount);
      forall k | 0 <= k < bucketCount
        ensures ranges[k] < ranges[k + 1]
      {
        if 0 < k < bucketCount - 1 {
          LinearIncreases(declaredMin, declaredMax, bucketCount, k);
        }
      }
      FromNeighbours(ranges[..]);
    }

    constructor (minimum: int, maximum: int, bucketCount: nat)
      requires Acceptable(AtLeastOne(minimum), BelowMax(maximum), bucketCount)
      ensures fresh(ranges) && fresh(sample) && fresh(sample.counts)
      ensures Valid() && samples == [] && sample.sum == 0 == sample.squareSum
      ensures forall i :: 0 <= i < sample.counts.Length ==> sample.counts[i] == 0
      ensures declaredMin == AtLeastOne(minimum) && declaredMax == BelowMax(maximum) && this.bucketCount == bucketCount
      ensures minimum > 0 ==> declaredMin == minimum
      ensures maximum < SAMPLE_TYPE_MAX ==> declaredMax == maximum
      ensures LaidOut(if bucketCount > 2 then declaredMax else declaredMin)
      ensures Chained(ranges[..bucketCount], declaredMax, bucketCount)
    {
      declaredMin, declaredMax, this.bucketCount := AtLeastOne(minimum), BelowMax(maximum), bucketCount;
      samples := [];
      var r := new int[bucketCount + 1](i => 0);
      r[bucketCount] := SAMPLE_TYPE_MAX;
      ranges := r;
      sample := new SampleSet(bucketCount);
      new;
      InitializeBucketRange();
      ZeroSum(sample.counts[..]);
      RecordsNothing(sample, ranges[..]);
    }

    /** A linear histogram is laid out again after the base class is constructed. */
    constructor Linear(minimum: int, maximum: int, bucketCount: nat)
      requires Acceptable(AtLeastOne(minimum), BelowMax(maximum), bucketCount)
      ensures declaredMin == AtLeastOne(minimum) && declaredMax == BelowMax(maximum) && this.bucketCount == bucketCount
      ensures minimum > 0 ==> declaredMin == minimum
      ensures maximum < SAMPLE_TYPE_MAX ==> declaredMax == maximum
      ensures fresh(ranges) && fresh(sample) && fresh(sample.counts)
      ensures Allocated() && sample.Records([], ranges[..]) && samples == []
      ensures bucketCount > 2 ==> forall i :: 1 <= i < bucketCount ==> ranges[i] == LinearStart(declaredMin, declaredMax, bucketCount, i)
      ensures bucketCount > 2 ==> Valid() && LaidOut(declaredMax)
      ensures bucketCount == 2 ==> (Valid() <==> 0 < ranges[1] < SAMPLE_TYPE_MAX)
    {
      declaredMin, declaredMax, this.bucketCount := AtLeastOne(minimum), BelowMax(maximum), bucketCount;
      samples := [];
      var r := new int[bucketCount + 1](i => 0);
      r[bucketCount] := SAMPLE_TYPE_MAX;
      ranges := r;
      sample := new SampleSet(bucketCount);
      new;
      InitializeBucketRange();
      InitializeLinearBucketRange();
      ZeroSum(sample.counts[..]);
      RecordsNothing(sample, ranges[..]);
    }

    method BucketIndex(value: int) returns (mid: nat)
      requires ranges.Length == bucketCount + 1 && bucketCount > 0
      requires ranges[0] <= value < ranges[bucketCount]
      ensures mid < bucketCount && ranges[mid] <= value < ranges[mid + 1]
    {
      var under, over := 0, bucketCount;
      mid := (over + under) / 2;
      while mid != under
        invariant 0 <= under < over <= bucketCount && mid == (over + under) / 2
        invariant ranges[under] <= value < ranges[over]
        decreases over - under
      {
        if ranges[mid] <= value {
          under := mid;
        } else {
          over := mid;
        }
        mid := (over + under) / 2;
      }
    }

    method Add(value: int)
      requires Valid()
      modifies this`samples, sample`sum, sample`squareSum, sample.counts
      ensures Valid() && samples == old(samples) + [Clamped(value)]
      // a value in the range is counted in its bucket and added to the sums
      ensures 0 <= value < SAMPLE_TYPE_MAX ==>
                sample.sum == old(sample.sum) + value && sample.squareSum == old(sample.squareSum) + value * value
      ensures 0 <= value < SAMPLE_TYPE_MAX ==> forall i :: 0 <= i < bucketCount ==>
                sample.counts[i] == old(sample.counts[i]) + if ranges[i] <= value < ranges[i + 1] then 1 else 0
      // any other is counted at the end of the range
      ensures value < 0 ==> sample.sum == old(sample.sum) && sample.squareSum == old(sample.squareSum)
      ensures value < 0 ==> sample.counts[..] == old(sample.counts[..])[0 := old(sample.counts[0]) + 1]
      ensures value >= SAMPLE_TYPE_MAX ==> sample.sum == old(sample.sum) + SAMPLE_TYPE_MAX - 1
      ensures value >= SAMPLE_TYPE_MAX ==>
                sample.counts[..] == old(sample.counts[..])[bucketCount - 1 := old(sample.counts[bucketCount - 1]) + 1]
    {
      hide CountIn, Sum, SumOfSquares, StrictlyIncreasing;
      var v := value;
      if v >= SAMPLE_TYPE_MAX {
        v := SAMPLE_TYPE_MAX - 1;
      }
      if v < 0 {
        v := 0;
      }
      var index := BucketIndex(v);
      ghost var r, before, counts := ranges[..], samples, sample.counts[..];
      assert sample.Records(before, r);
      SumUpdate(counts, index, 1);
      sample.Accumulate(v, 1, index);
      samples := before + [v];
      assert ranges[..] == r && sample.counts[..] == counts[index := counts[index] + 1];
      OneMoreCounted(r, before, v, counts, index);
      AtTheEnds(r, v, index);
    }

    /** The number of samples added so far. */
    method SampleCount() returns (total: int)
      requires Valid()
      ensures total == |samples|
    {
      total := sample.TotalCount();
    }
  }

  /** With two buckets for more than one value the last range does not start at the
      declared maximum. */
  method TwoBucketsEndAtMinimum() returns (h: Histogram)
    ensures h.Valid() && h.declaredMax == 100 && h.ranges[h.bucketCount - 1] == 1
  {
    h := new Histogram(1, 100, 2);
  }
}
