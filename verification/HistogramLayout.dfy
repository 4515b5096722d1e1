/** Where the buckets of a histogram start: the exponential and the linear layout.
    Logarithms and exponentials are exact; no rounding but the one that the code asks
    for takes place. */
module HistogramLayout {
  import opened Powers

  const SAMPLE_TYPE_MAX := 0x7fff_ffff

  ghost predicate StrictlyIncreasing(s: seq<int>) {
    forall i, j :: 0 <= i < j < |s| ==> s[i] < s[j]
  }

  lemma {:induction false} NeighboursSuffice(s: seq<int>, i: nat, j: nat)
    requires i < j < |s| && forall k :: 0 <= k < |s| - 1 ==> s[k] < s[k + 1]
    ensures s[i] < s[j]
    decreases j
  {
    if i < j - 1 {
      NeighboursSuffice(s, i, j - 1);
    }
  }

  lemma IncreasingPair(x: int, y: int)
    requires x < y
    ensures StrictlyIncreasing([x, y])
  {
  }

  lemma IncreasingOneMore(s: seq<int>, x: int)
    requires StrictlyIncreasing(s) && s != [] && s[|s| - 1] < x
    ensures StrictlyIncreasing(s + [x])
  {
  }

  lemma FromNeighbours(s: seq<int>)
    requires forall k :: 0 <= k < |s| - 1 ==> s[k] < s[k + 1]
    ensures StrictlyIncreasing(s)
  {
    forall i, j | 0 <= i < j < |s|
      ensures s[i] < s[j]
    {
      NeighboursSuffice(s, i, j);
    }
  }

  // ---------- The exponential layout ----------

  /** With m buckets left between c and max, the next bucket starts at the m-th root of
      c^(m-1) * max. This is that number times 2, to the power m. */
  function DoubledTarget(c: nat, max: nat, m: nat): nat
    requires m > 0
  {
    Pow(2, m) * (Pow(c, m - 1) * max)
  }

  /** n is the root rounded to the nearest integer, halves up. */
  predicate IsNearestRoot(n: nat, c: nat, max: nat, m: nat)
    requires m > 0
  {
    n > 0 && Pow(2 * n - 1, m) <= DoubledTarget(c, max, m) < Pow(2 * n + 1, m)
  }

  /** For the real root r, IsNearestRoot says exactly that r + 1/2 rounds down to n. */
  lemma NearestRootIsRounding(r: real, n: nat, c: nat, max: nat, m: nat)
    requires m > 0 && n > 0 && 0.0 <= r && RealPow(r, m) == RealPow(c as real, m - 1) * max as real
    ensures (r + 0.5).Floor == n <==> IsNearestRoot(n, c, max, m)
  {
    hide RealPow, Pow, DoubledTarget;
    DoubledRoot(r, c, max, m);
    RealPowOfInt(2 * n - 1, m);
    RealPowOfInt(2 * n + 1, m);
    RealPowOrder((2 * n - 1) as real, 2.0 * r, m);
    RealPowOrder(2.0 * r, (2 * n + 1) as real, m);
    RoundsDown(r, n);
  }

  lemma RoundsDown(r: real, n: nat)
    ensures (r + 0.5).Floor == n <==> (2 * n - 1) as real <= 2.0 * r < (2 * n + 1) as real
  {
  }

  lemma DoubledRoot(r: real, c: nat, max: nat, m: nat)
    requires m > 0 && RealPow(r, m) == RealPow(c as real, m - 1) * max as real
    ensures RealPow(2.0 * r, m) == DoubledTarget(c, max, m) as real
  {
    hide RealPow, Pow;
    var p, q := Pow(2, m), Pow(c, m - 1);
    RealPowProduct(2.0, r, m);
    RealPowOfInt(2, m);
    RealPowOfInt(c, m - 1);
    assert (q * max) as real == q as real * max as real;
    assert (p * (q * max)) as real == p as real * (q * max) as real;
  }

  lemma RealPowOrder(a: real, b: real, m: nat)
    requires 0.0 <= a && 0.0 <= b && m > 0
    ensures a <= b <==> RealPow(a, m) <= RealPow(b, m)
    ensures a < b <==> RealPow(a, m) < RealPow(b, m)
  {
    if a < b {
      RealPowMonotone(a, b, m);
    } else if b < a {
      RealPowMonotone(b, a, m);
    }
  }

  /** The nearest integer to the root, searched for upwards from n. */
  function NearestRootFrom(n: nat, c: nat, max: nat, m: nat): (r: nat)
    requires m > 0 && 0 < n <= max && c <= max
    requires Pow(2 * n - 1, m) <= DoubledTarget(c, max, m)
    ensures IsNearestRoot(r, c, max, m) && n <= r <= max
    decreases max - n
  {
    if DoubledTarget(c, max, m) < Pow(2 * n + 1, m) then n
    else
      RootAtMostMax(n, c, max, m);
      NearestRootFrom(n + 1, c, max, m)
  }

  lemma RootAtMostMax(n: nat, c: nat, max: nat, m: nat)
    requires m > 0 && n <= max && c <= max && Pow(2 * n + 1, m) <= DoubledTarget(c, max, m)
    ensures n < max
  {
    if n == max {
      TargetAtMost(c, max, m);
      PowStrict(2 * max, 2 * max + 1, m);
      assert false;
    }
  }

  lemma TargetAtMost(c: nat, max: nat, m: nat)
    requires m > 0 && c <= max
    ensures Pow(2 * c, m) <= DoubledTarget(c, max, m) <= Pow(2 * max, m)
  {
    PowProduct(2, max, m);
    PowProduct(2, c, m);
    PowMonotone(c, max, m - 1);
    var p, q := Pow(c, m - 1), Pow(max, m - 1);
    MulMonotone(p, c, max);
    MulMonotone(max, p, q);
    MulMonotone(Pow(2, m), c * p, p * max);
    MulMonotone(Pow(2, m), p * max, max * q);
  }

  function NearestRoot(c: nat, max: nat, m: nat): (r: nat)
    requires m > 0 && 0 < c <= max
    ensures IsNearestRoot(r, c, max, m) && c <= r <= max
  {
    assert Pow(2 * c - 1, m) <= DoubledTarget(c, max, m) by {
      TargetAtMost(c, max, m);
      PowMonotone(2 * c - 1, 2 * c, m);
    }
    NearestRootFrom(c, c, max, m)
  }

  /** Where the next bucket starts: at the rounded root, but at least one further on. */
  function NextStart(c: nat, max: nat, m: nat): (next: nat)
    requires m > 0 && 0 < c <= max
    ensures next > c
  {
    var root := NearestRoot(c, max, m);
    if root > c then root else c + 1
  }

  /** If there is room for the m buckets left, there is room for the rest after the
      next one: the key step, by Bernoulli's inequality. */
  lemma RoomIsLeft(c: nat, max: nat, m: nat)
    requires m > 0 && 0 < c && c + m <= max
    ensures NextStart(c, max, m) + (m - 1) <= max
  {
    var n, b := NearestRoot(c, max, m), max - m + 1;
    if n > b {
      BoundAboveTarget(c, max, m);
      PowMonotone(2 * b + 1, 2 * n - 1, m);
      PowStrict(2 * b, 2 * b + 1, m);
      assert false;
    }
  }

  /** Spread over m steps the room is enough for each to be one wide. */
  lemma RoomSpread(room: nat, m: nat)
    requires 0 < m <= room
    ensures m * (room - m + 1) >= room
  {
    MulMonotone(m - 1, m, room);
    calc {
      m * (room - m + 1);
      m * room - m * (m - 1);
      room + (m - 1) * room - m * (m - 1);
    }
  }

  lemma Regroup(c: nat, p: nat, m: nat, y: nat, room: nat)
    requires m * y >= room
    ensures c * p + m * p * y >= p * (c + room)
  {
    MulMonotone(p, room, m * y);
    assert m * p * y == p * (m * y);
  }

  lemma BoundAboveTarget(c: nat, max: nat, m: nat)
    requires m > 0 && 0 < c && c + m <= max
    ensures Pow(2 * (max - m + 1), m) >= DoubledTarget(c, max, m)
  {
    var b, p, room := max - m + 1, Pow(c, m - 1), max - c;
    RoomSpread(room, m);
    Bernoulli(c, b - c, m);
    Regroup(c, p, m, b - c, room);
    PowProduct(2, b, m);
    MulMonotone(Pow(2, m), p * max, Pow(b, m));
  }

  /** With one bucket left it starts exactly at max. */
  lemma LastStart(c: nat, max: nat)
    requires 0 < c < max
    ensures NextStart(c, max, 1) == max
  {
    RoomIsLeft(c, max, 1);
    var n := NearestRoot(c, max, 1);
    assert Pow(c, 0) == 1 && Pow(2, 1) == 2 * Pow(2, 0) == 2;
    assert Pow(2 * n + 1, 1) == (2 * n + 1) * Pow(2 * n + 1, 0) == 2 * n + 1;
  }

  /** All that the loop relies on. */
  lemma NextStartFits(c: nat, max: nat, m: nat)
    requires m > 0 && 0 < c && c + m <= max
    ensures var root, next := NearestRoot(c, max, m), NextStart(c, max, m);
            && next == (if root > c then root else c + 1)
            && next + (m - 1) <= max && (m == 1 ==> next == max)
  {
    hide NearestRoot, Pow;
    RoomIsLeft(c, max, m);
    if m == 1 {
      LastStart(c, max);
    }
  }

  /** Every start but the first follows from the one before, for `count` buckets. */
  ghost predicate Chained(starts: seq<int>, max: nat, count: nat) {
    |starts| <= count && forall i :: 1 <= i < |starts| - 1 ==>
      0 < starts[i] <= max && starts[i + 1] == NextStart(starts[i], max, count - 1 - i)
  }

  lemma ChainedOneMore(starts: seq<int>, max: nat, count: nat, x: int)
    requires Chained(starts, max, count) && 2 <= |starts| < count
    requires var c := starts[|starts| - 1]; 0 < c <= max && x == NextStart(c, max, count - |starts|)
    ensures Chained(starts + [x], max, count)
  {
    hide NextStart;
  }

  lemma ChainedPair(x: int, y: int, max: nat, count: nat)
    requires count >= 2
    ensures Chained([x, y], max, count)
  {
  }

  // ---------- The linear layout ----------

  /** Start of bucket i before rounding. */
  function LinearRange(min: int, max: int, bucketCount: int, i: int): real
    requires bucketCount > 2
  {
    (min as real * (bucketCount - 1 - i) as real + max as real * (i - 1) as real) / (bucketCount - 2) as real
  }

  function LinearStart(min: int, max: int, bucketCount: int, i: int): int
    requires bucketCount > 2
  {
    (LinearRange(min, max, bucketCount, i) + 0.5).Floor
  }

  lemma LinearStartIs(min: int, max: int, bucketCount: int, i: int)
    requires bucketCount > 2
    ensures LinearStart(min, max, bucketCount, i) ==
            ((min as real * (bucketCount - 1 - i) as real + max as real * (i - 1) as real) / (bucketCount - 2) as real + 0.5).Floor
  {
  }

  lemma LinearRangeSteps(min: int, max: int, bucketCount: int, i: int)
    requires bucketCount > 2
    ensures LinearRange(min, max, bucketCount, i + 1) - LinearRange(min, max, bucketCount, i)
         == (max - min) as real / (bucketCount - 2) as real
  {
    var d, lo, hi := (bucketCount - 2) as real, min as real, max as real;
    var rest, done := (bucketCount - 1 - i) as real, (i - 1) as real;
    calc {
      (lo * (rest - 1.0) + hi * (done + 1.0)) / d - (lo * rest + hi * done) / d;
    == { assert lo * (rest - 1.0) == lo * rest - lo && hi * (done + 1.0) == hi * done + hi; }
      (lo * rest + hi * done + (hi - lo)) / d - (lo * rest + hi * done) / d;
    == { DivisionAdds(lo * rest + hi * done, hi - lo, d); }
      (hi - lo) / d;
    }
  }

  lemma DivisionAdds(a: real, b: real, d: real)
    requires d > 0.0
    ensures (a + b) / d == a / d + b / d
  {
  }

  /** Consecutive starts differ if there is a value for every bucket. */
  lemma LinearIncreases(min: int, max: int, bucketCount: int, i: int)
    requires 2 < bucketCount <= max - min + 2
    ensures LinearStart(min, max, bucketCount, i) < LinearStart(min, max, bucketCount, i + 1)
  {
    LinearRangeSteps(min, max, bucketCount, i);
    QuotientAtLeastOne((max - min) as real, (bucketCount - 2) as real);
  }

  lemma QuotientAtLeastOne(a: real, d: real)
    requires 0.0 < d <= a
    ensures a / d >= 1.0
  {
  }

  lemma LinearEnds(min: int, max: int, bucketCount: int)
    requires bucketCount > 2
    ensures LinearStart(min, max, bucketCount, 1) == min
    ensures LinearStart(min, max, bucketCount, bucketCount - 1) == max
  {
    var d := (bucketCount - 2) as real;
    assert min as real * d / d == min as real && max as real * d / d == max as real;
    assert LinearRange(min, max, bucketCount, 1) == min as real;
    assert LinearRange(min, max, bucketCount, bucketCount - 1) == max as real;
  }
}
