/** The log-bucketed latency histogram (pkg/loadengine/metrics.go), in whole microseconds and exact reals. */
module Histogram {
  import opened Counting
  import opened Sums

  const LINEAR_BUCKETS: nat := 1000
  const LOG_BUCKETS: nat := 1500
  const TOTAL_BUCKETS: nat := LINEAR_BUCKETS + LOG_BUCKETS
  const LOG_FACTOR := 1.01
  const MAX_UINT64: nat := 0xFFFF_FFFF_FFFF_FFFF

  // --- buckets

  /** The lower edge of a bucket: whole microseconds below 1 ms, then one percent apart. */
  function Edge(idx: nat): real {
    if idx < LINEAR_BUCKETS then idx as real else 1000.0 * Power(LOG_FACTOR, idx - LINEAR_BUCKETS)
  }

  /** The largest k, capped at the last log bucket, with 1000 * 1.01^k <= micros. */
  function LogIndex(micros: nat, k: nat): (r: nat)
    requires 1000.0 * Power(LOG_FACTOR, k) <= micros as real && k < LOG_BUCKETS
    ensures k <= r < LOG_BUCKETS
    ensures 1000.0 * Power(LOG_FACTOR, r) <= micros as real
    ensures r + 1 < LOG_BUCKETS ==> (micros as real) < 1000.0 * Power(LOG_FACTOR, r + 1)
    decreases LOG_BUCKETS - k, micros
  {
    if k + 1 == LOG_BUCKETS || (micros as real) < 1000.0 * Power(LOG_FACTOR, k + 1) then k else LogIndex(micros, k + 1)
  }

  function BucketIndex(micros: nat): (idx: nat)
    ensures idx < TOTAL_BUCKETS
  {
    if micros < LINEAR_BUCKETS then micros else LINEAR_BUCKETS + LogIndex(micros, 0)
  }

  function BucketToMicros(idx: nat): nat {
    Floor(Edge(idx))
  }

  function Floor(x: real): nat {
    if x < 0.0 then 0 else x.Floor
  }

  lemma {:induction false} GrowthIncreases(j: nat, k: nat)
    requires j < k
    ensures 1.0 <= Power(1.01, j) < Power(1.01, k)
  {
    GrowthAtLeastOne(j);
    GrowthAtLeastOne(k - 1);
    if j < k - 1 {
      GrowthIncreases(j, k - 1);
    }
  }

  lemma {:induction false} GrowthAtLeastOne(k: nat)
    ensures 1.0 <= Power(1.01, k)
  {
    if k == 0 {
    } else {
      GrowthAtLeastOne(k - 1);
    }
  }

  lemma EdgeIncreases(i: nat, j: nat)
    requires i < j
    ensures 0.0 <= Edge(i) < Edge(j)
  {
    if j >= LINEAR_BUCKETS {
      GrowthAtLeastOne(j - LINEAR_BUCKETS);
      if i >= LINEAR_BUCKETS {
        GrowthIncreases(i - LINEAR_BUCKETS, j - LINEAR_BUCKETS);
      }
    }
  }

  /** The log bucket is the one the source's logarithm names, clamped to the last bucket; reading it back gives
      its lower edge in whole microseconds. */
  lemma LogBucketIsLargestGrowth(micros: nat, k: nat)
    requires 1000.0 * Power(1.01, k) <= micros as real < 1000.0 * Power(1.01, k + 1)
    ensures BucketIndex(micros) == 1000 + if k < 1500 then k else 1499
    ensures var v := BucketToMicros(BucketIndex(micros)) as real;
      k < 1500 ==> v <= 1000.0 * Power(1.01, k) < v + 1.0
  {
    GrowthAtLeastOne(k);
    var r := LogIndex(micros, 0);
    if r < k && r + 1 < LOG_BUCKETS {
      if r + 1 < k { GrowthIncreases(r + 1, k); }
    }
    if k < r {
      if k + 1 < r { GrowthIncreases(k + 1, r); }
    }
  }

  lemma BucketMonotone(a: nat, b: nat)
    requires a <= b
    ensures BucketIndex(a) <= BucketIndex(b)
  {
    var i, j := BucketIndex(a), BucketIndex(b);
    if j < i {
      if j + 1 < i { EdgeIncreases(j + 1, i); }
    }
  }

  /** What reading a bucket back loses: nothing below 1 ms, less than one percent above, never upwards. */
  lemma ReadingErrorBound(micros: nat)
    ensures var v := BucketToMicros(BucketIndex(micros));
      && v <= micros
      && (micros < 1000 ==> v == micros)
      && (BucketIndex(micros) < 2499 ==> (micros as real) < 1.01 * (v + 1) as real)
  {
  }

  lemma ReadingMonotone(i: nat, j: nat)
    requires i <= j
    ensures BucketToMicros(i) <= BucketToMicros(j)
  {
    if i < j {
      EdgeIncreases(i, j);
    }
  }

  // --- what a histogram represents

  datatype Shared = Shared(buckets: seq<nat>, count: nat, sumMicros: nat, minMicros: nat, maxMicros: nat)

  ghost function InBucket(idx: nat): nat -> nat {
    x => if BucketIndex(x) == idx then 1 else 0
  }

  ghost function BelowBucket(idx: nat): nat -> nat {
    x => if BucketIndex(x) < idx then 1 else 0
  }

  ghost function AtMost(bound: nat): nat -> nat {
    x => if x <= bound then 1 else 0
  }

  ghost function Less(bound: nat): nat -> nat {
    x => if x < bound then 1 else 0
  }

  /** Bucket counts of some recorded latencies. */
  ghost predicate CountsOf(counts: seq<nat>, samples: seq<nat>) {
    |counts| == TOTAL_BUCKETS && forall i :: 0 <= i < TOTAL_BUCKETS ==> counts[i] == Tally(samples, InBucket(i))
  }

  ghost predicate IsMin(samples: seq<nat>, m: nat) {
    (forall x :: x in samples ==> m <= x) && if samples == [] then m == MAX_UINT64 else m in samples
  }

  ghost predicate IsMax(samples: seq<nat>, m: nat) {
    (forall x :: x in samples ==> x <= m) && if samples == [] then m == 0 else m in samples
  }

  ghost predicate Represents(h: Shared, samples: seq<nat>) {
    && CountsOf(h.buckets, samples)
    && h.count == |samples|
    && h.sumMicros == SumN(samples)
    && IsMin(samples, h.minMicros)
    && IsMax(samples, h.maxMicros)
  }

  // --- nearest-rank quantiles

  /** x is the rank-th smallest sample. */
  ghost predicate IsNearestRank(samples: seq<nat>, rank: nat, x: nat) {
    Tally(samples, Less(x)) < rank <= Tally(samples, AtMost(x))
  }

  lemma NearestRankExists(samples: seq<nat>, rank: nat)
    requires 1 <= rank <= |samples|
    ensures exists x :: IsNearestRank(samples, rank, x)
  {
    var x: nat := 0;
    var top := SumN(samples);
    TallyZero(samples, Less(0));
    forall i | 0 <= i < |samples|
      ensures samples[i] <= top
    {
      TallyMember(samples, i, (y: nat) => y);
    }
    TallyOnes(samples, AtMost(top));
    while Tally(samples, AtMost(x)) < rank
      invariant x <= top && Tally(samples, Less(x)) < rank
      decreases top - x
    {
      TallyPointwise(samples, Less(x + 1), samples, AtMost(x));
      x := x + 1;
    }
    assert IsNearestRank(samples, rank, x);
  }

  lemma NearestRankMonotone(samples: seq<nat>, r: nat, s: nat, x: nat, y: nat)
    requires r <= s && IsNearestRank(samples, r, x) && IsNearestRank(samples, s, y)
    ensures x <= y
  {
    if y < x {
      TallyAtMost(samples, AtMost(y), Less(x));
    }
  }

  ghost function NearestRank(samples: seq<nat>, rank: nat): (x: nat)
    requires 1 <= rank <= |samples|
    ensures IsNearestRank(samples, rank, x)
  {
    NearestRankExists(samples, rank);
    var x :| IsNearestRank(samples, rank, x);
    x
  }

  lemma NearestRankUnique(samples: seq<nat>, rank: nat)
    requires 1 <= rank <= |samples|
    ensures forall x :: IsNearestRank(samples, rank, x) ==> x == NearestRank(samples, rank)
  {
    forall x | IsNearestRank(samples, rank, x)
      ensures x == NearestRank(samples, rank)
    {
      NearestRankMonotone(samples, rank, rank, x, NearestRank(samples, rank));
      NearestRankMonotone(samples, rank, rank, NearestRank(samples, rank), x);
    }
  }

  lemma NearestRankIsASample(samples: seq<nat>, rank: nat, x: nat)
    requires IsNearestRank(samples, rank, x)
    ensures x in samples
  {
    if x !in samples {
      TallyPointwise(samples, Less(x), samples, AtMost(x));
    }
  }

  function Ceil(x: real): int {
    -((-x).Floor)
  }

  function Rank(p: real, total: nat): int {
    Ceil(p / 100.0 * total as real)
  }

  lemma RankRoundsUp(p: real, total: nat)
    requires 0.0 < p < 100.0 && total > 0
    ensures 1 <= Rank(p, total) && (Rank(p, total) - 1) as real < p / 100.0 * total as real <= Rank(p, total) as real
  {
  }

  lemma RankInRange(p: real, total: nat)
    requires 0.0 < p < 100.0 && total > 0
    ensures 1 <= Rank(p, total) <= total
  {
  }

  /** Once buckets up to idx reach the rank, the sample at that rank is in one of them. */
  lemma RankBelow(samples: seq<nat>, rank: nat, idx: nat)
    requires 1 <= rank <= |samples| && rank <= Tally(samples, BelowBucket(idx + 1))
    ensures BucketIndex(NearestRank(samples, rank)) <= idx
  {
    var x := NearestRank(samples, rank);
    if idx < BucketIndex(x) {
      forall i | 0 <= i < |samples|
        ensures BelowBucket(idx + 1)(samples[i]) <= Less(x)(samples[i])
      {
        if x <= samples[i] { BucketMonotone(x, samples[i]); }
      }
      TallyAtMost(samples, BelowBucket(idx + 1), Less(x));
    }
  }

  /** While buckets below idx stay short of the rank, the sample at that rank is not in any of them. */
  lemma RankAbove(samples: seq<nat>, rank: nat, idx: nat)
    requires 1 <= rank <= |samples| && Tally(samples, BelowBucket(idx)) < rank
    ensures idx <= BucketIndex(NearestRank(samples, rank))
  {
    var x := NearestRank(samples, rank);
    if BucketIndex(x) < idx {
      forall i | 0 <= i < |samples|
        ensures AtMost(x)(samples[i]) <= BelowBucket(idx)(samples[i])
      {
        if samples[i] <= x { BucketMonotone(samples[i], x); }
      }
      TallyAtMost(samples, AtMost(x), BelowBucket(idx));
    }
  }

  /** The bucket where the cumulative count first reaches the rank is the bucket of the rank-th sample. */
  lemma ScanStopsAtTheSample(samples: seq<nat>, rank: nat, idx: nat)
    requires 1 <= rank <= |samples|
    requires Tally(samples, BelowBucket(idx)) < rank <= Tally(samples, BelowBucket(idx + 1))
    ensures BucketIndex(NearestRank(samples, rank)) == idx
  {
    RankBelow(samples, rank, idx);
    RankAbove(samples, rank, idx);
  }

  /** Fewer than p percent of the samples lie below x, and at least p percent at x or below. */
  ghost predicate AtPercentile(samples: seq<nat>, p: real, x: nat) {
    Tally(samples, Less(x)) as real < p / 100.0 * |samples| as real <= Tally(samples, AtMost(x)) as real
  }

  /** The nearest rank rounds p percent of the samples up. */
  lemma NearestRankIsAtPercentile(samples: seq<nat>, p: real, x: nat)
    requires samples != [] && 0.0 < p < 100.0
    ensures var rank := Rank(p, |samples|);
      rank >= 1 && (IsNearestRank(samples, rank, x) <==> AtPercentile(samples, p, x))
  {
    RankRoundsUp(p, |samples|);
  }

  /** The true sample at a percentile strictly between 0 and 100. */
  ghost function SampleAt(samples: seq<nat>, p: real): (x: nat)
    requires samples != [] && 0.0 < p < 100.0
    ensures x in samples && IsNearestRank(samples, Rank(p, |samples|), x)
  {
    RankInRange(p, |samples|);
    var x := NearestRank(samples, Rank(p, |samples|));
    NearestRankIsASample(samples, Rank(p, |samples|), x);
    x
  }

  /** It is the only number with fewer than p percent of the samples below it and p percent up to it. */
  lemma SampleAtIsTheOnlyOne(samples: seq<nat>, p: real, x: nat)
    requires samples != [] && 0.0 < p < 100.0
    ensures x == SampleAt(samples, p) <==>
      Tally(samples, Less(x)) as real < p / 100.0 * |samples| as real <= Tally(samples, AtMost(x)) as real
  {
    RankInRange(p, |samples|);
    NearestRankIsAtPercentile(samples, p, x);
    NearestRankUnique(samples, Rank(p, |samples|));
  }

  /** The value reported for it: the lower edge of its bucket. */
  ghost function PercentileOf(samples: seq<nat>, p: real): nat
    requires samples != [] && 0.0 < p < 100.0
  {
    BucketToMicros(BucketIndex(SampleAt(samples, p)))
  }

  /** A reported percentile is the true sample itself below 1 ms, less than one percent under it up to the last
      bucket, and never above it. */
  lemma PercentileErrorBound(samples: seq<nat>, p: real, x: nat)
    requires samples != [] && 0.0 < p < 100.0
    requires Tally(samples, Less(x)) as real < p / 100.0 * |samples| as real <= Tally(samples, AtMost(x)) as real
    ensures x in samples && PercentileOf(samples, p) <= x
    ensures x < 1000 ==> PercentileOf(samples, p) == x
    ensures BucketIndex(x) < 2499 ==> x as real < 1.01 * (PercentileOf(samples, p) + 1) as real
  {
    SampleAtIsTheOnlyOne(samples, p, x);
    ReadingErrorBound(x);
  }

  /** Reported percentiles are ordered like the percentages, and never exceed the recorded maximum. */
  lemma PercentilesOrdered(samples: seq<nat>, p: real, q: real, m: nat)
    requires samples != [] && 0.0 < p <= q < 100.0 && IsMax(samples, m)
    ensures PercentileOf(samples, p) <= PercentileOf(samples, q) <= m
  {
    RankMonotone(p, q, |samples|);
    var x, y := SampleAt(samples, p), SampleAt(samples, q);
    NearestRankMonotone(samples, Rank(p, |samples|), Rank(q, |samples|), x, y);
    ReadingsOrdered(x, y);
    assert y in samples;
  }

  lemma RankMonotone(p: real, q: real, total: nat)
    requires 0.0 < p <= q < 100.0 && total > 0
    ensures 1 <= Rank(p, total) <= Rank(q, total) <= total
  {
    RankInRange(p, total);
    RankInRange(q, total);
    ShareMonotone(p / 100.0, q / 100.0, total as real);
  }

  lemma ShareMonotone(x: real, y: real, total: real)
    requires x <= y && total >= 0.0
    ensures x * total <= y * total
  {
  }

  lemma ReadingsOrdered(x: nat, y: nat)
    requires x <= y
    ensures BucketToMicros(BucketIndex(x)) <= BucketToMicros(BucketIndex(y)) <= y
  {
    BucketMonotone(x, y);
    ReadingMonotone(BucketIndex(x), BucketIndex(y));
    ReadingErrorBound(y);
  }

  /** The reported minimum, which is exact, exceeds a reported percentile exactly when both fall in one
      bucket whose lower edge is not the minimum itself. */
  lemma MinimumBelowPercentile(samples: seq<nat>, p: real, m: nat)
    requires samples != [] && 0.0 < p < 100.0 && IsMin(samples, m)
    ensures m <= PercentileOf(samples, p) <==>
      BucketIndex(m) < BucketIndex(SampleAt(samples, p)) || BucketToMicros(BucketIndex(m)) == m
  {
    MinimumAgainstReading(m, SampleAt(samples, p));
  }

  lemma MinimumAgainstReading(m: nat, x: nat)
    requires m <= x
    ensures m <= BucketToMicros(BucketIndex(x)) <==>
      BucketIndex(m) < BucketIndex(x) || BucketToMicros(BucketIndex(m)) == m
  {
    BucketMonotone(m, x);
    ReadingErrorBound(m);
    var b := BucketIndex(m);
    if b < BucketIndex(x) {
      ReadingMonotone(b + 1, BucketIndex(x));
    }
  }

  /** One recording of 1015 us is reported with a median of 1010 us and a minimum of 1015 us. */
  lemma MedianBelowMinimum()
    ensures IsMin([1015], 1015) && PercentileOf([1015], 50.0) == 1010
  {
  }

  // --- the histogram object, one caller at a time

  datatype LatencyStats = LatencyStats(min: nat, mean: nat, p50: nat, p90: nat, p95: nat, p99: nat, max: nat)

  /** An untouched minimum reads as zero. */
  function SentinelToZero(m: nat): nat {
    if m == MAX_UINT64 then 0 else m
  }

  function Quotient(sum: nat, n: nat): (q: nat)
    requires n > 0
    ensures q * n <= sum < (q + 1) * n
  {
    sum / n
  }

  /** Whole microseconds of a duration in nanoseconds. */
  function Micros(d: int): (micros: nat)
    ensures if d < 0 then micros == 0 else micros * 1000 <= d < (micros + 1) * 1000
  {
    if d < 0 then 0 else d / 1000
  }

  /** The cumulative scan over bucket counts. */
  method ScanTo(counts: seq<nat>, rank: nat, ghost samples: seq<nat>) returns (v: nat)
    requires CountsOf(counts, samples) && 1 <= rank <= |samples|
    ensures v == BucketToMicros(BucketIndex(NearestRank(samples, rank)))
    ensures forall p :: 0.0 < p < 100.0 && rank == Rank(p, |samples|) ==> v == PercentileOf(samples, p)
  {
    NearestRankUnique(samples, rank);
    var cumulative := 0;
    TallyZero(samples, BelowBucket(0));
    for i := 0 to TOTAL_BUCKETS
      invariant cumulative == Tally(samples, BelowBucket(i)) < rank
    {
      var bCount := counts[i];
      OneBucketFurther(samples, i);
      if bCount == 0 {
        continue;
      }
      cumulative := cumulative + bCount;
      if cumulative >= rank {
        ScanStopsAtTheSample(samples, rank, i);
        return BucketToMicros(i);
      }
    }
    // The fall-through after the loop is never taken.
    TallyOnes(samples, BelowBucket(TOTAL_BUCKETS));
    assert false;
  }

  /** The histogram's mass below a bucket is the number of samples there. */
  lemma {:induction false} HistogramMass(samples: seq<nat>, counts: seq<nat>, k: nat)
    requires CountsOf(counts, samples) && k <= TOTAL_BUCKETS
    ensures SumN(counts[..k]) == Tally(samples, BelowBucket(k))
    decreases k, samples
  {
    if k == 0 {
      TallyZero(samples, BelowBucket(0));
    } else {
      HistogramMass(samples, counts, k - 1);
      OneBucketFurther(samples, k - 1);
      SumToBack(counts, k - 1);
    }
  }

  lemma MassIsCount(samples: seq<nat>, counts: seq<nat>)
    requires CountsOf(counts, samples)
    ensures SumN(counts) == |samples|
  {
    HistogramMass(samples, counts, TOTAL_BUCKETS);
    TallyOnes(samples, BelowBucket(TOTAL_BUCKETS));
    assert counts[..TOTAL_BUCKETS] == counts;
  }

  lemma OneBucketFurther(samples: seq<nat>, i: nat)
    ensures Tally(samples, BelowBucket(i + 1)) == Tally(samples, BelowBucket(i)) + Tally(samples, InBucket(i))
  {
  }

  lemma StatsOrdered(samples: seq<nat>, m: nat)
    requires samples != [] && IsMax(samples, m)
    ensures PercentileOf(samples, 50.0) <= PercentileOf(samples, 90.0) <= PercentileOf(samples, 95.0)
      <= PercentileOf(samples, 99.0) <= m
  {
    PercentilesOrdered(samples, 50.0, 90.0, m);
    PercentilesOrdered(samples, 90.0, 95.0, m);
    PercentilesOrdered(samples, 95.0, 99.0, m);
  }

  /** What one recording changes. */
  lemma RepresentsOneMore(a: Shared, b: Shared, samples: seq<nat>, x: nat)
    requires Represents(a, samples) && x < MAX_UINT64
    requires |b.buckets| == TOTAL_BUCKETS && b.buckets == a.buckets[BucketIndex(x) := a.buckets[BucketIndex(x)] + 1]
    requires b.count == a.count + 1 && b.sumMicros == a.sumMicros + x
    requires b.minMicros == if x < a.minMicros then x else a.minMicros
    requires b.maxMicros == if x > a.maxMicros then x else a.maxMicros
    ensures Represents(b, samples + [x])
  {
  }

  class HDRHistogram {
    const buckets: array<nat>
    var count: nat
    var sumMicros: nat
    var minMicros: nat
    var maxMicros: nat
    ghost var samples: seq<nat>

    ghost function Contents(): Shared
      reads this, buckets
    {
      Shared(buckets[..], count, sumMicros, minMicros, maxMicros)
    }

    ghost predicate Valid()
      reads this, buckets
    {
      Represents(Contents(), samples) && forall x :: x in samples ==> x < MAX_UINT64
    }

    constructor ()
      ensures Valid() && fresh(buckets) && samples == []
    {
      buckets := new nat[TOTAL_BUCKETS](_ => 0);
      count, sumMicros, minMicros, maxMicros := 0, 0, MAX_UINT64, 0;
      samples := [];
    }

    /** `d` is a 64-bit count of nanoseconds. */
    method Record(d: int)
      requires Valid() && -0x8000_0000_0000_0000 <= d < 0x8000_0000_0000_0000
      modifies this, buckets
      ensures Valid() && samples == old(samples) + [Micros(d)]
    {
      var micros := Micros(d);
      var idx := BucketIndex(micros);
      ghost var before := Contents();
      buckets[idx] := buckets[idx] + 1;
      count := count + 1;
      sumMicros := sumMicros + micros;
      if micros < minMicros {
        minMicros := micros;
      }
      if micros > maxMicros {
        maxMicros := micros;
      }
      samples := samples + [micros];
      RepresentsOneMore(before, Contents(), old(samples), micros);
    }

    /** The cumulative scan. */
    method Percentile(p: real) returns (v: nat)
      requires Valid()
      ensures samples == [] ==> v == 0
      ensures samples != [] && p <= 0.0 ==> v == minMicros
      ensures samples != [] && p >= 100.0 ==> v == maxMicros
      ensures samples != [] && 0.0 < p < 100.0 ==> v == PercentileOf(samples, p)
    {
      var total := count;
      if total == 0 {
        return 0;
      }
      if p <= 0.0 {
        return SentinelToZero(minMicros);
      }
      if p >= 100.0 {
        return maxMicros;
      }
      RankInRange(p, total);
      var rank := Rank(p, total);
      v := ScanTo(buckets[..], rank, samples);
    }

    method Stats() returns (s: LatencyStats)
      requires Valid()
      ensures samples == [] ==> s == LatencyStats(0, 0, 0, 0, 0, 0, 0)
      ensures samples != [] ==> IsMin(samples, s.min) && IsMax(samples, s.max)
      ensures samples != [] ==> s.mean == Quotient(SumN(samples), |samples|)
      ensures samples != [] ==>
        s.p50 == PercentileOf(samples, 50.0) && s.p90 == PercentileOf(samples, 90.0) &&
        s.p95 == PercentileOf(samples, 95.0) && s.p99 == PercentileOf(samples, 99.0)
      ensures s.p50 <= s.p90 <= s.p95 <= s.p99 <= s.max
    {
      var total := count;
      if total == 0 {
        return LatencyStats(0, 0, 0, 0, 0, 0, 0);
      }
      var minM := SentinelToZero(minMicros);
      var p50 := Percentile(50.0);
      var p90 := Percentile(90.0);
      var p95 := Percentile(95.0);
      var p99 := Percentile(99.0);
      StatsOrdered(samples, maxMicros);
      s := LatencyStats(minM, Quotient(sumMicros, total), p50, p90, p95, p99, maxMicros);
    }
  }
}
