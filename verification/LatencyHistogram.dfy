/**
 The exponential-bucket histogram of src/monitor/latency_histogram.h, and how far its
 percentiles may be from the exact nearest-rank ones.
 */
module LatencyHistogram {

  const BUCKETS: nat := 64
  const U64: nat := 0x1_0000_0000_0000_0000

  function Pow2(n: nat): (p: nat)
    ensures p > 0
  {
    if n == 0 then 1 else 2 * Pow2(n - 1)
  }

  /** The index of the highest set bit; 0 goes with 1. */
  function BucketOf(v: nat): (i: nat)
    ensures v >= 1 ==> Pow2(i) <= v < Pow2(i + 1)
    ensures v == 0 ==> i == 0
  {
    if v <= 1 then 0 else 1 + BucketOf(v / 2)
  }

  /** What a percentile in bucket i is reported as. */
  function UpperBound(i: nat): nat {
    if i >= BUCKETS - 1 then U64 - 1 else Pow2(i + 1)
  }

  function CountIn(samples: seq<nat>, i: nat): (n: nat)
    ensures n <= |samples|
  {
    if samples == [] then 0 else (if BucketOf(samples[0]) == i then 1 else 0) + CountIn(samples[1..], i)
  }

  function Counts(samples: seq<nat>): (c: seq<nat>)
    ensures |c| == BUCKETS && forall i :: 0 <= i < BUCKETS ==> c[i] == CountIn(samples, i)
  {
    seq(BUCKETS, i requires 0 <= i => CountIn(samples, i))
  }

  function Maximum(samples: seq<nat>): nat {
    if samples == [] then 0 else
      var m := Maximum(samples[1..]);
      if samples[0] > m then samples[0] else m
  }

  /** ceil(total * percent / 100) as the code computes it on 64 bits. */
  function PercentTarget(total: nat, percent: nat): nat {
    (total * percent + 99) % U64 / 100
  }

  function PermilleTarget(total: nat, permille: nat): nat {
    (total * permille + 999) % U64 / 1000
  }

  /** The cumulative search from bucket i on. */
  function Search(counts: seq<nat>, i: nat, cumulative: nat, target: nat): nat
    requires i <= |counts|
    decreases |counts| - i
  {
    if i == |counts| then 0
    else if cumulative + counts[i] >= target then UpperBound(i)
    else Search(counts, i + 1, cumulative + counts[i], target)
  }

  datatype Snapshot = Snapshot(count: nat, p50: nat, p95: nat, p99: nat, p999: nat, max: nat)

  /** The report on a list of samples. */
  function Report(samples: seq<nat>): Snapshot {
    var n := |samples|;
    if n == 0 then Snapshot(0, 0, 0, 0, 0, Maximum(samples))
    else Snapshot(n, Search(Counts(samples), 0, 0, PercentTarget(n, 50)), Search(Counts(samples), 0, 0, PercentTarget(n, 95)),
                  Search(Counts(samples), 0, 0, PercentTarget(n, 99)), Search(Counts(samples), 0, 0, PermilleTarget(n, 999)),
                  Maximum(samples))
  }

  class Histogram {
    const buckets: array<nat>
    var maxUs: nat
    ghost var samples: seq<nat>

    ghost predicate Valid()
      reads this, buckets
    {
      && buckets[..] == Counts(samples)
      && maxUs == Maximum(samples)
      && forall i :: 0 <= i < |samples| ==> samples[i] < U64
    }

    constructor ()
      ensures Valid() && samples == [] && fresh(buckets)
    {
      buckets := new nat[BUCKETS](_ => 0);
      maxUs, samples := 0, [];
    }

    method Record(latUs: nat)
      requires Valid() && latUs < U64
      modifies this, buckets
      ensures Valid() && samples == [latUs] + old(samples)
    {
      var idx := BucketOf(latUs);
      BucketInRange(latUs);
      buckets[idx] := buckets[idx] + 1;
      if latUs > maxUs {
        maxUs := latUs;
      }
      samples := [latUs] + samples;
      assert samples[1..] == old(samples);
    }

    /** Take every bucket's count and leave zero. */
    method DrainBuckets() returns (local: array<nat>, total: nat)
      requires buckets.Length == BUCKETS
      modifies buckets
      ensures fresh(local) && local[..] == old(buckets[..]) && total == Sum(local[..], BUCKETS)
      ensures forall j :: 0 <= j < BUCKETS ==> buckets[j] == 0
    {
      local := new nat[BUCKETS](_ => 0);
      total := 0;
      ghost var all := buckets[..];
      for i := 0 to BUCKETS
        invariant forall j :: 0 <= j < i ==> local[j] == all[j] && buckets[j] == 0
        invariant forall j :: i <= j < BUCKETS ==> buckets[j] == all[j]
        invariant total == Sum(all, i)
      {
        local[i], buckets[i] := buckets[i], 0;
        total := total + local[i];
      }
      assert local[..] == all;
    }

    /** The report on everything recorded since the last call; then start over. */
    method SnapshotAndReset() returns (s: Snapshot)
      requires Valid()
      modifies this, buckets
      ensures Valid() && samples == [] && s == Report(old(samples))
    {
      hide CountIn, Search, PercentTarget, PermilleTarget;
      var local, total := DrainBuckets();
      SumOfCounts(samples);
      var max := maxUs;
      maxUs, samples := 0, [];
      NoSamplesNoCounts();
      if total == 0 {
        return Snapshot(0, 0, 0, 0, 0, max);
      }
      var p50 := PercentileTarget(local, PercentTarget(total, 50));
      var p95 := PercentileTarget(local, PercentTarget(total, 95));
      var p99 := PercentileTarget(local, PercentTarget(total, 99));
      var p999 := PercentileTarget(local, PermilleTarget(total, 999));
      return Snapshot(total, p50, p95, p99, p999, max);
    }

    static method PercentileTarget(counts: array<nat>, target: nat) returns (r: nat)
      ensures r == Search(counts[..], 0, 0, target)
    {
      var cumulative: nat := 0;
      for i := 0 to counts.Length
        invariant Search(counts[..], 0, 0, target) == Search(counts[..], i, cumulative, target)
      {
        cumulative := cumulative + counts[i];
        if cumulative >= target {
          return UpperBound(i);
        }
      }
      return 0;
    }
  }

  // ------------------------------------------------------------------- counting

  lemma {:induction false} Pow2Ascends(m: nat, n: nat)
    requires m < n
    ensures 2 * Pow2(m) <= Pow2(n)
    decreases n
  {
    if m < n - 1 {
      Pow2Ascends(m, n - 1);
    }
  }

  lemma {:induction false} BucketOrder(a: nat, b: nat)
    requires a <= b
    ensures BucketOf(a) <= BucketOf(b)
  {
    if a >= 2 {
      BucketOrder(a / 2, b / 2);
    }
  }

  lemma NoSamplesNoCounts()
    ensures forall j :: CountIn([], j) == 0
    ensures Maximum([]) == 0
  {
  }

  lemma Pow2SixtyFour()
    ensures Pow2(BUCKETS) == U64
  {
    var k: nat := BUCKETS - 64;  // 0, but not as a literal: with one the verifier unfolds Pow2 to its end
    EightDoublings(k); EightDoublings(k + 8); EightDoublings(k + 16); EightDoublings(k + 24);
    EightDoublings(k + 32); EightDoublings(k + 40); EightDoublings(k + 48); EightDoublings(k + 56);
  }

  lemma EightDoublings(k: nat)
    ensures Pow2(k + 8) == 256 * Pow2(k)
  {
    assert Pow2(k + 2) == 4 * Pow2(k);
    assert Pow2(k + 4) == 16 * Pow2(k);
    assert Pow2(k + 6) == 64 * Pow2(k);
  }

  lemma {:induction false} BucketBelow(v: nat, k: nat)
    requires k >= 1 && v < Pow2(k)
    ensures BucketOf(v) < k
  {
    if v >= 2 {
      assert k >= 2 by { assert Pow2(1) == 2; }
      BucketBelow(v / 2, k - 1);
    }
  }

  lemma BucketInRange(v: nat)
    requires v < U64
    ensures BucketOf(v) < BUCKETS
  {
    Pow2SixtyFour();
    BucketBelow(v, BUCKETS);
  }

  function Sum(c: seq<nat>, n: nat): nat
    requires n <= |c|
  {
    if n == 0 then 0 else Sum(c, n - 1) + c[n - 1]
  }

  /** Samples in buckets below i. */
  function CountBelow(s: seq<nat>, i: nat): (n: nat)
    ensures n <= |s|
  {
    if s == [] then 0 else (if BucketOf(s[0]) < i then 1 else 0) + CountBelow(s[1..], i)
  }

  lemma {:induction false} CountBelowSplit(s: seq<nat>, i: nat)
    ensures CountBelow(s, i + 1) == CountBelow(s, i) + CountIn(s, i)
    ensures CountBelow(s, 0) == 0
  {
    hide BucketOf;
    if s != [] {
      CountBelowSplit(s[1..], i);
    }
  }

  lemma {:induction false} SumIsCountBelow(s: seq<nat>, n: nat)
    requires n <= BUCKETS
    ensures Sum(Counts(s), n) == CountBelow(s, n)
  {
    hide BucketOf, CountIn, CountBelow;
    if n == 0 {
      CountBelowSplit(s, 0);
    } else {
      SumIsCountBelow(s, n - 1);
      CountBelowSplit(s, n - 1);
    }
  }

  lemma {:induction false} AllBelow(s: seq<nat>, i: nat)
    requires forall k :: 0 <= k < |s| ==> BucketOf(s[k]) < i
    ensures CountBelow(s, i) == |s|
  {
    hide BucketOf;
    if s != [] {
      AllBelow(s[1..], i);
    }
  }

  lemma {:induction false} NoneBelow(s: seq<nat>, i: nat)
    requires forall k :: 0 <= k < |s| ==> BucketOf(s[k]) >= i
    ensures CountBelow(s, i) == 0
  {
    hide BucketOf;
    if s != [] {
      NoneBelow(s[1..], i);
    }
  }

  lemma {:induction false} CountBelowConcat(a: seq<nat>, b: seq<nat>, i: nat)
    ensures CountBelow(a + b, i) == CountBelow(a, i) + CountBelow(b, i)
  {
    hide BucketOf;
    if a == [] {
      assert a + b == b;
    } else {
      assert (a + b)[1..] == a[1..] + b;
      CountBelowConcat(a[1..], b, i);
    }
  }

  /** Counting does not depend on the order of the samples. */
  lemma {:induction false} CountBelowPermutes(a: seq<nat>, b: seq<nat>, i: nat)
    requires multiset(a) == multiset(b)
    ensures CountBelow(a, i) == CountBelow(b, i)
    decreases |a|
  {
    hide BucketOf;
    if a == [] {
      assert |multiset(b)| == 0;
    } else {
      var j := MatchingElement(a, b);
      var rest := b[..j] + b[j + 1..];
      assert b == b[..j] + ([b[j]] + b[j + 1..]);
      CountBelowConcat(b[..j], [b[j]] + b[j + 1..], i);
      CountBelowConcat(b[..j], b[j + 1..], i);
      assert ([b[j]] + b[j + 1..])[1..] == b[j + 1..];
      CountBelowPermutes(a[1..], rest, i);
    }
  }

  /** An element of b equal to a's first, whose removal leaves a permutation of a's rest. */
  lemma MatchingElement(a: seq<nat>, b: seq<nat>) returns (j: nat)
    requires a != [] && multiset(a) == multiset(b)
    ensures j < |b| && b[j] == a[0]
    ensures multiset(a[1..]) == multiset(b[..j] + b[j + 1..])
  {
    assert a[0] in multiset(b);
    j :| 0 <= j < |b| && b[j] == a[0];
    assert a == [a[0]] + a[1..];
    assert multiset(a[1..]) == multiset(a) - multiset{a[0]};
    assert b == b[..j] + ([b[j]] + b[j + 1..]);
    var front, back := multiset(b[..j]), multiset(b[j + 1..]);
    assert multiset(b) == front + (multiset{b[j]} + back);
    assert multiset(b[..j] + b[j + 1..]) == front + back;
    assert front + back == multiset(b) - multiset{b[j]};
  }

  lemma SumOfCounts(samples: seq<nat>)
    requires forall i :: 0 <= i < |samples| ==> samples[i] < U64
    ensures Sum(Counts(samples), BUCKETS) == |samples|
  {
    hide BucketOf, CountBelow;
    forall k | 0 <= k < |samples| ensures BucketOf(samples[k]) < BUCKETS {
      BucketInRange(samples[k]);
    }
    AllBelow(samples, BUCKETS);
    SumIsCountBelow(samples, BUCKETS);
  }

  // ------------------------------------------------------------- what a percentile is

  ghost predicate Sorted(s: seq<nat>) {
    forall i, j :: 0 <= i < j < |s| ==> s[i] <= s[j]
  }

  /** The search stops at the bucket where the cumulative count reaches the target. */
  lemma {:induction false} SearchFinds(counts: seq<nat>, i: nat, target: nat) returns (b: nat)
    requires i <= |counts| && Sum(counts, i) < target <= Sum(counts, |counts|)
    ensures i <= b < |counts| && Search(counts, i, Sum(counts, i), target) == UpperBound(b)
    ensures Sum(counts, b) < target <= Sum(counts, b + 1)
    decreases |counts| - i
  {
    if Sum(counts, i + 1) >= target {
      b := i;
    } else {
      b := SearchFinds(counts, i + 1, target);
    }
  }

  lemma RankBelow(sorted: seq<nat>, target: nat, b: nat)
    requires Sorted(sorted) && 1 <= target <= |sorted|
    ensures BucketOf(sorted[target - 1]) < b ==> CountBelow(sorted, b) >= target
    ensures BucketOf(sorted[target - 1]) >= b ==> CountBelow(sorted, b) < target
  {
    hide BucketOf, CountBelow;
    var q := sorted[target - 1];
    if BucketOf(q) < b {
      var head, rest := sorted[..target], sorted[target..];
      forall k | 0 <= k < target ensures BucketOf(head[k]) < b {
        BucketOrder(head[k], q);
      }
      AllBelow(head, b);
      CountBelowConcat(head, rest, b);
      assert sorted == head + rest;
    } else {
      var head, rest := sorted[..target - 1], sorted[target - 1..];
      forall k | 0 <= k < |rest| ensures BucketOf(rest[k]) >= b {
        BucketOrder(q, rest[k]);
      }
      NoneBelow(rest, b);
      CountBelowConcat(head, rest, b);
      assert sorted == head + rest;
      CountAtMost(head, b);
    }
  }

  lemma CountAtMost(s: seq<nat>, i: nat)
    ensures CountBelow(s, i) <= |s|
  {
  }

  /** Two numbers of a report are exact. */
  lemma {:induction false} CountAndMaximum(samples: seq<nat>)
    ensures Report(samples).count == |samples|
    ensures if samples == [] then Report(samples) == Snapshot(0, 0, 0, 0, 0, 0) else Report(samples).max in samples
    ensures forall v :: v in samples ==> v <= Report(samples).max
  {
    hide Search, Counts;
    if samples != [] {
      CountAndMaximum(samples[1..]);
      assert samples == [samples[0]] + samples[1..];
    }
  }

  /** The element of rank target sits in the bucket whose cumulative count reaches target. */
  lemma RankedSampleBucket(samples: seq<nat>, sorted: seq<nat>, target: nat, b: nat)
    requires Sorted(sorted) && multiset(sorted) == multiset(samples)
    requires 1 <= target <= |sorted|
    requires CountBelow(samples, b) < target <= CountBelow(samples, b + 1)
    ensures BucketOf(sorted[target - 1]) == b
  {
    hide BucketOf, CountBelow;
    CountBelowPermutes(samples, sorted, b);
    CountBelowPermutes(samples, sorted, b + 1);
    RankBelow(sorted, target, b);
    RankBelow(sorted, target, b + 1);
  }

  /** The reported value e for the exact nearest-rank percentile q. */
  predicate Brackets(e: nat, q: nat) {
    && (q == 0 ==> e == 2)
    && (q >= 1 && BucketOf(q) < BUCKETS - 1 ==> q < e <= 2 * q)
    && (BucketOf(q) >= BUCKETS - 1 ==> e == U64 - 1)
  }

  /**
   For any samples, in any order: the estimate brackets the exact nearest-rank
   percentile from above within a factor of two, and the search never falls through.
   */
  lemma {:induction false} EstimateBracketsRank(samples: seq<nat>, sorted: seq<nat>, target: nat)
    requires forall i :: 0 <= i < |samples| ==> samples[i] < U64
    requires Sorted(sorted) && multiset(sorted) == multiset(samples)
    requires 1 <= target <= |samples|
    ensures |sorted| == |samples|
    ensures Brackets(Search(Counts(samples), 0, 0, target), sorted[target - 1])
  {
    hide Counts, CountBelow;
    assert |multiset(sorted)| == |multiset(samples)|;
    SumOfCounts(samples);
    var b := SearchFinds(Counts(samples), 0, target);
    SumIsCountBelow(samples, b);
    SumIsCountBelow(samples, b + 1);
    RankedSampleBucket(samples, sorted, target, b);
    var q := sorted[target - 1];
    assert Pow2(b + 1) == 2 * Pow2(b) && Pow2(1) == 2;
  }

  /** Below the wrap-around the targets are ceilings, hence ranks between 1 and the total. */
  lemma {:induction false} TargetsAreCeilings(total: nat)
    requires 0 < total && total * 999 + 999 < U64
    ensures forall p :: 0 < p <= 100 ==>
              100 * (PercentTarget(total, p) - 1) < total * p <= 100 * PercentTarget(total, p)
    ensures 1000 * (PermilleTarget(total, 999) - 1) < total * 999 <= 1000 * PermilleTarget(total, 999)
  {
    forall p | 0 < p <= 100
      ensures 100 * (PercentTarget(total, p) - 1) < total * p <= 100 * PercentTarget(total, p)
    {
      assert total * p <= total * 999;
      CeilingBy100(total * p);
    }
  }

  lemma CeilingBy100(x: nat)
    requires x + 99 < U64
    ensures 100 * ((x + 99) % U64 / 100 - 1) < x <= 100 * ((x + 99) % U64 / 100)
  {
  }

  /** The targets are ceilings exactly as long as the sum before the division fits 64 bits. */
  lemma {:induction false} TargetsFitExactlyWhen(total: nat, p: nat)
    ensures 100 * (PercentTarget(total, p) - 1) < total * p <= 100 * PercentTarget(total, p)
       <==> total * p + 99 < U64
    ensures 1000 * (PermilleTarget(total, p) - 1) < total * p <= 1000 * PermilleTarget(total, p)
       <==> total * p + 999 < U64
  {
    CeilingFits(total * p);
  }

  lemma CeilingFits(x: nat)
    ensures 100 * ((x + 99) % U64 / 100 - 1) < x <= 100 * ((x + 99) % U64 / 100) <==> x + 99 < U64
    ensures 1000 * ((x + 999) % U64 / 1000 - 1) < x <= 1000 * ((x + 999) % U64 / 1000) <==> x + 999 < U64
  {
  }

  ghost predicate Exact(samples: seq<nat>, sorted: seq<nat>) {
    && (forall i :: 0 <= i < |samples| ==> samples[i] < U64)
    && Sorted(sorted) && multiset(sorted) == multiset(samples)
    && 0 < |samples| && |samples| * 999 + 999 < U64
  }

  /**
   Every percentile of a report brackets the exact nearest-rank percentile of the sorted
   samples, and the four never cross.
   */
  lemma {:induction false} ReportIsAccurate(samples: seq<nat>, sorted: seq<nat>)
    requires Exact(samples, sorted)
    ensures var n := |samples|;
      && |sorted| == n
      && 1 <= PercentTarget(n, 50) <= PercentTarget(n, 95) <= PercentTarget(n, 99) <= PermilleTarget(n, 999) <= n
      && Brackets(Report(samples).p50, sorted[PercentTarget(n, 50) - 1])
      && Brackets(Report(samples).p95, sorted[PercentTarget(n, 95) - 1])
      && Brackets(Report(samples).p99, sorted[PercentTarget(n, 99) - 1])
      && Brackets(Report(samples).p999, sorted[PermilleTarget(n, 999) - 1])
      && Report(samples).p50 <= Report(samples).p95 <= Report(samples).p99 <= Report(samples).p999
  {
    hide Search, PercentTarget, PermilleTarget, Brackets, Counts, Maximum;
    var n := |samples|;
    TargetsAreCeilings(n);
    EstimateBracketsRank(samples, sorted, PercentTarget(n, 50));
    EstimateBracketsRank(samples, sorted, PercentTarget(n, 95));
    EstimateBracketsRank(samples, sorted, PercentTarget(n, 99));
    EstimateBracketsRank(samples, sorted, PermilleTarget(n, 999));
    SumOfCounts(samples);
    SearchAscends(Counts(samples), 0, 0, PercentTarget(n, 50), PercentTarget(n, 95));
    SearchAscends(Counts(samples), 0, 0, PercentTarget(n, 95), PercentTarget(n, 99));
    SearchAscends(Counts(samples), 0, 0, PercentTarget(n, 99), PermilleTarget(n, 999));
  }

  lemma UpperBoundAscends(i: nat, j: nat)
    requires i <= j
    ensures UpperBound(i) <= UpperBound(j)
  {
    Pow2SixtyFour();
    if i < BUCKETS - 1 {
      if j < BUCKETS - 1 && i < j {
        Pow2Ascends(i + 1, j + 1);
      }
      Pow2Ascends(i + 1, BUCKETS);
    }
  }

  lemma {:induction false} SearchAscends(counts: seq<nat>, i: nat, cumulative: nat, s: nat, t: nat)
    requires i <= |counts| && s <= t && cumulative == Sum(counts, i) && cumulative < s
    requires t <= Sum(counts, |counts|)
    ensures Search(counts, i, cumulative, s) <= Search(counts, i, cumulative, t)
    decreases |counts| - i
  {
    hide UpperBound;
    if i < |counts| {
      if Sum(counts, i + 1) < s {
        SearchAscends(counts, i + 1, Sum(counts, i + 1), s, t);
      } else {
        var b := SearchFinds(counts, i, t);
        UpperBoundAscends(i, b);
      }
    }
  }
}
