/** Durations counted in exponential buckets, and percentiles read off the counts
    (tondb-scanner/src/Statistics.h, tondb-scanner/src/Statistics.cpp). */
module Histograms {

  // ---- Bucket limits ----

  const MAX_VALUE := 18446744073709551616.0

  // How often a value can grow by half without passing the maximum.
  function Growths(val: real): nat
    requires val >= 2.0
    decreases if val <= MAX_VALUE then (MAX_VALUE - val).Floor + 1 else 0
  {
    var next := 1.5 * val;
    if next <= MAX_VALUE then 1 + Growths(next) else 0
  }

  // Two, grown by half `k` times.
  function Grown(k: nat): (r: real)
    ensures r >= 2.0
  {
    if k == 0 then 2.0 else 1.5 * Grown(k - 1)
  }

  // `Growths` counts up to the last value within the maximum.
  lemma {:induction false} GrowthsAreMaximal(k: nat)
    requires Grown(k) <= MAX_VALUE
    ensures Grown(k + Growths(Grown(k))) <= MAX_VALUE < 1.5 * Grown(k + Growths(Grown(k)))
    decreases if Grown(k) <= MAX_VALUE then (MAX_VALUE - Grown(k)).Floor + 1 else 0
  {
    var val := Grown(k);
    if 1.5 * val <= MAX_VALUE {
      assert Grown(k + 1) == 1.5 * val >= val + 1.0;
      GrowthsAreMaximal(k + 1);
      assert k + Growths(val) == (k + 1) + Growths(1.5 * val);
    }
  }

  /** The limits are 1 and the values 2 grown by half, up to the last one within the maximum. */
  method BucketCount() returns (count: nat)
    ensures count == 2 + Growths(2.0)
    ensures Grown(count - 2) <= MAX_VALUE < 1.5 * Grown(count - 2)
  {
    assert Grown(0) == 2.0;
    GrowthsAreMaximal(0);
    hide Grown;
    count := 2;
    var val := 1.5 * 2.0;
    ghost var last := 2.0;
    while val <= MAX_VALUE
      invariant last >= 2.0 && val == 1.5 * last
      invariant count + Growths(last) == 2 + Growths(2.0)
      decreases if val <= MAX_VALUE then (MAX_VALUE - val).Floor + 1 else 0
    {
      count := count + 1;
      last := val;
      val := 1.5 * val;
    }
  }

  // Buckets are cut at strictly growing limits.
  predicate Limits(limits: seq<nat>) {
    limits != [] && forall i, j :: 0 <= i < j < |limits| ==> limits[i] < limits[j]
  }

  lemma GrowthStep(val: real, k: nat)
    requires val == Grown(k) && 1.5 * val <= MAX_VALUE
    ensures Grown(k + 1) == 1.5 * val && Growths(val) == 1 + Growths(1.5 * val)
    ensures val.Floor < (1.5 * val).Floor
  {
    assert 1.5 * val >= val + 1.0;
  }

  lemma LimitsSnoc(limits: seq<nat>, limit: nat)
    requires Limits(limits) && limits[|limits| - 1] < limit
    ensures Limits(limits + [limit])
  {
  }

  /** As many limits as counted, each above the one before: 1, 2, then by half more, rounded down. */
  method BucketValues() returns (limits: seq<nat>)
    ensures Limits(limits) && |limits| == 2 + Growths(2.0)
    ensures limits[0] == 1 && forall i :: 1 <= i < |limits| ==> limits[i] == Grown(i - 1).Floor
  {
    assert Limits([1, 2]);
    assert Grown(0) == 2.0;
    hide Limits, Growths, Grown;
    limits := [1, 2];
    var val := 1.5 * 2.0;
    ghost var last := 2.0;
    while val <= MAX_VALUE
      invariant |limits| >= 2 && last == Grown(|limits| - 2) && val == 1.5 * last
      invariant Limits(limits) && limits[0] == 1
      invariant forall i :: 1 <= i < |limits| ==> limits[i] == Grown(i - 1).Floor
      invariant |limits| + Growths(last) == 2 + Growths(2.0)
      decreases if val <= MAX_VALUE then (MAX_VALUE - val).Floor + 1 else 0
    {
      assert limits[|limits| - 1] == last.Floor;
      GrowthStep(last, |limits| - 2);
      LimitsSnoc(limits, val.Floor);
      limits := limits + [val.Floor];
      last := val;
      val := 1.5 * val;
    }
  }

  // The first limit not below the value; the last bucket takes the rest.
  function IndexForValue(limits: seq<nat>, v: nat): (i: nat)
    requires Limits(limits)
    ensures i < |limits|
    ensures forall j :: 0 <= j < i ==> limits[j] < v
    ensures v <= limits[i] || i == |limits| - 1
  {
    if v >= limits[|limits| - 1] then |limits| - 1 else LowerBound(limits, v, 0)
  }

  function LowerBound(limits: seq<nat>, v: nat, from: nat): (i: nat)
    requires Limits(limits) && from < |limits| && v < limits[|limits| - 1]
    requires forall j :: 0 <= j < from ==> limits[j] < v
    ensures from <= i < |limits| && v <= limits[i]
    ensures forall j :: 0 <= j < i ==> limits[j] < v
    decreases |limits| - from
  {
    if limits[from] < v then LowerBound(limits, v, from + 1) else from
  }

  lemma IndexMonotone(limits: seq<nat>, v: nat, w: nat)
    requires Limits(limits) && v <= w
    ensures IndexForValue(limits, v) <= IndexForValue(limits, w)
  {
    var i, j := IndexForValue(limits, v), IndexForValue(limits, w);
    assert w <= limits[j] || j == |limits| - 1;
  }

  // ---- Samples and what is kept of them ----

  // `count` events of the same duration.
  datatype Sample = Sample(duration: nat, count: nat)

  function Events(samples: seq<Sample>, from: nat -> bool): nat {
    if samples == [] then 0
    else
      var last := samples[|samples| - 1];
      Events(samples[..|samples| - 1], from) + if from(last.duration) then last.count else 0
  }

  lemma {:induction false} EventsAppend(a: seq<Sample>, b: seq<Sample>, from: nat -> bool)
    ensures Events(a + b, from) == Events(a, from) + Events(b, from)
    decreases |b|
  {
    if b == [] {
      assert a + b == a;
    } else {
      assert (a + b)[..|a + b| - 1] == a + b[..|b| - 1];
      EventsAppend(a, b[..|b| - 1], from);
    }
  }

  lemma {:induction false} EventsFewer(samples: seq<Sample>, p: nat -> bool, q: nat -> bool)
    requires forall v :: p(v) ==> q(v)
    ensures Events(samples, p) <= Events(samples, q)
  {
    if samples != [] {
      EventsFewer(samples[..|samples| - 1], p, q);
    }
  }

  lemma {:induction false} EventsSplit(samples: seq<Sample>, p: nat -> bool, q: nat -> bool, either: nat -> bool)
    requires forall v :: either(v) <==> p(v) || q(v)
    requires forall v :: !(p(v) && q(v))
    ensures Events(samples, either) == Events(samples, p) + Events(samples, q)
  {
    if samples != [] {
      EventsSplit(samples[..|samples| - 1], p, q, either);
    }
  }

  // The single events, each with its duration.
  function Values(samples: seq<Sample>): seq<nat> {
    if samples == [] then []
    else
      var last := samples[|samples| - 1];
      Values(samples[..|samples| - 1]) + Repeat(last.duration, last.count)
  }

  function Hits(values: seq<nat>, from: nat -> bool): set<nat> {
    set i: nat | i < |values| && from(values[i])
  }

  function Repeat(d: nat, n: nat): seq<nat> {
    if n == 0 then [] else Repeat(d, n - 1) + [d]
  }

  lemma HitsSnoc(values: seq<nat>, v: nat, from: nat -> bool)
    ensures |Hits(values + [v], from)| == |Hits(values, from)| + if from(v) then 1 else 0
  {
    var more := values + [v];
    assert forall i :: 0 <= i < |values| ==> more[i] == values[i];
    assert Hits(more, from) == Hits(values, from) + (if from(v) then {|values|} else {});
  }

  lemma {:induction false} HitsRepeat(values: seq<nat>, d: nat, n: nat, from: nat -> bool)
    ensures |Hits(values + Repeat(d, n), from)| == |Hits(values, from)| + if from(d) then n else 0
    decreases n
  {
    hide Hits;
    if n == 0 {
      assert values + Repeat(d, n) == values;
    } else {
      HitsRepeat(values, d, n - 1, from);
      HitsSnoc(values + Repeat(d, n - 1), d, from);
      assert values + Repeat(d, n) == (values + Repeat(d, n - 1)) + [d];
    }
  }

  /** `Events` counts the single events that are concerned. */
  lemma {:induction false} EventsAreHits(samples: seq<Sample>, from: nat -> bool)
    ensures Events(samples, from) == |Hits(Values(samples), from)|
  {
    if samples == [] {
      assert Hits(Values(samples), from) == {};
    } else {
      var n := |samples| - 1;
      hide Hits;
      EventsAreHits(samples[..n], from);
      HitsRepeat(Values(samples[..n]), samples[n].duration, samples[n].count, from);
    }
  }

  function Longest(samples: seq<Sample>): (m: nat)
    ensures forall i :: 0 <= i < |samples| ==> samples[i].duration <= m
    ensures m == 0 || exists i :: 0 <= i < |samples| && samples[i].duration == m
  {
    if samples == [] then 0
    else
      var rest, last := Longest(samples[..|samples| - 1]), samples[|samples| - 1].duration;
      if last > rest then last else rest
  }

  function Durations(samples: seq<Sample>): nat {
    if samples == [] then 0 else Durations(samples[..|samples| - 1]) + samples[|samples| - 1].duration
  }

  function InBucket(limits: seq<nat>, i: nat): nat -> bool
    requires Limits(limits)
  {
    (v: nat) => IndexForValue(limits, v) == i
  }

  function Any(): nat -> bool {
    (v: nat) => true
  }

  function Greater(current: nat, value: nat): nat {
    if value > current then value else current
  }

  function Lesser(current: nat, value: nat): nat {
    if value < current then value else current
  }

  class Histogram {
    const limits: seq<nat>
    const buckets: array<nat>
    var count: nat
    var sum: nat
    var min: nat
    var max: nat

    // The counters are those of the samples.
    ghost predicate Shows(samples: seq<Sample>)
      reads this, buckets
    {
      && Limits(limits) && buckets.Length == |limits|
      && count == Events(samples, Any()) && sum == Durations(samples)
      && min == 0 && max == Longest(samples)
      && forall i :: 0 <= i < |limits| ==> buckets[i] == Events(samples, InBucket(limits, i))
    }

    constructor (limits: seq<nat>)
      requires Limits(limits)
      ensures Shows([]) && this.limits == limits && fresh(buckets)
    {
      this.limits := limits;
      buckets := new nat[|limits|](_ => 0);
      count, sum, min, max := 0, 0, 0, 0;
    }

    /** One more sample. */
    method Add(duration: nat, n: nat, ghost samples: seq<Sample>)
      requires Shows(samples)
      modifies this, buckets
      ensures Shows(samples + [Sample(duration, n)])
      ensures count == old(count) + n && sum == old(sum) + duration
    {
      ghost var all := samples + [Sample(duration, n)];
      assert all[..|samples|] == samples;
      count := count + n;
      sum := sum + duration;
      max := Greater(max, duration);
      var index := IndexForValue(limits, duration);
      buckets[index] := buckets[index] + n;
    }

    // Bucket by bucket; `other` may be this histogram itself.
    method MergeBuckets(other: Histogram, ghost samples: seq<Sample>, ghost others: seq<Sample>)
      requires Limits(limits) && other.limits == limits && buckets.Length == other.buckets.Length == |limits|
      requires forall i :: 0 <= i < |limits| ==> buckets[i] == Events(samples, InBucket(limits, i))
      requires forall i :: 0 <= i < |limits| ==> other.buckets[i] == Events(others, InBucket(limits, i))
      modifies buckets
      ensures forall i :: 0 <= i < |limits| ==> buckets[i] == Events(samples + others, InBucket(limits, i))
    {
      hide Events, InBucket;
      for i := 0 to buckets.Length
        invariant forall j :: 0 <= j < i ==> buckets[j] == Events(samples + others, InBucket(limits, j))
        invariant forall j :: i <= j < |limits| ==> buckets[j] == Events(samples, InBucket(limits, j))
        invariant forall j :: i <= j < |limits| ==> other.buckets[j] == Events(others, InBucket(limits, j))
      {
        EventsAppend(samples, others, InBucket(limits, i));
        buckets[i] := buckets[i] + other.buckets[i];
      }
    }

    /** The histogram of both lists of samples. */
    method Merge(other: Histogram, ghost samples: seq<Sample>, ghost others: seq<Sample>)
      requires Shows(samples) && other.Shows(others) && other.limits == limits
      requires other.buckets == buckets ==> other == this
      modifies this, buckets
      ensures Shows(samples + others)
      ensures other != this ==> other.Shows(others)
    {
      hide Events, Longest, Durations, InBucket;
      EventsAppend(samples, others, Any());
      MergedExtremes(samples, others);
      count := count + other.count;
      sum := sum + other.sum;
      max := Greater(max, other.max);
      min := Lesser(min, other.min);
      MergeBuckets(other, samples, others);
    }

    // The search for the bucket in which the running count reaches the threshold.
    method FindBucket(threshold: real, ghost samples: seq<Sample>) returns (idx: nat, accumulated: nat)
      requires Shows(samples)
      ensures idx == Stop(limits, samples, threshold, 0)
      ensures accumulated == Upto(limits, samples, idx)
    {
      UptoAll(limits, samples);
      hide Events, Upto, InBucket, Durations;
      idx, accumulated := 0, 0;
      while idx < buckets.Length
        invariant idx <= |limits| && accumulated == Upto(limits, samples, idx)
        invariant Stop(limits, samples, threshold, idx) == Stop(limits, samples, threshold, 0)
      {
        UptoStep(limits, samples, idx);
        if (accumulated + buckets[idx]) as real >= threshold {
          break;
        }
        accumulated := accumulated + buckets[idx];
        idx := idx + 1;
      }
    }

    /** Percentiles above 100 of a histogram with events read past the buckets. */
    method ComputePercentile(p: real, ghost samples: seq<Sample>) returns (r: real)
      requires Shows(samples)
      requires Events(samples, Any()) == 0 || p <= 100.0
      ensures r == Percentile(limits, samples, p)
    {
      hide Events, Upto, InBucket, Durations, Stop, Longest;
      var total := count;
      if total == 0 {
        return 0.0;
      }
      var threshold := total as real * (p / 100.0);
      assert threshold == Threshold(samples, p);
      var idx, accumulated := FindBucket(threshold, samples);
      InBoundsIff(limits, samples, p);
      hide Threshold;
      var lower, upper := 0, 0;
      if idx == 0 {
        upper := limits[0];
      } else {
        lower := limits[idx - 1] + 1;
        upper := limits[idx];
      }
      if upper > max {
        upper := max;
      }
      var within := buckets[idx];
      if within == 0 {
        return upper as real;
      }
      LowerUpTo(limits, samples, idx);
      var width: nat := upper - lower;
      var fraction := (threshold - accumulated as real) / within as real;
      r := lower as real + fraction * width as real;
      assert fraction * width as real == Share(threshold - accumulated as real, within as real, width as real);
    }

    method Reset()
      requires exists samples :: Shows(samples)
      modifies this, buckets
      ensures Shows([])
    {
      count, sum, max, min := 0, 0, 0, 0;
      for i := 0 to buckets.Length
        invariant count == sum == max == min == 0
        invariant forall j :: 0 <= j < i ==> buckets[j] == 0
      {
        buckets[i] := 0;
      }
    }
  }

  lemma {:induction false} MergedExtremes(a: seq<Sample>, b: seq<Sample>)
    ensures Durations(a + b) == Durations(a) + Durations(b)
    ensures Longest(a + b) == if Longest(b) > Longest(a) then Longest(b) else Longest(a)
    decreases |b|
  {
    if b == [] {
      assert a + b == a;
    } else {
      assert (a + b)[..|a + b| - 1] == a + b[..|b| - 1];
      MergedExtremes(a, b[..|b| - 1]);
    }
  }

  // ---- Events up to a bucket ----

  function Below(limits: seq<nat>, i: nat): nat -> bool
    requires Limits(limits)
  {
    (v: nat) => IndexForValue(limits, v) < i
  }

  // The events in the buckets before bucket `i`.
  function Upto(limits: seq<nat>, samples: seq<Sample>, i: nat): nat
    requires Limits(limits)
  {
    Events(samples, Below(limits, i))
  }

  function InOne(limits: seq<nat>, samples: seq<Sample>, i: nat): nat
    requires Limits(limits)
  {
    Events(samples, InBucket(limits, i))
  }

  lemma UptoStep(limits: seq<nat>, samples: seq<Sample>, i: nat)
    requires Limits(limits)
    ensures Upto(limits, samples, i + 1) == Upto(limits, samples, i) + InOne(limits, samples, i)
  {
    EventsSplit(samples, Below(limits, i), InBucket(limits, i), Below(limits, i + 1));
  }

  lemma {:induction false} EventsNone(samples: seq<Sample>, p: nat -> bool)
    requires forall v :: !p(v)
    ensures Events(samples, p) == 0
  {
    if samples != [] {
      EventsNone(samples[..|samples| - 1], p);
    }
  }

  /** The buckets together hold every event. */
  lemma UptoAll(limits: seq<nat>, samples: seq<Sample>)
    requires Limits(limits)
    ensures Upto(limits, samples, 0) == 0
    ensures Upto(limits, samples, |limits|) == Events(samples, Any())
  {
    EventsNone(samples, Below(limits, 0));
    EventsFewer(samples, Below(limits, |limits|), Any());
    EventsFewer(samples, Any(), Below(limits, |limits|));
  }

  // ---- The percentile ----

  // The first bucket from `i` on with which the running count reaches `t`; none if it never does.
  function Stop(limits: seq<nat>, samples: seq<Sample>, t: real, i: nat): (k: nat)
    requires Limits(limits) && i <= |limits|
    ensures i <= k <= |limits|
    ensures k < |limits| ==> t <= Upto(limits, samples, k + 1) as real
    ensures forall j :: i < j <= k ==> Upto(limits, samples, j) as real < t
    decreases |limits| - i
  {
    if i == |limits| || Upto(limits, samples, i + 1) as real >= t then i else Stop(limits, samples, t, i + 1)
  }

  function Threshold(samples: seq<Sample>, p: real): real {
    Percent(Events(samples, Any()) as real, p)
  }

  function Percent(total: real, p: real): real {
    total * (p / 100.0)
  }

  function Lower(limits: seq<nat>, k: nat): nat
    requires k < |limits|
  {
    if k == 0 then 0 else limits[k - 1] + 1
  }

  function Upper(limits: seq<nat>, samples: seq<Sample>, k: nat): nat
    requires k < |limits|
  {
    if limits[k] > Longest(samples) then Longest(samples) else limits[k]
  }

  function Interpolate(lower: nat, upper: nat, t: real, before: nat, within: nat): real {
    if within == 0 then upper as real
    else lower as real + Share(t - before as real, within as real, (upper - lower) as real)
  }

  // The part of a width that `x` out of `n` takes.
  function Share(x: real, n: real, width: real): real
    requires n != 0.0
  {
    x / n * width
  }

  function Percentile(limits: seq<nat>, samples: seq<Sample>, p: real): real
    requires Limits(limits)
  {
    var t := Threshold(samples, p);
    var k := Stop(limits, samples, t, 0);
    if Events(samples, Any()) == 0 || k == |limits| then 0.0
    else Interpolate(Lower(limits, k), Upper(limits, samples, k), t, Upto(limits, samples, k), InOne(limits, samples, k))
  }

  /** The search ends inside the array exactly for percentiles up to 100. */
  lemma InBoundsIff(limits: seq<nat>, samples: seq<Sample>, p: real)
    requires Limits(limits) && Events(samples, Any()) > 0
    ensures Stop(limits, samples, Threshold(samples, p), 0) < |limits| <==> p <= 100.0
  {
    hide Stop, Events, Threshold, Upto, Limits;
    ThresholdIff(samples, p);
    var k := Stop(limits, samples, Threshold(samples, p), 0);
    UptoAll(limits, samples);
    assert |limits| > 0 by {
      LimitsExist(limits);
    }
    if k < |limits| {
      UptoAtMost(limits, samples, k + 1);
    }
  }

  lemma UptoAtMost(limits: seq<nat>, samples: seq<Sample>, i: nat)
    requires Limits(limits)
    ensures Upto(limits, samples, i) <= Events(samples, Any())
  {
    EventsFewer(samples, Below(limits, i), Any());
  }

  lemma LimitsExist(limits: seq<nat>)
    requires Limits(limits)
    ensures |limits| > 0
  {}

  lemma ThresholdIff(samples: seq<Sample>, p: real)
    requires Events(samples, Any()) > 0
    ensures Threshold(samples, p) <= Events(samples, Any()) as real <==> p <= 100.0
    ensures Threshold(samples, p) > 0.0 <==> p > 0.0
  {
    hide Events, Percent;
    PercentRange(Events(samples, Any()) as real, p);
  }

  lemma PercentRange(total: real, p: real)
    requires total > 0.0
    ensures Percent(total, p) <= total <==> p <= 100.0
    ensures Percent(total, p) > 0.0 <==> p > 0.0
  {
    var f := p / 100.0;
    assert f <= 1.0 <==> p <= 100.0;
    assert f > 0.0 <==> p > 0.0;
    FactorRange(total, f);
  }

  lemma FactorRange(total: real, f: real)
    requires total > 0.0
    ensures total * f <= total <==> f <= 1.0
    ensures total * f > 0.0 <==> f > 0.0
    ensures total * f >= 0.0 <==> f >= 0.0
  {
    if f > 1.0 {
      assert total * (f - 1.0) > 0.0;
    } else {
      assert total * (1.0 - f) >= 0.0;
    }
    if f > 0.0 {
      assert total * f > 0.0;
    } else {
      assert total * (0.0 - f) >= 0.0;
    }
  }

  // A bucket that holds events lies below the maximum, so its range is not empty.
  lemma {:induction false} HeldIsReached(limits: seq<nat>, samples: seq<Sample>, k: nat)
    requires Limits(limits) && k < |limits| && InOne(limits, samples, k) > 0
    ensures Lower(limits, k) <= Longest(samples)
  {
    var last := samples[|samples| - 1];
    if InBucket(limits, k)(last.duration) {
      assert k > 0 ==> limits[k - 1] < last.duration;
    } else {
      HeldIsReached(limits, samples[..|samples| - 1], k);
    }
  }

  lemma LowerUpTo(limits: seq<nat>, samples: seq<Sample>, k: nat)
    requires Limits(limits) && k < |limits| && InOne(limits, samples, k) > 0
    ensures Lower(limits, k) <= Upper(limits, samples, k)
  {
    HeldIsReached(limits, samples, k);
  }

  // The bucket that the search finds, for a percentile in range.
  ghost predicate Found(limits: seq<nat>, samples: seq<Sample>, t: real, k: nat)
    requires Limits(limits)
  {
    && k < |limits| && t <= Upto(limits, samples, k + 1) as real
    && (k > 0 ==> Upto(limits, samples, k) as real < t)
  }

  lemma StopFound(limits: seq<nat>, samples: seq<Sample>, p: real) returns (k: nat)
    requires Limits(limits) && Events(samples, Any()) > 0 && p <= 100.0
    ensures Found(limits, samples, Threshold(samples, p), k)
    ensures Percentile(limits, samples, p) ==
            Interpolate(Lower(limits, k), Upper(limits, samples, k), Threshold(samples, p),
                        Upto(limits, samples, k), InOne(limits, samples, k))
  {
    hide Events, Upto, Threshold, Interpolate, InOne;
    InBoundsIff(limits, samples, p);
    k := Stop(limits, samples, Threshold(samples, p), 0);
  }

  lemma InterpolateRange(lower: nat, upper: nat, t: real, before: nat, within: nat)
    requires lower <= upper && before as real <= t <= (before + within) as real
    ensures within > 0 ==> lower as real <= Interpolate(lower, upper, t, before, within)
    ensures Interpolate(lower, upper, t, before, within) <= upper as real
  {
    if within > 0 {
      var x, n, w := t - before as real, within as real, (upper - lower) as real;
      assert w == upper as real - lower as real;
      hide Share;
      ShareRange(x, n, w);
    }
  }

  lemma ShareRange(x: real, n: real, w: real)
    requires 0.0 <= x <= n && n > 0.0 && w >= 0.0
    ensures 0.0 <= Share(x, n, w) <= w
  {
    var f := x / n;
    assert n * f == x;
    FactorRange(n, f);
    Scaled(f, w);
  }

  lemma Scaled(f: real, w: real)
    requires 0.0 <= f <= 1.0 && w >= 0.0
    ensures 0.0 <= f * w <= w
  {
    assert (1.0 - f) * w >= 0.0;
  }

  lemma UptoGrows(limits: seq<nat>, samples: seq<Sample>, i: nat, j: nat)
    requires Limits(limits) && i <= j
    ensures Upto(limits, samples, i) <= Upto(limits, samples, j)
  {
    EventsFewer(samples, Below(limits, i), Below(limits, j));
  }

  // The value lies in the range of the bucket found.
  lemma ValueInBucket(limits: seq<nat>, samples: seq<Sample>, t: real, k: nat, r: real)
    requires Limits(limits) && Found(limits, samples, t, k) && t >= 0.0
    requires r == Interpolate(Lower(limits, k), Upper(limits, samples, k), t, Upto(limits, samples, k), InOne(limits, samples, k))
    ensures t > 0.0 ==> InOne(limits, samples, k) > 0
    ensures InOne(limits, samples, k) > 0 ==> Lower(limits, k) as real <= r
    ensures r <= Upper(limits, samples, k) as real
  {
    UptoStep(limits, samples, k);
    UptoAll(limits, samples);
    if InOne(limits, samples, k) > 0 {
      LowerUpTo(limits, samples, k);
      hide Upto, InOne, Interpolate, Upper, Lower;
      InterpolateRange(Lower(limits, k), Upper(limits, samples, k), t, Upto(limits, samples, k), InOne(limits, samples, k));
    }
  }

  /** A percentile never exceeds the longest duration. */
  lemma PercentileAtMostMax(limits: seq<nat>, samples: seq<Sample>, p: real)
    requires Limits(limits) && 0.0 <= p <= 100.0
    ensures 0.0 <= Percentile(limits, samples, p) <= Longest(samples) as real
  {
    hide Events, Upto, InOne, Interpolate, Threshold, Longest;
    if Events(samples, Any()) > 0 {
      ThresholdIff(samples, p);
      ThresholdSign(samples, p);
      var k := StopFound(limits, samples, p);
      hide Percentile;
      ValueInBucket(limits, samples, Threshold(samples, p), k, Percentile(limits, samples, p));
      if InOne(limits, samples, k) == 0 {
        EmptyBucketValue(limits, samples, Threshold(samples, p), k);
      }
    }
  }

  lemma EmptyBucketValue(limits: seq<nat>, samples: seq<Sample>, t: real, k: nat)
    requires Limits(limits) && k < |limits| && InOne(limits, samples, k) == 0
    ensures Interpolate(Lower(limits, k), Upper(limits, samples, k), t, Upto(limits, samples, k), InOne(limits, samples, k)) ==
            Upper(limits, samples, k) as real
  {}

  lemma ThresholdSign(samples: seq<Sample>, p: real)
    requires p >= 0.0
    ensures Threshold(samples, p) >= 0.0
  {
    hide Events;
    var n := Events(samples, Any()) as real;
    assert n * (p / 100.0) >= 0.0;
  }

  lemma ThresholdMonotone(samples: seq<Sample>, p: real, q: real)
    requires p <= q
    ensures Threshold(samples, p) <= Threshold(samples, q)
  {
    hide Events;
    var n, d := Events(samples, Any()) as real, q / 100.0 - p / 100.0;
    assert n * d >= 0.0;
  }

  lemma FoundMonotone(limits: seq<nat>, samples: seq<Sample>, t: real, u: real, k: nat, l: nat)
    requires Limits(limits) && t <= u && Found(limits, samples, t, k) && Found(limits, samples, u, l)
    ensures k <= l
  {
    hide Upto;
    if l < k {
      UptoGrows(limits, samples, l + 1, k);
    }
  }

  lemma InterpolateMonotone(lower: nat, upper: nat, t: real, u: real, before: nat, within: nat)
    requires t <= u && (within > 0 ==> lower <= upper)
    ensures Interpolate(lower, upper, t, before, within) <= Interpolate(lower, upper, u, before, within)
  {
    if within > 0 {
      var x, y, n, w := t - before as real, u - before as real, within as real, (upper - lower) as real;
      hide Share;
      ShareMonotone(x, y, n, w);
    }
  }

  lemma ShareMonotone(x: real, y: real, n: real, w: real)
    requires x <= y && n > 0.0 && w >= 0.0
    ensures Share(x, n, w) <= Share(y, n, w)
  {
    var f, g := x / n, y / n;
    assert n * (g - f) == y - x;
    FactorRange(n, g - f);
    ScaledMonotone(f, g, w);
  }

  lemma ScaledMonotone(f: real, g: real, w: real)
    requires f <= g && w >= 0.0
    ensures f * w <= g * w
  {
    assert (g - f) * w >= 0.0;
  }

  /** Percentiles grow with the percentage. */
  lemma PercentileMonotone(limits: seq<nat>, samples: seq<Sample>, p: real, q: real)
    requires Limits(limits) && 0.0 <= p <= q <= 100.0
    ensures Percentile(limits, samples, p) <= Percentile(limits, samples, q)
  {
    hide Events, Upto, InOne, Interpolate, Threshold, Longest;
    if Events(samples, Any()) > 0 {
      var t, u := Threshold(samples, p), Threshold(samples, q);
      var k := StopFound(limits, samples, p);
      var l := StopFound(limits, samples, q);
      hide Percentile;
      ThresholdSign(samples, p);
      ThresholdMonotone(samples, p, q);
      FoundMonotone(limits, samples, t, u, k, l);
      ValueInBucket(limits, samples, t, k, Percentile(limits, samples, p));
      ValueInBucket(limits, samples, u, l, Percentile(limits, samples, q));
      if k == l {
        if InOne(limits, samples, k) > 0 {
          LowerUpTo(limits, samples, k);
        }
        InterpolateMonotone(Lower(limits, k), Upper(limits, samples, k), t, u, Upto(limits, samples, k), InOne(limits, samples, k));
      } else {
        LaterIsPositive(limits, samples, u, l);
        assert limits[k] <= limits[l - 1];
      }
    }
  }

  lemma LaterIsPositive(limits: seq<nat>, samples: seq<Sample>, u: real, l: nat)
    requires Limits(limits) && l > 0 && Found(limits, samples, u, l)
    ensures u > 0.0
  {}

  // ---- The order statistic ----

  function Under(v: nat): nat -> bool {
    (w: nat) => w < v
  }

  // `v` is the duration at which the sorted events reach the count `t`.
  ghost predicate OrderStatistic(samples: seq<Sample>, t: real, v: nat) {
    Events(samples, Under(v)) as real < t <= Events(samples, Under(v + 1)) as real
  }

  lemma {:induction false} ReachedBy(samples: seq<Sample>, t: real, v: nat) returns (w: nat)
    requires 0.0 < t <= Events(samples, Under(v)) as real
    ensures OrderStatistic(samples, t, w)
  {
    EventsNone(samples, Under(0));
    hide Events;
    if t <= Events(samples, Under(v - 1)) as real {
      w := ReachedBy(samples, t, v - 1);
    } else {
      w := v - 1;
    }
  }

  lemma {:induction false} AllUnder(samples: seq<Sample>, v: nat)
    requires Longest(samples) < v
    ensures Events(samples, Under(v)) == Events(samples, Any())
  {
    if samples != [] {
      AllUnder(samples[..|samples| - 1], v);
    }
  }

  lemma OrderStatisticExists(samples: seq<Sample>, p: real) returns (v: nat)
    requires Events(samples, Any()) > 0 && 0.0 < p <= 100.0
    ensures OrderStatistic(samples, Threshold(samples, p), v)
  {
    ThresholdIff(samples, p);
    AllUnder(samples, Longest(samples) + 1);
    v := ReachedBy(samples, Threshold(samples, p), Longest(samples) + 1);
  }

  lemma OrderStatisticUnique(samples: seq<Sample>, t: real, v: nat, w: nat)
    requires OrderStatistic(samples, t, v) && OrderStatistic(samples, t, w)
    ensures v == w
  {
    if v < w {
      EventsFewer(samples, Under(v + 1), Under(w));
    } else if w < v {
      EventsFewer(samples, Under(w + 1), Under(v));
    }
  }

  /** The search finds the bucket of the order statistic. */
  lemma FoundIsItsBucket(limits: seq<nat>, samples: seq<Sample>, t: real, k: nat, v: nat)
    requires Limits(limits) && t > 0.0 && Found(limits, samples, t, k) && OrderStatistic(samples, t, v)
    ensures k == IndexForValue(limits, v)
  {
    var i := IndexForValue(limits, v);
    if i < k {
      forall w: nat | Under(v + 1)(w) ensures Below(limits, k)(w) {
        IndexMonotone(limits, w, v);
      }
      EventsFewer(samples, Under(v + 1), Below(limits, k));
    } else if k < i {
      forall w: nat | Below(limits, k + 1)(w) ensures Under(v)(w) {
        if v <= w {
          IndexMonotone(limits, v, w);
        }
      }
      EventsFewer(samples, Below(limits, k + 1), Under(v));
    }
  }

  /** For percentages above 0 the value lies in the bucket range of the true order statistic. */
  lemma PercentileIsNearby(limits: seq<nat>, samples: seq<Sample>, p: real, v: nat)
    requires Limits(limits) && Events(samples, Any()) > 0 && 0.0 < p <= 100.0
    requires OrderStatistic(samples, Threshold(samples, p), v)
    ensures var k := IndexForValue(limits, v);
            && Lower(limits, k) as real <= Percentile(limits, samples, p) <= limits[k] as real
            && Lower(limits, k) <= v && (v <= limits[|limits| - 1] ==> v <= limits[k])
  {
    hide Events, Upto, InOne, Interpolate, Threshold, Longest, OrderStatistic;
    var t := Threshold(samples, p);
    ThresholdIff(samples, p);
    var k := StopFound(limits, samples, p);
    hide Percentile;
    FoundIsItsBucket(limits, samples, t, k, v);
    ValueInBucket(limits, samples, t, k, Percentile(limits, samples, p));
  }

  lemma ShareTimes(x: real, n: real, w: real)
    requires n > 0.0
    ensures Share(x, n, w) * n == x * w
  {
    var f := x / n;
    assert f * n == x;
    assert f * w * n == (f * n) * w;
  }

  lemma InterpolateTimes(lower: nat, upper: nat, t: real, before: nat, within: nat)
    requires within > 0 && lower <= upper
    ensures (Interpolate(lower, upper, t, before, within) - lower as real) * within as real ==
            (t - before as real) * (upper - lower) as real
  {
    var x, n, w := t - before as real, within as real, (upper - lower) as real;
    ShareTimes(x, n, w);
    hide Share;
    var share := Share(x, n, w);
    assert Interpolate(lower, upper, t, before, within) - lower as real == share;
  }

  /** Linear interpolation: inside the bucket of the order statistic, the percentile divides the
      range from just above the previous limit up to the bucket's limit, or the longest duration if
      that is less, as the threshold divides the events of the bucket. */
  lemma PercentileInterpolates(limits: seq<nat>, samples: seq<Sample>, p: real, v: nat)
    requires Limits(limits) && Events(samples, Any()) > 0 && 0.0 < p <= 100.0
    requires OrderStatistic(samples, Events(samples, Any()) as real * (p / 100.0), v)
    ensures var k := IndexForValue(limits, v);
            var lower := if k == 0 then 0 else limits[k - 1] + 1;
            var upper := if limits[k] <= Longest(samples) then limits[k] else Longest(samples);
            var before, within := Events(samples, Below(limits, k)), Events(samples, InBucket(limits, k));
            && within > 0 && lower <= upper
            && (Percentile(limits, samples, p) - lower as real) * within as real ==
               (Events(samples, Any()) as real * (p / 100.0) - before as real) * (upper - lower) as real
  {
    hide Events, Percentile, Longest, Stop, IndexForValue, OrderStatistic;
    InterpolatesAt(limits, samples, p, v);
  }

  lemma InterpolatesAt(limits: seq<nat>, samples: seq<Sample>, p: real, v: nat)
    requires Limits(limits) && Events(samples, Any()) > 0 && 0.0 < p <= 100.0
    requires OrderStatistic(samples, Threshold(samples, p), v)
    ensures var k := IndexForValue(limits, v);
            && InOne(limits, samples, k) > 0 && Lower(limits, k) <= Upper(limits, samples, k)
            && (Percentile(limits, samples, p) - Lower(limits, k) as real) * InOne(limits, samples, k) as real ==
               (Threshold(samples, p) - Upto(limits, samples, k) as real) * (Upper(limits, samples, k) - Lower(limits, k)) as real
  {
    hide Threshold, Events, Interpolate, Longest, OrderStatistic, Upto, InOne, Lower, Upper, Stop, IndexForValue, Found;
    ThresholdIff(samples, p);
    var t := Threshold(samples, p);
    var k := StopFound(limits, samples, p);
    hide Percentile;
    FoundIsItsBucket(limits, samples, t, k, v);
    FoundInside(limits, samples, t, k);
    ValueInBucket(limits, samples, t, k, Percentile(limits, samples, p));
    LowerUpTo(limits, samples, k);
    InterpolateTimes(Lower(limits, k), Upper(limits, samples, k), t, Upto(limits, samples, k), InOne(limits, samples, k));
  }

  lemma FoundInside(limits: seq<nat>, samples: seq<Sample>, t: real, k: nat)
    requires Limits(limits) && Found(limits, samples, t, k)
    ensures k < |limits|
  {
  }
}
