/**
 The counters and the latency histogram of the authorization middleware.  Samples and bucket bounds
 are real numbers; the history of samples is kept beside the counters and says what they must show.
 */
module Metrics {
  import opened Recency

  predicate AscendingPositive(b: seq<real>) {
    && |b| > 0
    && (forall i :: 0 <= i < |b| ==> b[i] > 0.0)
    && (forall i, j :: 0 <= i < j < |b| ==> b[i] < b[j])
  }

  const DefaultBuckets: seq<real> := [1.0, 5.0, 10.0, 20.0, 50.0, 100.0, 200.0, 500.0, 1000.0]

  lemma DefaultsUsable()
    ensures AscendingPositive(DefaultBuckets)
  {
  }

  /** One pass that compares each bound with the one before it. */
  method CheckBuckets(b: seq<real>) returns (ok: bool)
    ensures ok <==> b != [] && b[0] > 0.0 && forall i :: 0 < i < |b| ==> b[i - 1] < b[i]
    ensures ok <==> AscendingPositive(b)
  {
    if |b| == 0 {
      return false;
    }
    var prev := -1.0;
    for i := 0 to |b|
      invariant prev == if i == 0 then -1.0 else b[i - 1]
      invariant forall k :: 0 <= k < i ==> 0.0 < b[k] <= prev
      invariant forall j, k :: 0 <= j < k < i ==> b[j] < b[k]
    {
      if b[i] <= prev || b[i] <= 0.0 {
        return false;
      }
      prev := b[i];
    }
    ok := true;
  }

  /** The first bucket whose bound is not below the sample, or one past the last. */
  function Bucket(b: seq<real>, x: real): (r: nat)
    ensures r <= |b|
    ensures forall i :: 0 <= i < r ==> b[i] < x
    ensures r < |b| ==> x <= b[r]
  {
    if b == [] then 0 else if x <= b[0] then 0 else 1 + Bucket(b[1..], x)
  }

  /** How many samples fall in a bucket. */
  function InBucket(b: seq<real>, samples: seq<real>, i: nat): (n: nat) {
    if samples == [] then 0
    else InBucket(b, samples[..|samples| - 1], i) + (if Bucket(b, samples[|samples| - 1]) == i then 1 else 0)
  }

  /** How many samples are at or below a bound. */
  function AtMost(samples: seq<real>, bound: real): (n: nat) {
    if samples == [] then 0
    else AtMost(samples[..|samples| - 1], bound) + (if samples[|samples| - 1] <= bound then 1 else 0)
  }

  function Total(samples: seq<real>): (r: real) {
    if samples == [] then 0.0 else Total(samples[..|samples| - 1]) + samples[|samples| - 1]
  }

  /** The sum of the first `n` bucket counts. */
  function Below(b: seq<real>, samples: seq<real>, n: nat): (r: nat) {
    if n == 0 then 0 else Below(b, samples, n - 1) + InBucket(b, samples, n - 1)
  }

  lemma {:induction false} BelowSnoc(b: seq<real>, samples: seq<real>, x: real, n: nat)
    ensures Below(b, samples + [x], n) == Below(b, samples, n) + (if Bucket(b, x) < n then 1 else 0)
  {
    var more := samples + [x];
    assert more[..|more| - 1] == samples;
    if n > 0 {
      BelowSnoc(b, samples, x, n - 1);
    }
  }

  /** The counts up to a bucket add up to the number of samples at or below its bound. */
  lemma {:induction false} Cumulative(b: seq<real>, samples: seq<real>, i: nat)
    requires AscendingPositive(b) && i < |b|
    ensures Below(b, samples, i + 1) == AtMost(samples, b[i])
  {
    if samples == [] {
      BelowNothing(b, i + 1);
    } else {
      var prev, x := samples[..|samples| - 1], samples[|samples| - 1];
      assert samples == prev + [x];
      Cumulative(b, prev, i);
      BelowSnoc(b, prev, x, i + 1);
    }
  }

  lemma {:induction false} BelowNothing(b: seq<real>, n: nat)
    ensures Below(b, [], n) == 0
  {
    if n > 0 {
      BelowNothing(b, n - 1);
    }
  }

  /** All the counts add up to the number of samples. */
  lemma {:induction false} CumulativeAll(b: seq<real>, samples: seq<real>)
    ensures Below(b, samples, |b| + 1) == |samples|
  {
    if samples == [] {
      BelowNothing(b, |b| + 1);
    } else {
      var prev, x := samples[..|samples| - 1], samples[|samples| - 1];
      assert samples == prev + [x];
      CumulativeAll(b, prev);
      BelowSnoc(b, prev, x, |b| + 1);
    }
  }

  /** What is rendered: the counters, the hit ratio if there is one, and the histogram with its cumulative counts. */
  datatype Rendered = Rendered(allowed: nat, denied: nat, errors: nat, hits: nat, misses: nat, hitRatio: Option<real>,
                               le: seq<nat>, inf: nat, sum: real, count: nat)

  function Ratio(hits: nat, misses: nat): (r: Option<real>)
    ensures r.Some? <==> hits + misses > 0
    ensures r.Some? ==> 0.0 <= r.value <= 1.0 && r.value * (hits + misses) as real == hits as real
  {
    var total := hits + misses;
    if total > 0 then Some(hits as real / total as real) else None
  }

  class AuthzMetrics {
    var allowed: nat
    var denied: nat
    var errors: nat
    var hits: nat
    var misses: nat
    const buckets: seq<real>
    const counts: array<nat>
    var sum: real
    var count: nat
    ghost var samples: seq<real>

    ghost predicate Valid()
      reads this, counts
    {
      && AscendingPositive(buckets)
      && counts.Length == |buckets| + 1
      && (forall i :: 0 <= i < counts.Length ==> counts[i] == InBucket(buckets, samples, i))
      && count == |samples| && sum == Total(samples)
    }

    constructor (buckets: seq<real>)
      ensures Valid() && fresh(counts)
      ensures var usable := buckets != [] && buckets[0] > 0.0
                            && forall i :: 0 < i < |buckets| ==> buckets[i - 1] < buckets[i];
              this.buckets == if usable then buckets
                              else [1.0, 5.0, 10.0, 20.0, 50.0, 100.0, 200.0, 500.0, 1000.0]
      ensures sum == 0.0 && count == 0
      ensures allowed == denied == errors == hits == misses == 0 && samples == []
    {
      DefaultsUsable();
      hide AscendingPositive;
      var usable := CheckBuckets(buckets);
      var b := if usable then buckets else DefaultBuckets;
      this.buckets := b;
      counts := new nat[|b| + 1](i => 0);
      allowed, denied, errors, hits, misses := 0, 0, 0, 0, 0;
      sum, count, samples := 0.0, 0, [];
    }

    /** Adds a sample; a negative latency counts as zero. */
    method ObserveLatencyMs(ms: real)
      requires Valid()
      modifies this`sum, this`count, this`samples, counts
      ensures Valid()
      ensures samples == old(samples) + [if ms < 0.0 then 0.0 else ms]
      ensures sum == old(sum) + (if ms < 0.0 then 0.0 else ms) && count == old(count) + 1
      ensures forall i :: 0 <= i < counts.Length ==>
                counts[i] == old(counts[i]) +
                             if (i > 0 ==> buckets[i - 1] < ms) && (i < |buckets| ==> ms <= buckets[i]) then 1 else 0
    {
      var x := if ms < 0.0 then 0.0 else ms;
      var idx := Bucket(buckets, x);
      counts[idx] := counts[idx] + 1;
      sum := sum + x;
      count := count + 1;
      samples := samples + [x];
      assert samples[..|samples| - 1] == old(samples);
    }

    /** Each rendered bucket is the number of samples at or below its bound; +Inf is the count. */
    method Snapshot() returns (h: Rendered)
      requires Valid()
      ensures h.allowed == allowed && h.denied == denied && h.errors == errors && h.hits == hits && h.misses == misses
      ensures h.hitRatio.Some? <==> hits + misses > 0
      ensures h.hitRatio.Some? ==>
                0.0 <= h.hitRatio.value <= 1.0 && h.hitRatio.value * (hits + misses) as real == hits as real
      ensures |h.le| == |buckets|
      ensures forall i :: 0 <= i < |buckets| ==> h.le[i] == AtMost(samples, buckets[i])
      ensures h.inf == h.count == |samples| && h.sum == Total(samples)
    {
      var les: seq<nat> := [];
      for i := 0 to |buckets|
        invariant |les| == i
        invariant forall k :: 0 <= k < i ==> les[k] == AtMost(samples, buckets[k])
      {
        var le := 0;
        for j := 0 to i + 1
          invariant le == Below(buckets, samples, j)
        {
          le := le + counts[j];
        }
        Cumulative(buckets, samples, i);
        les := les + [le];
      }
      var inf := 0;
      for j := 0 to counts.Length
        invariant inf == Below(buckets, samples, j)
      {
        inf := inf + counts[j];
      }
      CumulativeAll(buckets, samples);
      h := Rendered(allowed, denied, errors, hits, misses, Ratio(hits, misses), les, inf, sum, count);
    }
  }
}
