/** The equal-width histogram both repositories compute over the values of the
    records a query returns: `bucketsCount` buckets of width (max - min) /
    bucketsCount starting at the smallest value, each counting the values whose
    clamped index falls on it. Arithmetic is on reals. */
module Histogram {
  import opened Primitives
  import opened Store

  /** One bucket: its bounds and the number of values in it. */
  datatype Bucket = Bucket(lower: real, upper: real, count: nat)

  /** The value accessor applied to every record, in order. */
  function Values<T>(value: T -> real, records: seq<T>): (vs: seq<real>)
    ensures |vs| == |records|
    ensures forall i :: 0 <= i < |records| ==> vs[i] == value(records[i])
  {
    seq(|records|, i requires 0 <= i < |records| => value(records[i]))
  }

  function MinOf(vs: seq<real>): (m: real)
    requires |vs| > 0
    ensures m in vs
    ensures forall i :: 0 <= i < |vs| ==> m <= vs[i]
  {
    if |vs| == 1 then vs[0]
    else
      var m := MinOf(vs[..|vs| - 1]);
      assert forall i :: 0 <= i < |vs| - 1 ==> vs[..|vs| - 1][i] == vs[i];
      if vs[|vs| - 1] < m then vs[|vs| - 1] else m
  }

  function MaxOf(vs: seq<real>): (m: real)
    requires |vs| > 0
    ensures m in vs
    ensures forall i :: 0 <= i < |vs| ==> vs[i] <= m
  {
    if |vs| == 1 then vs[0]
    else
      var m := MaxOf(vs[..|vs| - 1]);
      assert forall i :: 0 <= i < |vs| - 1 ==> vs[..|vs| - 1][i] == vs[i];
      if vs[|vs| - 1] > m then vs[|vs| - 1] else m
  }

  lemma MinAtMostMax(vs: seq<real>)
    requires |vs| > 0
    ensures MinOf(vs) <= MaxOf(vs)
  {
    var i :| 0 <= i < |vs| && vs[i] == MaxOf(vs);
    assert MinOf(vs) <= vs[i];
  }

  /** Java's `(int)` cast of a double: rounds toward zero and saturates at the
      bounds of `int`. */
  function IntCast(x: real): (k: int32)
    ensures x >= 0.0 ==> 0 <= k && k as real <= x && (k < INT32_MAX ==> x < k as real + 1.0)
    ensures x < 0.0 ==> k <= 0 && x <= k as real && (k > INT32_MIN ==> k as real - 1.0 < x)
  {
    if x >= INT32_MAX as real then INT32_MAX
    else if x <= INT32_MIN as real then INT32_MIN
    else if x >= 0.0 then x.Floor
    else -((-x).Floor)
  }

  /** The bucket of value `v`: the int cast of (v - lo) / slice, clamped to the
      last bucket. A zero slice divides 0 by 0 for the minimum, a NaN whose
      cast is 0, and anything larger by 0, an infinity whose cast saturates. */
  function Index(v: real, lo: real, slice: real, n: int): (k: int)
    ensures k <= n - 1
    ensures lo <= v && slice >= 0.0 && n >= 1 ==> 0 <= k
  {
    var q := if slice != 0.0 then IntCast((v - lo) / slice)
             else if v == lo then 0
             else if v > lo then INT32_MAX
             else INT32_MIN;
    assert lo <= v && slice > 0.0 ==> q >= 0 by {
      if lo <= v && slice > 0.0 {
        assert (v - lo) / slice >= 0.0;
      }
    }
    if q < n - 1 then q else n - 1
  }

  /** The bucket index of every value, in order. */
  function Indices(vs: seq<real>, lo: real, slice: real, n: int): (ks: seq<int>)
    ensures |ks| == |vs|
    ensures forall j :: 0 <= j < |vs| ==> ks[j] == Index(vs[j], lo, slice, n)
  {
    seq(|vs|, j requires 0 <= j < |vs| => Index(vs[j], lo, slice, n))
  }

  /** How many of the indexes are `b`. */
  function Tally(ks: seq<int>, b: int): (c: nat)
    ensures c <= |ks|
  {
    if |ks| == 0 then 0 else Tally(ks[..|ks| - 1], b) + (if ks[|ks| - 1] == b then 1 else 0)
  }

  /** The i-th chained bound: the minimum, then one slice further for each
      bucket. */
  function Bound(lo: real, slice: real, i: nat): (b: real) {
    if i == 0 then lo else Bound(lo, slice, i - 1) + slice
  }

  lemma {:induction false} BoundClosedForm(lo: real, slice: real, i: nat)
    ensures Bound(lo, slice, i) == lo + i as real * slice
  {
    if i > 0 {
      BoundClosedForm(lo, slice, i - 1);
      assert (i - 1) as real * slice + slice == i as real * slice;
    }
  }

  /** How many of the indexes fall on each of the `n` buckets. */
  function Counts(ks: seq<int>, n: nat): (cs: seq<nat>)
    ensures |cs| == n
    ensures forall b :: 0 <= b < n ==> cs[b] == Tally(ks, b)
  {
    seq(n, b requires 0 <= b < n => Tally(ks, b))
  }

  /** Bucket i: from the i-th to the (i+1)-th bound, holding the i-th count. */
  function BucketOf(counts: seq<nat>, lo: real, slice: real, i: nat): (b: Bucket)
    requires i < |counts|
  {
    Bucket(Bound(lo, slice, i), Bound(lo, slice, i + 1), counts[i])
  }

  /** The first `m` buckets. */
  function BucketsUpTo(counts: seq<nat>, lo: real, slice: real, m: nat): (bs: seq<Bucket>)
    requires m <= |counts|
    ensures |bs| == m
    ensures forall i :: 0 <= i < m ==> bs[i] == BucketOf(counts, lo, slice, i)
  {
    if m == 0 then []
    else BucketsUpTo(counts, lo, slice, m - 1) + [BucketOf(counts, lo, slice, m - 1)]
  }

  /** The width of each of `n` equal buckets between `lo` and `hi`. */
  function Width(lo: real, hi: real, n: int): (w: real)
    requires n >= 1
    ensures lo <= hi ==> w >= 0.0
    ensures lo < hi ==> w > 0.0
    ensures lo == hi ==> w == 0.0
  {
    (hi - lo) / n as real
  }

  /** The width of every bucket of a distribution. */
  function Slice(vs: seq<real>, n: int): (s: real)
    requires |vs| > 0 && n >= 1
    ensures s >= 0.0
  {
    MinAtMostMax(vs);
    Width(MinOf(vs), MaxOf(vs), n)
  }

  /** The buckets for a non-empty value list and a positive bucket count. */
  function Buckets(vs: seq<real>, n: int): (bs: seq<Bucket>)
    requires |vs| > 0 && n >= 1
    ensures |bs| == n
  {
    var lo, slice := MinOf(vs), Slice(vs, n);
    BucketsUpTo(Counts(Indices(vs, lo, slice, n), n), lo, slice, n)
  }

  /** The whole computation, exceptions included: no values give no buckets
      whatever the count; a negative count fails when the counter array is
      allocated; with a zero count the slice is infinite (or NaN) and the clamp
      sends the first value to index -1. */
  function Distribution(vs: seq<real>, n: int): (res: Result<seq<Bucket>, Failure>)
    ensures |vs| == 0 ==> res == Ok([])
    ensures |vs| > 0 && n < 0 ==> res == Err(NegativeArraySize)
    ensures |vs| > 0 && n == 0 ==> res == Err(IndexOutOfBounds)
    ensures |vs| > 0 && n >= 1 ==> res.Ok? && |res.value| == n
  {
    if |vs| == 0 then Ok([])
    else if n < 0 then Err(NegativeArraySize)
    else if n == 0 then Err(IndexOutOfBounds)
    else Ok(Buckets(vs, n))
  }

  /** The algorithm as the repositories run it: find min and max, tally every
      value into a counter array, then build the buckets, each starting where
      the previous one ends. */
  method ComputeDistribution(vs: seq<real>, n: int32) returns (res: Result<seq<Bucket>, Failure>)
    ensures res == Distribution(vs, n)
  {
    if |vs| == 0 {
      return Ok([]);
    }
    var lo, hi := MinOf(vs), MaxOf(vs);
    if n < 0 {
      return Err(NegativeArraySize);
    }
    if n == 0 {
      return Err(IndexOutOfBounds);
    }
    var slice := (hi - lo) / n as real;
    assert slice == Width(lo, hi, n);
    var distribution := CountIndices(vs, lo, slice, n);
    var buckets := BuildBuckets(distribution, lo, slice, hi, n);
    return Ok(buckets);
  }

  /** The first loop: one counter per bucket, raised once for every value at
      that value's index. */
  method CountIndices(vs: seq<real>, lo: real, slice: real, n: int32) returns (distribution: seq<nat>)
    requires n >= 1 && slice >= 0.0
    requires forall j :: 0 <= j < |vs| ==> lo <= vs[j]
    ensures distribution == Counts(Indices(vs, lo, slice, n), n)
  {
    ghost var ks := Indices(vs, lo, slice, n);
    distribution := seq(n, _ => 0);
    for k := 0 to |vs|
      invariant |distribution| == n
      invariant forall b :: 0 <= b < n ==> distribution[b] == Tally(ks[..k], b)
    {
      assert ks[..k + 1][..k] == ks[..k];
      var index := Index(vs[k], lo, slice, n);
      distribution := distribution[index := distribution[index] + 1];
    }
    assert ks[..|vs|] == ks;
  }

  /** The second loop: each bucket starts where the previous one ends and is
      one slice wide. */
  method BuildBuckets(distribution: seq<nat>, lo: real, slice: real, hi: real, n: int32)
    returns (buckets: seq<Bucket>)
    requires |distribution| == n
    ensures buckets == BucketsUpTo(distribution, lo, slice, n)
  {
    buckets := [];
    for i := 0 to n
      invariant buckets == BucketsUpTo(distribution, lo, slice, i)
    {
      var lower := if i > 0 then buckets[i - 1].upper else lo;
      var upper := if i < n then lower + slice else hi;
      buckets := buckets + [Bucket(lower, upper, distribution[i])];
    }
  }

  // ---------------------------------------------------------------------------
  // Counting.

  /** The sum of the bucket counts. */
  function TotalCount(bs: seq<Bucket>): (n: nat) {
    if |bs| == 0 then 0 else TotalCount(bs[..|bs| - 1]) + bs[|bs| - 1].count
  }

  /** The number of indexes below `m`. */
  function TallyBelow(ks: seq<int>, m: nat): (n: nat) {
    if m == 0 then 0 else TallyBelow(ks, m - 1) + Tally(ks, m - 1)
  }

  /** The sum of the first `m` counts. */
  function SumBelow(counts: seq<nat>, m: nat): (n: nat)
    requires m <= |counts|
  {
    if m == 0 then 0 else SumBelow(counts, m - 1) + counts[m - 1]
  }

  lemma {:induction false} TotalOfBuckets(counts: seq<nat>, lo: real, slice: real, m: nat)
    requires m <= |counts|
    ensures TotalCount(BucketsUpTo(counts, lo, slice, m)) == SumBelow(counts, m)
  {
    if m > 0 {
      var prev := BucketsUpTo(counts, lo, slice, m - 1);
      var last := BucketOf(counts, lo, slice, m - 1);
      var bs := BucketsUpTo(counts, lo, slice, m);
      assert bs == prev + [last];
      assert bs[..m - 1] == prev;
      assert bs[m - 1] == last;
      TotalOfBuckets(counts, lo, slice, m - 1);
    }
  }

  lemma {:induction false} SumOfCounts(ks: seq<int>, n: nat, m: nat)
    requires m <= n
    ensures SumBelow(Counts(ks, n), m) == TallyBelow(ks, m)
  {
    if m > 0 {
      SumOfCounts(ks, n, m - 1);
      assert Counts(ks, n)[m - 1] == Tally(ks, m - 1);
    }
  }

  /** One more index raises the number below `m` by one exactly when it is
      below `m`. */
  lemma {:induction false} TallyBelowStep(ks: seq<int>, m: nat)
    requires |ks| > 0
    ensures TallyBelow(ks, m)
         == TallyBelow(ks[..|ks| - 1], m) + (if 0 <= ks[|ks| - 1] < m then 1 else 0)
  {
    if m > 0 {
      TallyBelowStep(ks, m - 1);
    }
  }

  lemma {:induction false} TallyBelowEmpty(ks: seq<int>, m: nat)
    requires |ks| == 0
    ensures TallyBelow(ks, m) == 0
  {
    if m > 0 {
      TallyBelowEmpty(ks, m - 1);
    }
  }

  /** Indexes that all lie in [0, n) are all counted below n. */
  lemma {:induction false} TallyBelowAll(ks: seq<int>, n: nat)
    requires forall j :: 0 <= j < |ks| ==> 0 <= ks[j] < n
    ensures TallyBelow(ks, n) == |ks|
  {
    if |ks| == 0 {
      TallyBelowEmpty(ks, n);
    } else {
      TallyBelowStep(ks, n);
      var init := ks[..|ks| - 1];
      assert forall j :: 0 <= j < |init| ==> init[j] == ks[j];
      TallyBelowAll(init, n);
    }
  }

  /** The buckets of a distribution, spelled out. */
  lemma DistributionBuckets(vs: seq<real>, n: int)
    requires |vs| > 0 && n >= 1
    ensures var lo, slice := MinOf(vs), Slice(vs, n);
      Distribution(vs, n).value == BucketsUpTo(Counts(Indices(vs, lo, slice, n), n), lo, slice, n)
  {
  }

  /** The i-th bucket of a distribution: between the i-th and the (i+1)-th
      bound, holding the values whose index is i. */
  lemma BucketAt(vs: seq<real>, n: int, i: int)
    requires |vs| > 0 && n >= 1 && 0 <= i < n
    ensures var lo, slice := MinOf(vs), Slice(vs, n);
      Distribution(vs, n).value[i]
        == Bucket(Bound(lo, slice, i), Bound(lo, slice, i + 1), Tally(Indices(vs, lo, slice, n), i))
  {
    var lo, slice := MinOf(vs), Slice(vs, n);
    var ks := Indices(vs, lo, slice, n);
    var cs := Counts(ks, n);
    var bs := BucketsUpTo(cs, lo, slice, n);
    DistributionBuckets(vs, n);
    assert cs[i] == Tally(ks, i);
    assert bs[i] == BucketOf(cs, lo, slice, i);
  }

  /** Every value is counted once: the counts add up to the number of values. */
  lemma CountsSumToValues(vs: seq<real>, n: int)
    requires |vs| > 0 && n >= 1
    ensures TotalCount(Distribution(vs, n).value) == |vs|
  {
    var lo, slice := MinOf(vs), Slice(vs, n);
    var ks := Indices(vs, lo, slice, n);
    DistributionBuckets(vs, n);
    TotalOfBuckets(Counts(ks, n), lo, slice, n);
    SumOfCounts(ks, n, n);
    assert forall j :: 0 <= j < |ks| ==> 0 <= ks[j] < n;
    TallyBelowAll(ks, n);
  }

  // ---------------------------------------------------------------------------
  // Bounds.

  /** n slices of the width lead from lo to hi. */
  lemma LastBound(lo: real, hi: real, n: int)
    requires n >= 1
    ensures Bound(lo, Width(lo, hi, n), n) == hi
  {
    var w := Width(lo, hi, n);
    BoundClosedForm(lo, w, n);
    WidthTimesCount(lo, hi, n);
  }

  lemma WidthTimesCount(lo: real, hi: real, n: int)
    requires n >= 1
    ensures n as real * Width(lo, hi, n) == hi - lo
  {
  }

  /** Bounds are chained: the first bucket starts at the minimum, each bucket
      starts where the previous one ends and is one slice wide, and the last
      one ends at the maximum. */
  lemma BucketBounds(vs: seq<real>, n: int)
    requires |vs| > 0 && n >= 1
    ensures var bs := Distribution(vs, n).value;
      && bs[0].lower == MinOf(vs)
      && bs[n - 1].upper == MaxOf(vs)
      && (forall i :: 0 <= i < n ==> bs[i].upper == bs[i].lower + Slice(vs, n))
      && (forall i :: 0 < i < n ==> bs[i].lower == bs[i - 1].upper)
  {
    var lo, hi, slice := MinOf(vs), MaxOf(vs), Slice(vs, n);
    var bs := Distribution(vs, n).value;
    assert bs[0].lower == lo by {
      BucketAt(vs, n, 0);
    }
    assert bs[n - 1].upper == hi by {
      assert slice == Width(lo, hi, n);
      LastBound(lo, hi, n);
      BucketAt(vs, n, n - 1);
    }
    forall i | 0 <= i < n
      ensures bs[i].upper == bs[i].lower + slice
    {
      BucketAt(vs, n, i);
    }
    forall i | 0 < i < n
      ensures bs[i].lower == bs[i - 1].upper
    {
      BucketAt(vs, n, i);
      BucketAt(vs, n, i - 1);
    }
  }

  /** Every value lies in the bucket it is counted in: at or above its lower
      bound and at or below its upper bound, and strictly below it when it is
      not in the last bucket and the buckets have a width. */
  lemma ValueInItsBucket(vs: seq<real>, n: int32, j: int)
    requires |vs| > 0 && n >= 1 && 0 <= j < |vs|
    ensures var k := Index(vs[j], MinOf(vs), Slice(vs, n), n);
      var b := Distribution(vs, n).value[k];
      && b.lower <= vs[j] <= b.upper
      && (k < n - 1 && MinOf(vs) < MaxOf(vs) ==> vs[j] < b.upper)
  {
    var lo, hi, slice := MinOf(vs), MaxOf(vs), Slice(vs, n);
    assert slice == Width(lo, hi, n);
    var k := Index(vs[j], lo, slice, n);
    BucketAt(vs, n, k);
    ValueBetweenBounds(vs[j], lo, hi, n);
  }

  /** The bounds of the bucket a value is counted in enclose it. */
  lemma ValueBetweenBounds(v: real, lo: real, hi: real, n: int32)
    requires lo <= v <= hi && n >= 1
    ensures var slice := Width(lo, hi, n);
      var k := Index(v, lo, slice, n);
      && Bound(lo, slice, k) <= v <= Bound(lo, slice, k + 1)
      && (k < n - 1 && lo < hi ==> v < Bound(lo, slice, k + 1))
  {
    var slice := Width(lo, hi, n);
    var k := Index(v, lo, slice, n);
    BoundClosedForm(lo, slice, k);
    BoundClosedForm(lo, slice, k + 1);
    IndexBounds(v, lo, hi, n);
  }

  /** The arithmetic behind the index: `v` lies between the closed-form
      bounds of its bucket. */
  lemma IndexBounds(v: real, lo: real, hi: real, n: int32)
    requires lo <= v <= hi && n >= 1
    ensures var slice := Width(lo, hi, n);
      var k := Index(v, lo, slice, n);
      && lo + k as real * slice <= v <= lo + (k + 1) as real * slice
      && (k < n - 1 && lo < hi ==> v < lo + (k + 1) as real * slice)
  {
    var slice := Width(lo, hi, n);
    var k := Index(v, lo, slice, n);
    if lo < hi {
      var x := (v - lo) / slice;
      QuotientBounds(v, lo, hi, n);
      IndexOfQuotient(v, lo, slice, n);
      Scale(x, k, n, slice, v - lo);
    } else {
      assert slice == 0.0 && v == lo;
      assert k == 0;
    }
  }

  /** The quotient the index is cut from lies between 0 and the bucket count. */
  lemma QuotientBounds(v: real, lo: real, hi: real, n: int)
    requires lo <= v <= hi && lo < hi && n >= 1
    ensures var slice := Width(lo, hi, n);
      var x := (v - lo) / slice;
      && 0.0 <= x <= n as real
      && x * slice == v - lo
  {
    var slice := Width(lo, hi, n);
    var x := (v - lo) / slice;
    WidthTimesCount(lo, hi, n);
    assert x * slice == v - lo;
    assert x <= n as real by {
      assert v - lo <= n as real * slice;
      MulMonotoneInverse(x, n as real, slice);
    }
  }

  /** The index is the quotient cut to an integer: at most the quotient, and
      more than one below it only in the last bucket. */
  lemma IndexOfQuotient(v: real, lo: real, slice: real, n: int32)
    requires lo <= v && slice > 0.0 && n >= 1
    requires (v - lo) / slice <= n as real
    ensures var x, k := (v - lo) / slice, Index(v, lo, slice, n);
      && 0 <= k < n
      && k as real <= x
      && (k < n - 1 ==> x < (k + 1) as real)
  {
    var x := (v - lo) / slice;
    var q := IntCast(x);
    var k := Index(v, lo, slice, n);
    assert k == if q < n - 1 then q else n - 1;
    if k < n - 1 {
      assert k == q && q < INT32_MAX;
    }
  }

  /** Scaling by the slice width keeps the quotient between the bounds. */
  lemma Scale(x: real, k: int, n: int, slice: real, d: real)
    requires slice > 0.0 && x * slice == d
    requires 0 <= k < n && k as real <= x <= n as real
    requires k < n - 1 ==> x < (k + 1) as real
    ensures k as real * slice <= d <= (k + 1) as real * slice
    ensures k < n - 1 ==> d < (k + 1) as real * slice
  {
    var next := (k + 1) as real;
    MulMonotone(k as real, x, slice);
    if k < n - 1 {
      MulStrict(x, next, slice);
    } else {
      MulMonotone(x, next, slice);
    }
  }

  lemma MulMonotone(a: real, b: real, c: real)
    requires a <= b && c > 0.0
    ensures a * c <= b * c
  {
  }

  lemma MulMonotoneInverse(a: real, b: real, c: real)
    requires a * c <= b * c && c > 0.0
    ensures a <= b
  {
  }

  lemma MulStrict(a: real, b: real, c: real)
    requires a < b && c > 0.0
    ensures a * c < b * c
  {
  }

  /** When the values are not all equal, the maximum is counted in the last
      bucket. */
  lemma MaxInLastBucket(vs: seq<real>, n: int32)
    requires |vs| > 0 && n >= 1 && MinOf(vs) < MaxOf(vs)
    ensures Index(MaxOf(vs), MinOf(vs), Slice(vs, n), n) == n - 1
  {
    var lo, hi := MinOf(vs), MaxOf(vs);
    assert Slice(vs, n) == Width(lo, hi, n);
    HighestIndex(lo, hi, n);
  }

  /** The top of the range has the last index. */
  lemma HighestIndex(lo: real, hi: real, n: int32)
    requires lo < hi && n >= 1
    ensures Index(hi, lo, Width(lo, hi, n), n) == n - 1
  {
    var slice := Width(lo, hi, n);
    WidthTimesCount(lo, hi, n);
    assert (hi - lo) / slice == n as real;
  }

  /** Indexes that are all 0 tally in bucket 0 only. */
  lemma {:induction false} AllInFirst(ks: seq<int>, b: int)
    requires forall j :: 0 <= j < |ks| ==> ks[j] == 0
    ensures Tally(ks, b) == if b == 0 then |ks| else 0
  {
    if |ks| > 0 {
      var init := ks[..|ks| - 1];
      assert forall j :: 0 <= j < |init| ==> init[j] == ks[j];
      AllInFirst(init, b);
    }
  }

  /** With a single distinct value, the first bucket holds every value and
      every bucket has no width. */
  lemma SingleValueDistribution(vs: seq<real>, n: int)
    requires |vs| > 0 && n >= 1 && MinOf(vs) == MaxOf(vs)
    ensures var bs := Distribution(vs, n).value;
      && bs[0].count == |vs|
      && bs[0].lower == bs[0].upper == MinOf(vs)
      && forall i :: 0 < i < n ==> bs[i].count == 0
  {
    var lo := MinOf(vs);
    assert Slice(vs, n) == 0.0 by {
      assert Slice(vs, n) == Width(lo, MaxOf(vs), n);
    }
    var ks := Indices(vs, lo, 0.0, n);
    IndicesAtLow(vs, lo, n);
    var bs := Distribution(vs, n).value;
    forall i | 0 <= i < n
      ensures bs[i].count == if i == 0 then |vs| else 0
    {
      BucketAt(vs, n, i);
      AllInFirst(ks, i);
    }
    BucketAt(vs, n, 0);
    assert Bound(lo, 0.0, 1) == lo;
  }

  /** Values that all equal the low end have index 0 when the slice has no
      width. */
  lemma IndicesAtLow(vs: seq<real>, lo: real, n: int)
    requires n >= 1 && forall j :: 0 <= j < |vs| ==> lo <= vs[j] <= lo
    ensures forall j :: 0 <= j < |vs| ==> Indices(vs, lo, 0.0, n)[j] == 0
  {
  }
}
