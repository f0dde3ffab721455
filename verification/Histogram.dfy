/** Equal-depth histograms over the engine's value order. */
module Histograms {
  import opened Common

  /** Type numbers other than INTEGER, BIGINT, VARCHAR and BOOLEAN. */
  type OtherTag = t: nat | t != 1 && t != 2 && t != 4 && t != 7

  /** Values of the compared types; those of an `Other` type all compare equal, whatever they carry. */
  datatype Value = Int(n: int) | BigInt(n: int) | Bool(b: bool) | Varchar(s: string) | Other(tag: OtherTag, hidden: seq<nat>)

  const NULL_VALUE := Other(17, [])

  function Tag(v: Value): nat {
    match v
    case Int(_) => 1
    case BigInt(_) => 2
    case Varchar(_) => 4
    case Bool(_) => 7
    case Other(t, _) => t
  }

  function CompareText(a: string, b: string): int {
    if a == [] then (if b == [] then 0 else -1)
    else if b == [] then 1
    else if a[0] < b[0] then -1
    else if a[0] > b[0] then 1
    else CompareText(a[1..], b[1..])
  }

  function CompareInt(a: int, b: int): int {
    if a < b then -1 else if a > b then 1 else 0
  }

  /** `compareValuesOrdered`: first by type, then by value. */
  function Compare(a: Value, b: Value): int {
    if Tag(a) != Tag(b) then Tag(a) - Tag(b)
    else match (a, b)
      case (Int(x), Int(y)) => CompareInt(x, y)
      case (BigInt(x), BigInt(y)) => CompareInt(x, y)
      case (Bool(x), Bool(y)) => if !x && y then -1 else if x && !y then 1 else 0
      case (Varchar(x), Varchar(y)) => CompareText(x, y)
      case _ => 0
  }

  predicate Leq(a: Value, b: Value) {
    Compare(a, b) <= 0
  }

  lemma {:induction false} TextOrder(a: string, b: string, c: string)
    ensures CompareText(a, b) <= 0 || CompareText(b, a) <= 0
    ensures CompareText(a, b) <= 0 && CompareText(b, c) <= 0 ==> CompareText(a, c) <= 0
  {
    if a != [] && b != [] {
      TextOrder(a[1..], b[1..], if c == [] then [] else c[1..]);
    }
  }

  /** The comparison is a total preorder. */
  lemma ValueOrder(a: Value, b: Value, c: Value)
    ensures Leq(a, b) || Leq(b, a)
    ensures Leq(a, b) && Leq(b, c) ==> Leq(a, c)
  {
    if a.Varchar? && b.Varchar? {
      TextOrder(a.s, b.s, if c.Varchar? then c.s else "");
    }
  }

  /** Dictionary order: a proper beginning comes first, else the first difference decides. */
  ghost predicate DictionaryLeq(a: string, b: string) {
    || a <= b
    || exists k :: 0 <= k < |a| && k < |b| && a[..k] == b[..k] && a[k] < b[k]
  }

  lemma {:induction false} TextIsDictionary(a: string, b: string)
    ensures CompareText(a, b) <= 0 <==> DictionaryLeq(a, b)
  {
    if a != [] && b != [] {
      var x, y := a[1..], b[1..];
      if a[0] == b[0] {
        TextIsDictionary(x, y);
        SameHead(a, b);
      } else if a[0] < b[0] {
        assert a[..0] == b[..0];
      } else {
        assert !(a <= b);
        forall k | 0 <= k < |a| && k < |b| && a[..k] == b[..k]
          ensures !(a[k] < b[k])
        {
          if k > 0 {
            HeadOfPrefix(a, b, k);
          }
        }
      }
    }
  }

  lemma HeadOfPrefix(a: string, b: string, k: nat)
    requires 0 < k <= |a| && k <= |b| && a[..k] == b[..k]
    ensures a[0] == b[0]
  {
    assert a[..k][0] == b[..k][0];
  }

  lemma SameHead(a: string, b: string)
    requires a != [] && b != [] && a[0] == b[0]
    ensures DictionaryLeq(a, b) <==> DictionaryLeq(a[1..], b[1..])
  {
    var x, y := a[1..], b[1..];
    assert a == [a[0]] + x && b == [b[0]] + y;
    if k :| 0 <= k < |a| && k < |b| && a[..k] == b[..k] && a[k] < b[k] {
      assert x[..k - 1] == a[..k][1..] && y[..k - 1] == b[..k][1..];
      assert x[k - 1] < y[k - 1];
    }
    if k :| 0 <= k < |x| && k < |y| && x[..k] == y[..k] && x[k] < y[k] {
      assert a[..k + 1] == [a[0]] + x[..k] && b[..k + 1] == [b[0]] + y[..k];
      assert a[k + 1] < b[k + 1];
    }
  }

  /** What the order is: numbers by size, false before true, texts as in a dictionary, values of
      different types by the number of the type, and values of any other type all alike. */
  lemma OrderMeans(a: Value, b: Value)
    ensures a.Int? && b.Int? ==> (Leq(a, b) <==> a.n <= b.n)
    ensures a.BigInt? && b.BigInt? ==> (Leq(a, b) <==> a.n <= b.n)
    ensures a.Bool? && b.Bool? ==> (Leq(a, b) <==> (a.b ==> b.b))
    ensures a.Varchar? && b.Varchar? ==> (Leq(a, b) <==> DictionaryLeq(a.s, b.s))
    ensures a.Int? && (b.BigInt? || b.Varchar? || b.Bool?) ==> Leq(a, b) && !Leq(b, a)
    ensures a.BigInt? && (b.Varchar? || b.Bool?) ==> Leq(a, b) && !Leq(b, a)
    ensures a.Varchar? && b.Bool? ==> Leq(a, b) && !Leq(b, a)
    ensures a.Other? && b.Other? ==> (Leq(a, b) <==> a.tag <= b.tag)
  {
    hide CompareText;
    if a.Varchar? && b.Varchar? {
      TextIsDictionary(a.s, b.s);
    }
  }

  // ---------- Sorting ----------

  ghost predicate Ordered(s: seq<Value>) {
    forall i, j :: 0 <= i < j < |s| ==> Leq(s[i], s[j])
  }

  /** Puts `v` into an ordered sequence. */
  method InsertOrdered(s: seq<Value>, v: Value) returns (t: seq<Value>)
    requires Ordered(s)
    ensures Ordered(t) && multiset(t) == multiset(s) + multiset{v}
  {
    hide Compare, Leq, Ordered;
    var i := 0;
    while i < |s| && Leq(s[i], v)
      invariant i <= |s| && forall k :: 0 <= k < i ==> Leq(s[k], v)
    {
      i := i + 1;
    }
    t := s[..i] + [v] + s[i..];
    if i < |s| {
      ValueOrder(v, s[i], v);
    }
    InsertionKeepsOrder(s, i, v);
    InsertionAdds(s, i, v);
  }

  lemma InsertionAdds(s: seq<Value>, i: nat, v: Value)
    requires i <= |s|
    ensures multiset(s[..i] + [v] + s[i..]) == multiset(s) + multiset{v}
  {
    assert s == s[..i] + s[i..];
  }

  lemma InsertionKeepsOrder(s: seq<Value>, i: nat, v: Value)
    requires Ordered(s) && i <= |s| && (i < |s| ==> Leq(v, s[i]))
    requires forall k :: 0 <= k < i ==> Leq(s[k], v)
    ensures Ordered(s[..i] + [v] + s[i..])
  {
    hide Compare, Leq;
    forall k | i <= k < |s|
      ensures Leq(v, s[k])
    {
      ValueOrder(v, s[i], s[k]);
    }
    var t := s[..i] + [v] + s[i..];
    assert forall k :: 0 <= k < |t| ==> t[k] == if k < i then s[k] else if k == i then v else s[k - 1];
  }

  /** `std::sort` with the value order: some ordered permutation. */
  method SortValues(sample: seq<Value>) returns (sorted: seq<Value>)
    ensures Ordered(sorted) && multiset(sorted) == multiset(sample)
  {
    hide Ordered;
    sorted := [];
    EmptyOrdered();
    for i := 0 to |sample|
      invariant Ordered(sorted) && multiset(sorted) == multiset(sample[..i])
    {
      sorted := InsertOrdered(sorted, sample[i]);
      assert sample[..i + 1] == sample[..i] + [sample[i]];
    }
    assert sample[..|sample|] == sample;
  }

  lemma EmptyOrdered()
    ensures Ordered([])
  {}

  // ---------- Buckets ----------

  datatype Bucket = Bucket(min: Value, max: Value, count: nat)

  datatype Histogram = Histogram(min: Value, max: Value, total: nat, buckets: seq<Bucket>)

  function Depth(n: nat, k: nat): (size: nat)
    requires k > 0
    ensures size > 0
  {
    if n / k == 0 then 1 else n / k
  }

  /** Consecutive slices of `size` values, the last one possibly shorter. */
  function Cut(sorted: seq<Value>, size: nat): seq<Bucket>
    requires size > 0
  {
    if sorted == [] then []
    else
      var end := if size <= |sorted| then size else |sorted|;
      [Bucket(sorted[0], sorted[end - 1], end)] + Cut(sorted[end..], size)
  }

  function Total(bs: seq<Bucket>): nat {
    if bs == [] then 0 else bs[0].count + Total(bs[1..])
  }

  /** The slices are non-empty, their bounds ordered, and their counts sum to the sample size. */
  ghost predicate Describes(bs: seq<Bucket>, sorted: seq<Value>) {
    if sorted == [] then bs == []
    else
      && bs != [] && 1 <= bs[0].count <= |sorted|
      && bs[0].min == sorted[0] && bs[0].max == sorted[bs[0].count - 1]
      && Describes(bs[1..], sorted[bs[0].count..])
  }

  lemma {:induction false} CutDescribes(sorted: seq<Value>, size: nat)
    requires size > 0
    ensures Describes(Cut(sorted, size), sorted)
    ensures Total(Cut(sorted, size)) == |sorted|
  {
    if sorted != [] {
      var end := if size <= |sorted| then size else |sorted|;
      CutDescribes(sorted[end..], size);
      assert Cut(sorted, size)[1..] == Cut(sorted[end..], size);
    }
  }

  lemma ValueOrderSelf(v: Value)
    ensures Leq(v, v)
  {
    ValueOrder(v, v, v);
  }

  /** Each bucket's bounds are ordered, and no bucket reaches above the minimum of the next. */
  lemma {:induction false} BoundsOrdered(bs: seq<Bucket>, sorted: seq<Value>, i: nat)
    requires Describes(bs, sorted) && Ordered(sorted) && i < |bs|
    ensures Leq(bs[i].min, bs[i].max)
    ensures i + 1 < |bs| ==> Leq(bs[i].max, bs[i + 1].min)
  {
    hide Leq;
    var n := bs[0].count;
    if i > 0 {
      BoundsOrdered(bs[1..], sorted[n..], i - 1);
    } else {
      ValueOrderSelf(sorted[0]);
      if |bs| > 1 {
        assert bs[1].min == sorted[n..][0] == sorted[n];
      }
    }
  }

  /** All buckets but the last are full. */
  lemma {:induction false} FullBuckets(sorted: seq<Value>, size: nat)
    requires size > 0 && sorted != []
    ensures (|Cut(sorted, size)| - 1) * size < |sorted|
  {
    if size < |sorted| {
      FullBuckets(sorted[size..], size);
      var m := |Cut(sorted[size..], size)|;
      assert (m + 1 - 1) * size == (m - 1) * size + size;
    } else {
      assert sorted[|sorted|..] == [];
      assert |Cut(sorted, size)| == 1;
    }
  }

  /** At most 2k - 1 buckets arise. */
  lemma BucketCount(sorted: seq<Value>, k: nat)
    requires k > 0 && sorted != []
    ensures |Cut(sorted, Depth(|sorted|, k))| <= 2 * k - 1
  {
    hide Cut;
    var n, q := |sorted|, Depth(|sorted|, k);
    var m := |Cut(sorted, q)|;
    FullBuckets(sorted, q);
    DepthBound(n, k);
    if m - 1 >= 2 * k - 1 {
      Scale(2 * k - 1, m - 1, q);
      assert false;
    }
  }

  /** Equal depth, of `n` samples in buckets asked to be `k`: all buckets but the last hold the same
      number, n / k or one if there are fewer samples than buckets, and the last holds at least one
      and no more than that. */
  ghost predicate EqualDepth(bs: seq<Bucket>, n: nat, k: nat)
    requires k > 0
  {
    var d := if n < k then 1 else n / k;
    && bs != []
    && (forall i :: 0 <= i < |bs| - 1 ==> bs[i].count == d)
    && 1 <= bs[|bs| - 1].count <= d
  }

  lemma {:induction false} CutCounts(sorted: seq<Value>, size: nat)
    requires size > 0 && sorted != []
    ensures
      var bs := Cut(sorted, size);
      && bs != [] && (forall i :: 0 <= i < |bs| - 1 ==> bs[i].count == size)
      && 1 <= bs[|bs| - 1].count <= size
  {
    var bs := Cut(sorted, size);
    if size < |sorted| {
      var rest := Cut(sorted[size..], size);
      CutCounts(sorted[size..], size);
      assert bs == [Bucket(sorted[0], sorted[size - 1], size)] + rest;
    } else {
      assert Cut(sorted[|sorted|..], size) == [];
      assert |bs| == 1;
    }
  }

  /** The buckets are of equal depth, and there are at least as many as asked for or as samples. */
  lemma BucketsAreEqual(sorted: seq<Value>, k: nat)
    requires k > 0 && sorted != []
    ensures EqualDepth(Cut(sorted, Depth(|sorted|, k)), |sorted|, k)
    ensures |Cut(sorted, Depth(|sorted|, k))| >= if |sorted| < k then |sorted| else k
  {
    hide Cut;
    var n := |sorted|;
    CutCounts(sorted, Depth(n, k));
    DepthMeans(n, k);
    var m := |Cut(sorted, Depth(n, k))|;
    CutCovers(sorted, Depth(n, k));
    if n >= k {
      EnoughBuckets(m, Depth(n, k), k, n);
    }
  }

  lemma EnoughBuckets(m: nat, d: nat, k: nat, n: nat)
    requires d > 0 && k * d <= n <= m * d
    ensures m >= k
  {
    assert (m + 1) * d == m * d + d;
    if m < k {
      Scale(m + 1, k, d);
    }
  }

  lemma {:induction false} CutCovers(sorted: seq<Value>, size: nat)
    requires size > 0
    ensures |sorted| <= |Cut(sorted, size)| * size
  {
    if sorted != [] {
      var end := if size <= |sorted| then size else |sorted|;
      CutCovers(sorted[end..], size);
      OneMore(|Cut(sorted[end..], size)|, size);
    }
  }

  lemma OneMore(m: nat, d: nat)
    ensures (1 + m) * d == m * d + d
  {}

  lemma DepthMeans(n: nat, k: nat)
    requires k > 0
    ensures Depth(n, k) == if n < k then 1 else n / k
    ensures n >= k ==> k * Depth(n, k) <= n
  {
    if n >= k {
      assert n == k * (n / k) + n % k;
      assert n / k >= 1;
    } else {
      assert n / k == 0;
    }
  }

  lemma DepthBound(n: nat, k: nat)
    requires k > 0
    ensures n <= (2 * k - 1) * Depth(n, k)
  {
    var d := n / k;
    if d == 0 {
      assert n < k;
    } else {
      assert n == k * d + n % k;
      Scale(1, d, k - 1);
      Spread(k, d);
    }
  }

  lemma Spread(k: int, d: int)
    ensures (2 * k - 1) * d == k * d + d * (k - 1)
  {}

  lemma Scale(a: int, b: int, q: nat)
    requires a <= b
    ensures a * q <= b * q
  {}

  /** The histogram of a sample: its buckets describe some ordered permutation of it. */
  method BuildHistogram(sample: seq<Value>, numBuckets: nat) returns (h: Option<Histogram>, ghost sorted: seq<Value>)
    requires numBuckets > 0
    ensures h.None? <==> sample == []
    ensures Ordered(sorted) && multiset(sorted) == multiset(sample)
    ensures h.Some? ==>
      && h.value.total == |sample| == |sorted|
      && h.value.min == sorted[0] && h.value.max == sorted[|sorted| - 1]
      && h.value.buckets == Cut(sorted, Depth(|sample|, numBuckets))
      && Describes(h.value.buckets, sorted) && Total(h.value.buckets) == |sample|
      && |h.value.buckets| <= 2 * numBuckets - 1
      && EqualDepth(h.value.buckets, |sample|, numBuckets)
      && |h.value.buckets| >= if |sample| < numBuckets then |sample| else numBuckets
  {
    hide Ordered, Describes, Total, Cut, EqualDepth;
    var values := SortValues(sample);
    sorted := values;
    if sample == [] {
      return None, sorted;
    }
    assert |values| == |multiset(values)| == |sample|;
    var size := |sample| / numBuckets;
    if size == 0 {
      size := 1;
    }
    var buckets := CutBuckets(values, size);
    CutDescribes(values, size);
    BucketCount(values, numBuckets);
    BucketsAreEqual(values, numBuckets);
    h := Some(Histogram(values[0], values[|values| - 1], |sample|, buckets));
  }

  lemma CutStep(values: seq<Value>, size: nat, pos: nat)
    requires size > 0 && pos < |values|
    ensures
      var end := if pos + size < |values| then pos + size else |values|;
      Cut(values[pos..], size) == [Bucket(values[pos], values[end - 1], end - pos)] + Cut(values[end..], size)
  {
    var rest := values[pos..];
    var end := if pos + size < |values| then pos + size else |values|;
    assert rest[if size <= |rest| then size else |rest|..] == values[end..];
  }

  /** The bucket loop. */
  method CutBuckets(values: seq<Value>, size: nat) returns (buckets: seq<Bucket>)
    requires size > 0
    ensures buckets == Cut(values, size)
  {
    hide Cut;
    var pos := 0;
    buckets := [];
    assert values[0..] == values;
    while pos < |values|
      invariant pos <= |values|
      invariant buckets + Cut(values[pos..], size) == Cut(values, size)
    {
      CutStep(values, size, pos);
      var end := if pos + size < |values| then pos + size else |values|;
      var bucket := Bucket(values[pos], values[end - 1], end - pos);
      assert buckets + ([bucket] + Cut(values[end..], size)) == (buckets + [bucket]) + Cut(values[end..], size);
      buckets := buckets + [bucket];
      pos := end;
    }
    CutNothing(size);
    assert values[pos..] == [] && buckets + [] == buckets;
  }

  lemma CutNothing(size: nat)
    requires size > 0
    ensures Cut([], size) == []
  {}

  // ---------- Percentiles ----------

  /** The maximum of the first bucket at which the running count reaches `target`. */
  function Percentile(bs: seq<Bucket>, target: int): Value
    requires bs != []
  {
    if bs[0].count >= target || |bs| == 1 then bs[0].max else Percentile(bs[1..], target - bs[0].count)
  }

  method GetPercentile(h: Histogram, p: real) returns (v: Value)
    ensures h.buckets == [] || p < 0.0 || p > 1.0 ==> v == NULL_VALUE
    ensures h.buckets != [] && 0.0 <= p <= 1.0 ==> v == Percentile(h.buckets, (h.total as real * p).Floor)
  {
    if h.buckets == [] || p < 0.0 || p > 1.0 {
      return NULL_VALUE;
    }
    var target := (h.total as real * p).Floor;
    var cumulative := 0;
    var i := 0;
    assert h.buckets[0..] == h.buckets;
    while i < |h.buckets|
      invariant i <= |h.buckets|
      invariant i < |h.buckets| ==> Percentile(h.buckets[i..], target - cumulative) == Percentile(h.buckets, target)
      invariant i == |h.buckets| ==> h.buckets[|h.buckets| - 1].max == Percentile(h.buckets, target)
    {
      cumulative := cumulative + h.buckets[i].count;
      if cumulative >= target {
        return h.buckets[i].max;
      }
      assert h.buckets[i..][1..] == h.buckets[i + 1..];
      i := i + 1;
    }
    v := h.buckets[|h.buckets| - 1].max;
  }

  /** Equal-depth percentile: for a positive rank, the value returned stands at a position not
      before that rank and less than one bucket past it, so at least that many samples are not above it. */
  lemma {:induction false} PercentileRank(sorted: seq<Value>, size: nat, target: int) returns (e: nat)
    requires size > 0 && 1 <= target <= |sorted|
    ensures target <= e <= |sorted| && e < target + size
    ensures Percentile(Cut(sorted, size), target) == sorted[e - 1]
  {
    var end := if size <= |sorted| then size else |sorted|;
    if target <= end {
      e := end;
    } else {
      var f := PercentileRank(sorted[end..], size, target - end);
      e := end + f;
      assert Cut(sorted, size)[1..] == Cut(sorted[end..], size);
    }
  }

  /** The number of samples not above `v`. */
  function CountUpTo(s: seq<Value>, v: Value): nat {
    if s == [] then 0 else CountUpTo(s[..|s| - 1], v) + if Leq(s[|s| - 1], v) then 1 else 0
  }

  lemma {:induction false} PrefixCounts(sorted: seq<Value>, e: nat, n: nat)
    requires Ordered(sorted) && 0 < e <= |sorted| && n <= |sorted|
    ensures CountUpTo(sorted[..n], sorted[e - 1]) >= if n <= e then n else e
  {
    hide Leq;
    if n > 0 {
      PrefixCounts(sorted, e, n - 1);
      assert sorted[..n][..n - 1] == sorted[..n - 1];
      if n <= e {
        ValueOrderSelf(sorted[e - 1]);
      }
    }
  }

  lemma PercentileCovers(sorted: seq<Value>, size: nat, target: int)
    requires Ordered(sorted) && size > 0 && 1 <= target <= |sorted|
    ensures CountUpTo(sorted, Percentile(Cut(sorted, size), target)) >= target
  {
    hide Leq, Cut, Percentile, CountUpTo;
    var e := PercentileRank(sorted, size, target);
    PrefixCounts(sorted, e, |sorted|);
    assert sorted[..|sorted|] == sorted;
  }

  /** The error of a percentile in terms of sample and bucket number: in a histogram asked for with `k`
      buckets, the value returned for a positive rank stands not before that rank and less than
      n / k samples past it, or exactly at it if there are fewer samples than buckets. */
  lemma PercentileError(sorted: seq<Value>, k: nat, target: int) returns (e: nat)
    requires Ordered(sorted) && k > 0 && 1 <= target <= |sorted|
    ensures target <= e <= |sorted| && e < target + if |sorted| < k then 1 else |sorted| / k
    ensures Percentile(Cut(sorted, Depth(|sorted|, k)), target) == sorted[e - 1]
    ensures CountUpTo(sorted, sorted[e - 1]) >= target
  {
    hide Leq, Cut, Percentile, CountUpTo, Ordered;
    DepthMeans(|sorted|, k);
    e := PercentileRank(sorted, Depth(|sorted|, k), target);
    PercentileCovers(sorted, Depth(|sorted|, k), target);
  }
}
