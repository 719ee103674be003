/** Latency quantiles, histogram and objective counts as the pipeline reports them, and the checks that a report must pass.
    Latencies are exact nanoseconds; a histogram bucket is 100 microseconds wide. */
module LatencyReport {
  import opened Options

  const WIDTH: nat := 100000

  predicate Ascending(v: seq<nat>) {
    forall i, j | 0 <= i < j < |v| :: v[i] <= v[j]
  }

  // ----- Sorting

  function InsertSorted(x: nat, v: seq<nat>): (r: seq<nat>)
    ensures multiset(r) == multiset(v) + multiset{x} && |r| == |v| + 1
  {
    if v == [] || x <= v[0] then [x] + v
    else
      assert v == [v[0]] + v[1..];
      [v[0]] + InsertSorted(x, v[1..])
  }

  /** The latencies in ascending order. */
  function SortedCopy(v: seq<nat>): (r: seq<nat>)
    ensures multiset(r) == multiset(v) && |r| == |v|
  {
    if v == [] then []
    else
      assert v == v[..|v| - 1] + [v[|v| - 1]];
      InsertSorted(v[|v| - 1], SortedCopy(v[..|v| - 1]))
  }

  lemma {:induction false} InsertAscending(x: nat, v: seq<nat>)
    requires Ascending(v)
    ensures Ascending(InsertSorted(x, v))
  {
    if v != [] && x > v[0] {
      var rest := InsertSorted(x, v[1..]);
      InsertAscending(x, v[1..]);
      assert InsertSorted(x, v) == [v[0]] + rest;
      forall i | 0 <= i < |rest|
        ensures v[0] <= rest[i]
      {
        assert rest[i] in multiset(rest);
        if rest[i] != x {
          assert rest[i] in v[1..];
        }
      }
    }
  }

  lemma {:induction false} SortedAscending(v: seq<nat>)
    ensures Ascending(SortedCopy(v))
  {
    if v != [] {
      SortedAscending(v[..|v| - 1]);
      InsertAscending(v[|v| - 1], SortedCopy(v[..|v| - 1]));
    }
  }

  // ----- Counting

  /** How many latencies fall into the buckets of this set. */
  function CountIn(v: seq<nat>, buckets: set<nat>): (n: nat)
    ensures n <= |v|
  {
    if v == [] then 0
    else CountIn(v[..|v| - 1], buckets) + (if v[|v| - 1] / WIDTH in buckets then 1 else 0)
  }

  /** How many latencies meet the objective. */
  function CountWithin(v: seq<int>, slo: int): (n: nat)
    ensures n <= |v|
  {
    if v == [] then 0
    else CountWithin(v[..|v| - 1], slo) + (if v[|v| - 1] <= slo then 1 else 0)
  }

  lemma {:induction false} CountWithinSplit(a: seq<int>, b: seq<int>, slo: int)
    ensures CountWithin(a + b, slo) == CountWithin(a, slo) + CountWithin(b, slo)
  {
    if b == [] {
      assert a + b == a;
    } else {
      CountWithinSplit(a, b[..|b| - 1], slo);
      assert (a + b)[..|a + b| - 1] == a + b[..|b| - 1];
    }
  }

  lemma {:induction false} InsertWithin(x: nat, v: seq<nat>, slo: int)
    ensures CountWithin(InsertSorted(x, v), slo) == CountWithin(v, slo) + if x <= slo then 1 else 0
  {
    assert CountWithin([x], slo) == if x <= slo then 1 else 0 by {
      assert [x][..0] == [];
    }
    if v == [] || x <= v[0] {
      CountWithinSplit([x], v, slo);
    } else {
      assert v == [v[0]] + v[1..];
      CountWithinSplit([v[0]], v[1..], slo);
      InsertWithin(x, v[1..], slo);
      CountWithinSplit([v[0]], InsertSorted(x, v[1..]), slo);
    }
  }

  /** Sorting keeps the count within the objective. */
  lemma {:induction false} SortedWithin(v: seq<nat>, slo: int)
    ensures CountWithin(SortedCopy(v), slo) == CountWithin(v, slo)
  {
    if v != [] {
      SortedWithin(v[..|v| - 1], slo);
      InsertWithin(v[|v| - 1], SortedCopy(v[..|v| - 1]), slo);
    }
  }

  lemma {:induction false} CountMore(v: seq<nat>, buckets: set<nat>, b: nat)
    requires b !in buckets
    ensures CountIn(v, buckets + {b}) == CountIn(v, buckets) + CountIn(v, {b})
  {
    if v != [] {
      CountMore(v[..|v| - 1], buckets, b);
    }
  }

  lemma {:induction false} CountNone(v: seq<nat>)
    ensures CountIn(v, {}) == 0
  {
    if v != [] {
      CountNone(v[..|v| - 1]);
    }
  }

  /** From index `r` on nothing is in these buckets: at most `r` are. */
  lemma {:induction false} CountAtMost(v: seq<nat>, buckets: set<nat>, r: nat)
    requires forall i | r <= i < |v| :: v[i] / WIDTH !in buckets
    ensures CountIn(v, buckets) <= r
  {
    if |v| > r {
      CountAtMost(v[..|v| - 1], buckets, r);
    }
  }

  /** Up to index `r` everything is in these buckets: at least `r` are. */
  lemma {:induction false} CountAtLeast(v: seq<nat>, buckets: set<nat>, r: nat)
    requires r <= |v| && forall i | 0 <= i < r :: v[i] / WIDTH in buckets
    ensures r <= CountIn(v, buckets)
  {
    if |v| > 0 {
      CountAtLeast(v[..|v| - 1], buckets, if r == |v| then r - 1 else r);
    }
  }

  lemma {:induction false} CountCompare(v: seq<nat>, low: set<nat>, high: set<nat>, slo: int)
    requires forall i | 0 <= i < |v| :: (v[i] / WIDTH in low ==> v[i] <= slo) && (v[i] <= slo ==> v[i] / WIDTH in high)
    ensures CountIn(v, low) <= CountWithin(v, slo) <= CountIn(v, high)
  {
    if v != [] {
      CountCompare(v[..|v| - 1], low, high, slo);
    }
  }

  // ----- The report

  datatype Report = Report(verified: nat, withinSlo: nat, p50: nat, p95: nat, p99: nat, max: nat, histogram: map<nat, nat>)

  /** The nearest rank of a percentage. */
  function Rank(percent: nat, n: nat): nat {
    (percent * n + 99) / 100
  }

  lemma RankBounds(percent: nat, n: nat)
    requires percent in {50, 95, 99, 100} && n > 0
    ensures 1 <= Rank(percent, n) <= n
  {
    if percent == 50 {
      assert percent * n == 50 * n;
    } else if percent == 95 {
      assert percent * n == 95 * n;
    } else if percent == 99 {
      assert percent * n == 99 * n;
    } else {
      assert percent * n == 100 * n;
    }
  }

  function Quantile(v: seq<nat>, percent: nat): nat
    requires percent in {50, 95, 99, 100}
  {
    if v == [] then 0
    else
      RankBounds(percent, |v|);
      v[Rank(percent, |v|) - 1]
  }

  ghost predicate IsHistogram(v: seq<nat>, h: map<nat, nat>) {
    forall b :: (b in h <==> CountIn(v, {b}) > 0) && (b in h ==> h[b] == CountIn(v, {b}))
  }

  /** One pass over the sorted latencies. */
  method Histogram(v: seq<nat>) returns (h: map<nat, nat>)
    ensures IsHistogram(v, h)
  {
    h := map[];
    for i := 0 to |v|
      invariant IsHistogram(v[..i], h)
    {
      var b := v[i] / WIDTH;
      assert v[..i + 1][..i] == v[..i];
      assert v[..i + 1][i] == v[i];
      h := h[b := if b in h then h[b] + 1 else 1];
    }
    assert v[..|v|] == v;
  }

  // ----- The checks

  /** The recorded buckets in ascending order. */
  predicate IsBucketOrder(h: map<nat, nat>, order: seq<nat>) {
    && (forall b | b in h :: b in order) && (forall b | b in order :: b in h)
    && forall i, j | 0 <= i < j < |order| :: order[i] < order[j]
  }

  function Elements(s: seq<nat>): set<nat> {
    set b | b in s
  }

  /** The counts of the first `n` buckets together. */
  function Cumulative(h: map<nat, nat>, order: seq<nat>, n: nat): nat
    requires n <= |order| && forall b | b in order :: b in h
  {
    if n == 0 then 0 else Cumulative(h, order, n - 1) + h[order[n - 1]]
  }

  lemma {:induction false} CumulativeCounts(v: seq<nat>, h: map<nat, nat>, order: seq<nat>, n: nat)
    requires IsHistogram(v, h) && IsBucketOrder(h, order) && n <= |order|
    ensures Cumulative(h, order, n) == CountIn(v, Elements(order[..n]))
  {
    if n == 0 {
      CountNone(v);
      assert Elements(order[..0]) == {};
    } else {
      CumulativeCounts(v, h, order, n - 1);
      assert order[..n] == order[..n - 1] + [order[n - 1]];
      assert Elements(order[..n]) == Elements(order[..n - 1]) + {order[n - 1]};
      assert order[n - 1] !in Elements(order[..n - 1]);
      CountMore(v, Elements(order[..n - 1]), order[n - 1]);
    }
  }

  /** The samples up to this bucket reach the rank, those before it do not. */
  predicate Brackets(h: map<nat, nat>, order: seq<nat>, j: nat, rank: nat)
    requires j < |order| && forall b | b in order :: b in h
  {
    Cumulative(h, order, j) < rank <= Cumulative(h, order, j + 1)
  }

  /** Walk the buckets in ascending order until they hold `rank` samples. */
  method FindBucket(h: map<nat, nat>, order: seq<nat>, rank: nat) returns (found: Option<nat>)
    requires forall b | b in order :: b in h
    ensures found.Some? ==> exists j | 0 <= j < |order| :: order[j] == found.value && Brackets(h, order, j, rank)
    ensures found.None? ==> forall j | 0 <= j < |order| :: !Brackets(h, order, j, rank)
  {
    var count := 0;
    if rank == 0 {
      return None;
    }
    for j := 0 to |order|
      invariant count == Cumulative(h, order, j) < rank
      invariant forall i | 0 <= i < j :: !Brackets(h, order, i, rank)
    {
      count := count + h[order[j]];
      assert count == Cumulative(h, order, j + 1);
      if count >= rank {
        assert Brackets(h, order, j, rank);
        return Some(order[j]);
      }
    }
    return None;
  }

  /** The bucket found for a rank is the one the sample of that rank lies in. */
  lemma BucketOfRank(v: seq<nat>, h: map<nat, nat>, order: seq<nat>, rank: nat, j: nat)
    requires Ascending(v) && IsHistogram(v, h) && IsBucketOrder(h, order) && 1 <= rank <= |v| && j < |order|
    requires Brackets(h, order, j, rank)
    ensures order[j] == v[rank - 1] / WIDTH
  {
    var b := v[rank - 1] / WIDTH;
    Ordered(v, rank - 1);
    CumulativeCounts(v, h, order, j);
    CumulativeCounts(v, h, order, j + 1);
    hide CountIn;
    if order[j] < b {
      forall i | rank - 1 <= i < |v|
        ensures v[i] / WIDTH !in Elements(order[..j + 1])
      {
      }
      CountAtMost(v, Elements(order[..j + 1]), rank - 1);
    } else if order[j] > b {
      forall i | 0 <= i < rank
        ensures v[i] / WIDTH in Elements(order[..j])
      {
        SampleRecorded(v, h, i);
        var m :| 0 <= m < |order| && order[m] == v[i] / WIDTH;
        assert order[m] < order[j];
        assert order[m] == order[..j][m];
      }
      CountAtLeast(v, Elements(order[..j]), rank);
    }
  }

  /** Buckets ascend with the samples. */
  lemma Ordered(v: seq<nat>, k: nat)
    requires Ascending(v) && k < |v|
    ensures forall i | 0 <= i < |v| :: (i <= k ==> v[i] / WIDTH <= v[k] / WIDTH) && (i >= k ==> v[k] / WIDTH <= v[i] / WIDTH)
  {
  }

  lemma SampleRecorded(v: seq<nat>, h: map<nat, nat>, i: nat)
    requires IsHistogram(v, h) && i < |v|
    ensures v[i] / WIDTH in h
  {
    Positive(v, v[i] / WIDTH, i);
  }

  lemma {:induction false} Positive(v: seq<nat>, b: nat, i: nat)
    requires i < |v| && v[i] / WIDTH == b
    ensures CountIn(v, {b}) > 0
    decreases |v|
  {
    if i < |v| - 1 {
      Positive(v[..|v| - 1], b, i);
    }
  }

  lemma AllRecorded(v: seq<nat>, h: map<nat, nat>, order: seq<nat>)
    requires IsHistogram(v, h) && IsBucketOrder(h, order)
    ensures Cumulative(h, order, |order|) == |v|
  {
    CumulativeCounts(v, h, order, |order|);
    hide CountIn;
    assert order[..|order|] == order;
    forall i | 0 <= i < |v|
      ensures v[i] / WIDTH in Elements(order)
    {
      SampleRecorded(v, h, i);
    }
    CountAtLeast(v, Elements(order), |v|);
  }

  /** The value lies in the bucket that holds the sample of this rank, boundaries included. */
  predicate InBucket(r: Report, order: seq<nat>, percent: nat, value: nat)
    requires forall b | b in order :: b in r.histogram
  {
    r.verified > 0 ==>
      forall j | 0 <= j < |order| && Brackets(r.histogram, order, j, Rank(percent, r.verified)) ::
        order[j] * WIDTH <= value <= (order[j] + 1) * WIDTH
  }

  lemma {:induction false} CumulativeGrows(h: map<nat, nat>, order: seq<nat>, i: nat, j: nat)
    requires i <= j <= |order| && forall b | b in order :: b in h
    ensures Cumulative(h, order, i) <= Cumulative(h, order, j)
    decreases j
  {
    if i < j {
      CumulativeGrows(h, order, i, j - 1);
    }
  }

  /** At most one bucket brackets a rank. */
  lemma BracketUnique(h: map<nat, nat>, order: seq<nat>, i: nat, j: nat, rank: nat)
    requires i < |order| && j < |order| && forall b | b in order :: b in h
    requires Brackets(h, order, i, rank) && Brackets(h, order, j, rank)
    ensures i == j
  {
    if i < j {
      CumulativeGrows(h, order, i + 1, j);
    } else if j < i {
      CumulativeGrows(h, order, j + 1, i);
    }
  }

  /** One labelled quantile: not below the previous one, and inside the bucket of its rank. */
  method CheckQuantile(r: Report, order: seq<nat>, percent: nat, value: nat, previous: nat) returns (ok: bool)
    requires forall b | b in order :: b in r.histogram
    ensures ok <==> previous <= value && InBucket(r, order, percent, value)
  {
    hide Cumulative, Rank;
    if value < previous {
      return false;
    }
    if r.verified > 0 {
      ghost var h, rank := r.histogram, Rank(percent, r.verified);
      var found := FindBucket(r.histogram, order, Rank(percent, r.verified));
      forall i, j | 0 <= i < |order| && 0 <= j < |order| && Brackets(h, order, i, rank) && Brackets(h, order, j, rank)
        ensures i == j
      {
        BracketUnique(h, order, i, j, rank);
      }
      if found.Some? && !(found.value * WIDTH <= value <= (found.value + 1) * WIDTH) {
        return false;
      }
    }
    return true;
  }

  /** The samples in the buckets among the first `n` that the test accepts. */
  function SumWhere(h: map<nat, nat>, order: seq<nat>, n: nat, test: nat -> bool): nat
    requires n <= |order| && forall b | b in order :: b in h
  {
    if n == 0 then 0 else SumWhere(h, order, n - 1, test) + if test(order[n - 1]) then h[order[n - 1]] else 0
  }

  function Accepted(order: seq<nat>, test: nat -> bool): set<nat> {
    set b | b in order && test(b)
  }

  lemma {:induction false} SumWhereCounts(v: seq<nat>, h: map<nat, nat>, order: seq<nat>, n: nat, test: nat -> bool)
    requires IsHistogram(v, h) && IsBucketOrder(h, order) && n <= |order|
    ensures SumWhere(h, order, n, test) == CountIn(v, Accepted(order[..n], test))
  {
    if n == 0 {
      CountNone(v);
      assert Accepted(order[..0], test) == {};
    } else {
      SumWhereCounts(v, h, order, n - 1, test);
      var b, before := order[n - 1], Accepted(order[..n - 1], test);
      assert order[..n] == order[..n - 1] + [b];
      assert Accepted(order[..n], test) == if test(b) then before + {b} else before;
      assert b !in before;
      CountMore(v, before, b);
    }
  }

  function Definite(slo: int): nat -> bool {
    b => (b + 1) * WIDTH <= slo
  }

  function Possible(slo: int): nat -> bool {
    b => b * WIDTH <= slo
  }

  /** The latency part of the row check. */
  method CheckRow(r: Report, order: seq<nat>, slo: int) returns (ok: bool)
    requires IsBucketOrder(r.histogram, order)
    ensures ok <==> RowPasses(r, order, slo)
  {
    hide InBucket, Cumulative, SumWhere;
    if Cumulative(r.histogram, order, |order|) != r.verified {
      return false;
    }
    ok := CheckQuantile(r, order, 50, r.p50, 0);
    if !ok {
      return;
    }
    ok := CheckQuantile(r, order, 95, r.p95, r.p50);
    if !ok {
      return;
    }
    ok := CheckQuantile(r, order, 99, r.p99, r.p95);
    if !ok {
      return;
    }
    ok := CheckQuantile(r, order, 100, r.max, r.p99);
    if !ok {
      return;
    }
    ok := SumWhere(r.histogram, order, |order|, Definite(slo)) <= r.withinSlo
          <= SumWhere(r.histogram, order, |order|, Possible(slo));
  }

  predicate RowPasses(r: Report, order: seq<nat>, slo: int)
    requires IsBucketOrder(r.histogram, order)
  {
    && Cumulative(r.histogram, order, |order|) == r.verified
    && r.p50 <= r.p95 <= r.p99 <= r.max
    && InBucket(r, order, 50, r.p50) && InBucket(r, order, 95, r.p95)
    && InBucket(r, order, 99, r.p99) && InBucket(r, order, 100, r.max)
    && SumWhere(r.histogram, order, |order|, Definite(slo)) <= r.withinSlo
         <= SumWhere(r.histogram, order, |order|, Possible(slo))
  }

  // ----- Every summary passes the checks

  lemma QuantileInBucket(v: seq<nat>, h: map<nat, nat>, order: seq<nat>, percent: nat, j: nat)
    requires Ascending(v) && v != [] && IsHistogram(v, h) && IsBucketOrder(h, order) && percent in {50, 95, 99, 100}
    requires j < |order| && Brackets(h, order, j, Rank(percent, |v|))
    ensures order[j] * WIDTH <= Quantile(v, percent) <= (order[j] + 1) * WIDTH
  {
    RankBounds(percent, |v|);
    BucketOfRank(v, h, order, Rank(percent, |v|), j);
  }

  lemma QuantilesAscend(v: seq<nat>)
    requires Ascending(v)
    ensures Quantile(v, 50) <= Quantile(v, 95) <= Quantile(v, 99) <= Quantile(v, 100)
    ensures Quantile(v, 100) == if v == [] then 0 else v[|v| - 1]
  {
    if v != [] {
      var n := |v|;
      RankBounds(50, n);
      RankBounds(100, n);
      assert Rank(50, n) <= Rank(95, n) <= Rank(99, n) <= Rank(100, n) == n;
    }
  }

  lemma ObjectiveBounds(v: seq<nat>, h: map<nat, nat>, order: seq<nat>, slo: int)
    requires IsHistogram(v, h) && IsBucketOrder(h, order)
    ensures SumWhere(h, order, |order|, Definite(slo)) <= CountWithin(v, slo) <= SumWhere(h, order, |order|, Possible(slo))
  {
    SumWhereCounts(v, h, order, |order|, Definite(slo));
    SumWhereCounts(v, h, order, |order|, Possible(slo));
    assert order[..|order|] == order;
    var low, high := Accepted(order, Definite(slo)), Accepted(order, Possible(slo));
    forall i | 0 <= i < |v|
      ensures v[i] / WIDTH in low ==> v[i] <= slo
      ensures v[i] <= slo ==> v[i] / WIDTH in high
    {
      SampleRecorded(v, h, i);
    }
    CountCompare(v, low, high, slo);
  }

  /** What the pipeline reports always satisfies what the verifier checks. */
  lemma SummaryPasses(latencies: seq<nat>, slo: int, r: Report, order: seq<nat>)
    requires var v := SortedCopy(latencies);
             && r == Report(|v|, CountWithin(v, slo), Quantile(v, 50), Quantile(v, 95), Quantile(v, 99),
                            if v == [] then 0 else v[|v| - 1], r.histogram)
             && IsHistogram(v, r.histogram)
    requires IsBucketOrder(r.histogram, order)
    ensures RowPasses(r, order, slo)
  {
    hide CountIn, CountWithin, SortedCopy, Rank, Quantile, IsHistogram, SumWhere, Cumulative, Brackets;
    var v, h := SortedCopy(latencies), r.histogram;
    SortedAscending(latencies);
    QuantilesAscend(v);
    AllRecorded(v, h, order);
    ObjectiveBounds(v, h, order, slo);
    forall percent, j | percent in {50, 95, 99, 100} && r.verified > 0 && 0 <= j < |order|
                        && Brackets(h, order, j, Rank(percent, r.verified))
      ensures order[j] * WIDTH <= Quantile(v, percent) <= (order[j] + 1) * WIDTH
    {
      QuantileInBucket(v, h, order, percent, j);
    }
  }

  // ----- What the reported numbers are

  /** The positions of the latencies up to `x`. */
  function UpTo(l: seq<nat>, x: int): set<nat> {
    set i: nat | i < |l| && l[i] <= x
  }

  /** The positions of the latencies of bucket `b`, each bucket being 100 microseconds. */
  function InTenth(l: seq<nat>, b: nat): set<nat> {
    set i: nat | i < |l| && b * 100000 <= l[i] < (b + 1) * 100000
  }

  lemma {:induction false} WithinCounts(l: seq<nat>, x: int)
    ensures CountWithin(l, x) == |UpTo(l, x)|
  {
    if l != [] {
      var last := |l| - 1;
      WithinCounts(l[..last], x);
      assert UpTo(l, x) == UpTo(l[..last], x) + if l[last] <= x then {last} else {};
    } else {
      assert UpTo(l, x) == {};
    }
  }

  lemma {:induction false} BucketCounts(l: seq<nat>, b: nat)
    ensures CountIn(l, {b}) == |InTenth(l, b)|
  {
    if l != [] {
      var last := |l| - 1;
      BucketCounts(l[..last], b);
      assert l[last] / WIDTH in {b} <==> b * 100000 <= l[last] < (b + 1) * 100000;
      assert InTenth(l, b) == InTenth(l[..last], b) + if b * 100000 <= l[last] < (b + 1) * 100000 then {last} else {};
    } else {
      assert InTenth(l, b) == {};
    }
  }

  lemma {:induction false} InsertBuckets(x: nat, v: seq<nat>, buckets: set<nat>)
    ensures CountIn(InsertSorted(x, v), buckets) == CountIn(v, buckets) + if x / WIDTH in buckets then 1 else 0
  {
    hide InsertSorted;
    BucketsJoin([x], v, buckets);
    OneInBuckets(x, buckets);
    if v == [] || x <= v[0] {
      InsertFront(x, v);
    } else {
      InsertBehind(x, v);
      assert v == [v[0]] + v[1..];
      BucketsJoin([v[0]], v[1..], buckets);
      InsertBuckets(x, v[1..], buckets);
      BucketsJoin([v[0]], InsertSorted(x, v[1..]), buckets);
    }
  }

  lemma InsertFront(x: nat, v: seq<nat>)
    requires v == [] || x <= v[0]
    ensures InsertSorted(x, v) == [x] + v
  {
  }

  lemma InsertBehind(x: nat, v: seq<nat>)
    requires v != [] && x > v[0]
    ensures InsertSorted(x, v) == [v[0]] + InsertSorted(x, v[1..])
  {
  }

  lemma OneInBuckets(x: nat, buckets: set<nat>)
    ensures CountIn([x], buckets) == if x / WIDTH in buckets then 1 else 0
  {
    assert [x][..0] == [];
  }

  lemma {:induction false} BucketsJoin(a: seq<nat>, b: seq<nat>, buckets: set<nat>)
    ensures CountIn(a + b, buckets) == CountIn(a, buckets) + CountIn(b, buckets)
  {
    if b == [] {
      assert a + b == a;
    } else {
      BucketsJoin(a, b[..|b| - 1], buckets);
      assert (a + b)[..|a + b| - 1] == a + b[..|b| - 1];
    }
  }

  lemma {:induction false} SortedBuckets(v: seq<nat>, buckets: set<nat>)
    ensures CountIn(SortedCopy(v), buckets) == CountIn(v, buckets)
  {
    if v != [] {
      SortedBuckets(v[..|v| - 1], buckets);
      InsertBuckets(v[|v| - 1], SortedCopy(v[..|v| - 1]), buckets);
    }
  }

  lemma {:induction false} AscendingCounts(v: seq<nat>, r: nat, x: int)
    requires Ascending(v) && r <= |v|
    ensures r > 0 && v[r - 1] <= x ==> CountWithin(v, x) >= r
    ensures r < |v| && x < v[r] ==> CountWithin(v, x) <= r
    decreases |v|
  {
    if v != [] {
      var init := v[..|v| - 1];
      if r < |v| {
        AscendingCounts(init, r, x);
      } else {
        AscendingCounts(init, r - 1, x);
      }
    }
  }

  /** The sample is the nearest rank of the percentage: the least sample such that this share of all samples is up to it. */
  predicate IsNearestRank(l: seq<nat>, percent: nat, x: nat) {
    && x in l && 100 * |UpTo(l, x)| >= percent * |l|
    && forall y | y in l && y < x :: 100 * |UpTo(l, y)| < percent * |l|
  }

  lemma QuantileIsNearestRank(l: seq<nat>, percent: nat)
    requires l != [] && percent in {50, 95, 99, 100}
    ensures IsNearestRank(l, percent, Quantile(SortedCopy(l), percent))
  {
    hide SortedCopy, Rank, CountWithin, Quantile, UpTo;
    var v, x := SortedCopy(l), Quantile(SortedCopy(l), percent);
    var r := Rank(percent, |v|);
    RankBounds(percent, |v|);
    RankCovers(percent, |v|);
    SortedAscending(l);
    QuantileAt(v, percent);
    assert x in multiset(v) && x in l;
    AscendingCounts(v, r, x);
    SortedWithin(l, x);
    WithinCounts(l, x);
    forall y | y in l && y < x
      ensures 100 * |UpTo(l, y)| < percent * |l|
    {
      AscendingCounts(v, r - 1, y);
      SortedWithin(l, y);
      WithinCounts(l, y);
    }
  }

  lemma QuantileAt(v: seq<nat>, percent: nat)
    requires v != [] && percent in {50, 95, 99, 100}
    ensures 1 <= Rank(percent, |v|) <= |v| && Quantile(v, percent) == v[Rank(percent, |v|) - 1]
  {
    RankBounds(percent, |v|);
  }

  lemma RankCovers(percent: nat, n: nat)
    ensures 100 * Rank(percent, n) >= percent * n > 100 * (Rank(percent, n) - 1)
  {
    var x := percent * n;
    assert 100 * ((x + 99) / 100) >= x > 100 * ((x + 99) / 100 - 1);
  }

  /** The largest sample, or zero without any. */
  predicate IsLargest(l: seq<nat>, x: nat) {
    if l == [] then x == 0 else x in l && forall y | y in l :: y <= x
  }

  /** What a report says about the latencies, in whatever order they came. */
  ghost predicate Describes(r: Report, l: seq<nat>, slo: int) {
    && r.verified == |l| && r.withinSlo == |UpTo(l, slo)| && IsLargest(l, r.max)
    && (l == [] ==> r.p50 == r.p95 == r.p99 == 0)
    && (l != [] ==> IsNearestRank(l, 50, r.p50) && IsNearestRank(l, 95, r.p95) && IsNearestRank(l, 99, r.p99))
    && forall b: nat :: (b in r.histogram <==> |InTenth(l, b)| > 0) && (b in r.histogram ==> r.histogram[b] == |InTenth(l, b)|)
  }

  lemma ReportDescribes(l: seq<nat>, slo: int, r: Report)
    requires var v := SortedCopy(l);
             && r == Report(|v|, CountWithin(v, slo), Quantile(v, 50), Quantile(v, 95), Quantile(v, 99),
                            if v == [] then 0 else v[|v| - 1], r.histogram)
             && IsHistogram(v, r.histogram)
    ensures Describes(r, l, slo)
  {
    var v := SortedCopy(l);
    SortedWithin(l, slo);
    WithinCounts(l, slo);
    if l != [] {
      QuantileIsNearestRank(l, 50);
      QuantileIsNearestRank(l, 95);
      QuantileIsNearestRank(l, 99);
    }
    LargestIsLast(l);
    hide SortedCopy, CountWithin, CountIn, UpTo, InTenth, IsNearestRank, IsLargest, Rank;
    forall b: nat
      ensures (b in r.histogram <==> |InTenth(l, b)| > 0) && (b in r.histogram ==> r.histogram[b] == |InTenth(l, b)|)
    {
      SortedBuckets(l, {b});
      BucketCounts(l, b);
    }
  }

  lemma LargestIsLast(l: seq<nat>)
    ensures var v := SortedCopy(l);
            IsLargest(l, if v == [] then 0 else v[|v| - 1])
  {
    SortedAscending(l);
    hide SortedCopy;
    var v := SortedCopy(l);
    forall y | y in l
      ensures v != [] && y <= v[|v| - 1]
    {
      assert y in multiset(v);
    }
    if v != [] {
      assert v[|v| - 1] in multiset(v);
    }
  }

  /** What the pipeline reports of the latencies of verified requests. It describes them, and in whatever ascending order of
      buckets it is verified, it passes. */
  method Summarize(latencies: seq<nat>, slo: int) returns (r: Report)
    ensures var v := SortedCopy(latencies);
            && r == Report(|v|, CountWithin(v, slo), Quantile(v, 50), Quantile(v, 95), Quantile(v, 99),
                           if v == [] then 0 else v[|v| - 1], r.histogram)
            && IsHistogram(v, r.histogram)
    ensures Describes(r, latencies, slo)
    ensures forall order | IsBucketOrder(r.histogram, order) :: RowPasses(r, order, slo)
  {
    hide IsHistogram, IsBucketOrder, RowPasses, SortedCopy, Quantile, CountWithin, Describes;
    var v := SortedCopy(latencies);
    var h := Histogram(v);
    r := Report(|v|, CountWithin(v, slo), Quantile(v, 50), Quantile(v, 95), Quantile(v, 99),
                if v == [] then 0 else v[|v| - 1], h);
    ReportDescribes(latencies, slo, r);
    forall order | IsBucketOrder(r.histogram, order)
      ensures RowPasses(r, order, slo)
    {
      SummaryPasses(latencies, slo, r, order);
    }
  }

  // ----- What the checks detect

  /** The value lies in the 100 microseconds of the sample, both ends included. */
  predicate Beside(value: nat, sample: nat) {
    sample / 100000 * 100000 <= value <= sample / 100000 * 100000 + 100000
  }

  /** The samples whose whole 100 microseconds meet the objective. */
  function Surely(l: seq<nat>, slo: int): set<nat> {
    set i: nat | i < |l| && l[i] / 100000 * 100000 + 100000 <= slo
  }

  /** The samples some of whose 100 microseconds meet the objective. */
  function Maybe(l: seq<nat>, slo: int): set<nat> {
    set i: nat | i < |l| && l[i] / 100000 * 100000 <= slo
  }

  lemma {:induction false} BracketExists(h: map<nat, nat>, order: seq<nat>, n: nat, rank: nat) returns (j: nat)
    requires n <= |order| && (forall b | b in order :: b in h) && 1 <= rank <= Cumulative(h, order, n)
    ensures j < n && Brackets(h, order, j, rank)
  {
    if rank <= Cumulative(h, order, n - 1) {
      j := BracketExists(h, order, n - 1, rank);
    } else {
      j := n - 1;
    }
  }

  lemma QuantilePassesExactly(v: seq<nat>, r: Report, order: seq<nat>, percent: nat, value: nat)
    requires Ascending(v) && v != [] && IsHistogram(v, r.histogram) && IsBucketOrder(r.histogram, order)
    requires r.verified == |v| && percent in {50, 95, 99, 100}
    ensures InBucket(r, order, percent, value) <==> Beside(value, Quantile(v, percent))
  {
    hide CountIn, Cumulative, IsHistogram, Rank, Ascending;
    var rank := Rank(percent, |v|);
    RankBounds(percent, |v|);
    AllRecorded(v, r.histogram, order);
    var j := BracketExists(r.histogram, order, |order|, rank);
    BucketOfRank(v, r.histogram, order, rank, j);
    assert order[j] * WIDTH == Quantile(v, percent) / 100000 * 100000;
    hide Brackets;
    forall i | 0 <= i < |order| && Brackets(r.histogram, order, i, rank)
      ensures i == j
    {
      BracketUnique(r.histogram, order, i, j, rank);
    }
  }

  lemma {:induction false} CountInPositions(v: seq<nat>, buckets: set<nat>)
    ensures CountIn(v, buckets) == |set i: nat | i < |v| && v[i] / 100000 in buckets|
  {
    var positions := set i: nat | i < |v| && v[i] / 100000 in buckets;
    if v != [] {
      var last := |v| - 1;
      CountInPositions(v[..last], buckets);
      var before := set i: nat | i < |v[..last]| && v[..last][i] / 100000 in buckets;
      assert positions == before + if v[last] / 100000 in buckets then {last} else {};
    } else {
      assert positions == {};
    }
  }

  lemma SumWherePositions(v: seq<nat>, h: map<nat, nat>, order: seq<nat>, slo: int)
    requires IsHistogram(v, h) && IsBucketOrder(h, order)
    ensures SumWhere(h, order, |order|, Definite(slo)) == |Surely(v, slo)|
    ensures SumWhere(h, order, |order|, Possible(slo)) == |Maybe(v, slo)|
  {
    hide SumWhere, CountIn, IsHistogram;
    assert order[..|order|] == order;
    var low, high := Accepted(order, Definite(slo)), Accepted(order, Possible(slo));
    SumWhereCounts(v, h, order, |order|, Definite(slo));
    SumWhereCounts(v, h, order, |order|, Possible(slo));
    CountInPositions(v, low);
    CountInPositions(v, high);
    forall i: nat | i < |v|
      ensures v[i] / 100000 in order
    {
      SampleRecorded(v, h, i);
    }
    assert (set i: nat | i < |v| && v[i] / 100000 in low) == Surely(v, slo);
    assert (set i: nat | i < |v| && v[i] / 100000 in high) == Maybe(v, slo);
  }

  /** For a row with the histogram of these samples the checks detect exactly this: a wrong number of samples, a quantile or
      maximum out of order or outside the 100 microseconds of the true one, and a count within the objective that no
      samples with this histogram can have. */
  lemma RowPassesExactly(v: seq<nat>, r: Report, order: seq<nat>, slo: int)
    requires Ascending(v) && IsHistogram(v, r.histogram) && IsBucketOrder(r.histogram, order)
    ensures RowPasses(r, order, slo) <==>
              && r.verified == |v| && r.p50 <= r.p95 <= r.p99 <= r.max
              && (v != [] ==> Beside(r.p50, Quantile(v, 50)) && Beside(r.p95, Quantile(v, 95)) && Beside(r.p99, Quantile(v, 99))
                              && Beside(r.max, v[|v| - 1]))
              && |Surely(v, slo)| <= r.withinSlo <= |Maybe(v, slo)|
  {
    hide Cumulative, SumWhere, InBucket, Beside, Surely, Maybe, IsHistogram, CountIn, Rank, Quantile;
    AllRecorded(v, r.histogram, order);
    SumWherePositions(v, r.histogram, order, slo);
    QuantilesAscend(v);
    if r.verified == |v| {
      if v != [] {
        QuantilePassesExactly(v, r, order, 50, r.p50);
        QuantilePassesExactly(v, r, order, 95, r.p95);
        QuantilePassesExactly(v, r, order, 99, r.p99);
        QuantilePassesExactly(v, r, order, 100, r.max);
      } else {
        NothingToCheck(r, order, 50, r.p50);
        NothingToCheck(r, order, 95, r.p95);
        NothingToCheck(r, order, 99, r.p99);
        NothingToCheck(r, order, 100, r.max);
      }
    }
  }

  lemma NothingToCheck(r: Report, order: seq<nat>, percent: nat, value: nat)
    requires r.verified == 0 && IsBucketOrder(r.histogram, order)
    ensures InBucket(r, order, percent, value)
  {
  }
}
