/** Contribution and whole-host break-even of paid access, in exact arithmetic. */
module BreakEven {
  import opened Options

  datatype Assumptions = Assumptions(
    price: real, funding: real, spendFraction: real, fundingFixed: real, fundingRate: real, publisherShare: real,
    risk: real, external: real, hostHourly: real, utilization: real, payoutThreshold: real, payoutFixed: real,
    payoutRate: real, publishers: int, publisherMonthly: real, platformMonthly: real)

  predicate Valid(a: Assumptions) {
    && a.fundingFixed >= 0.0 && a.external >= 0.0 && a.hostHourly >= 0.0 && a.payoutFixed >= 0.0
    && a.publisherMonthly >= 0.0 && a.platformMonthly >= 0.0
    && a.price > 0.0 && a.funding > 0.0 && a.payoutThreshold > 0.0
    && 0.0 < a.spendFraction <= 1.0 && 0.0 < a.utilization <= 1.0
    && 0.0 <= a.publisherShare <= 1.0 && 0.0 <= a.fundingRate <= 1.0 && 0.0 <= a.risk <= 1.0 && 0.0 <= a.payoutRate <= 1.0
    && a.publishers >= 1
  }

  function Ceiling(x: real): (n: int)
    ensures n as real - 1.0 < x <= n as real
  {
    -(-x).Floor
  }

  datatype Evaluation = Evaluation(
    contribution: real, compute: real, beforeCompute: real, fixed: real, capacity: real, hostMonthly: real,
    surplus: real, denominator: real, requests: Option<int>, allocations: Option<int>, priceFloor: Option<real>)

  function FeeRate(a: Assumptions): real
    requires Valid(a)
  {
    (a.fundingRate + a.fundingFixed / a.funding) / a.spendFraction
  }

  function PayoutRate(a: Assumptions): real
    requires Valid(a)
  {
    a.payoutRate + a.payoutFixed / a.payoutThreshold
  }

  function Compute(a: Assumptions, perSecond: real): real
    requires Valid(a) && perSecond > 0.0
  {
    Positive(perSecond, a.utilization);
    a.hostHourly / (3600.0 * perSecond * a.utilization)
  }

  lemma Positive(x: real, y: real)
    requires x > 0.0 && y > 0.0
    ensures 3600.0 * x * y > 0.0
  {
    assert x * y > 0.0;
    assert 3600.0 * x * y == 3600.0 * (x * y);
  }

  function Contribution(a: Assumptions, perSecond: real): real
    requires Valid(a) && perSecond > 0.0
  {
    var publisher := a.price * a.publisherShare;
    a.price - publisher - a.price * FeeRate(a) - a.price * a.risk - publisher * PayoutRate(a) - a.external
    - Compute(a, perSecond)
  }

  function Denominator(a: Assumptions): real
    requires Valid(a)
  {
    1.0 - a.publisherShare - FeeRate(a) - a.risk - a.publisherShare * PayoutRate(a)
  }

  function Capacity(a: Assumptions, perSecond: real): real {
    perSecond * 3600.0 * 730.0 * a.utilization
  }

  /** What one access leaves before compute is charged. */
  function BeforeCompute(a: Assumptions, perSecond: real): real
    requires Valid(a) && perSecond > 0.0
  {
    Contribution(a, perSecond) + Compute(a, perSecond)
  }

  function FixedMonthly(a: Assumptions): real {
    a.platformMonthly + a.publishers as real * a.publisherMonthly
  }

  function HostMonthly(a: Assumptions): real {
    a.hostHourly * 730.0
  }

  // ----- The whole-host search

  /** Requests that cover the fixed cost and `m` hosts. */
  function Covering(fixed: real, host: real, before: real, m: int): int
    requires before > 0.0
  {
    Ceiling((fixed + m as real * host) / before)
  }

  /** Hosts whose joint surplus covers the fixed cost, and one more when their requests do not fit on them. */
  function Search(fixed: real, host: real, before: real, capacity: real): (r: (int, int))
    requires before > 0.0 && before * capacity - host > 0.0
  {
    var surplus := before * capacity - host;
    var m := if Ceiling(fixed / surplus) > 1 then Ceiling(fixed / surplus) else 1;
    var n := Covering(fixed, host, before, m);
    if n > (m as real * capacity).Floor then (m + 1, Covering(fixed, host, before, m + 1)) else (m, n)
  }

  function Evaluate(a: Assumptions, perSecond: real): Option<Evaluation> {
    if !Valid(a) || perSecond <= 0.0 then None
    else
      var contribution, compute := Contribution(a, perSecond), Compute(a, perSecond);
      var before, capacity, host := BeforeCompute(a, perSecond), Capacity(a, perSecond), HostMonthly(a);
      var fixed, denominator := FixedMonthly(a), Denominator(a);
      var surplus := before * capacity - host;
      var found := if surplus > 0.0 then
                     PositiveFactor(before, capacity, a, perSecond, host);
                     Some(Search(fixed, host, before, capacity))
                   else None;
      Some(Evaluation(contribution, compute, before, fixed, capacity, host, surplus, denominator,
                      if found.Some? then Some(found.value.1) else None,
                      if found.Some? then Some(found.value.0) else None,
                      if denominator > 0.0 then Some((compute + a.external) / denominator) else None))
  }

  lemma PositiveFactor(before: real, capacity: real, a: Assumptions, perSecond: real, host: real)
    requires Valid(a) && perSecond > 0.0 && capacity == Capacity(a, perSecond) && host == HostMonthly(a)
    requires before * capacity - host > 0.0
    ensures before > 0.0 && capacity > 0.0
  {
    CapacityPositive(a, perSecond);
    Order(capacity, before, 0.0);
    assert before * capacity == capacity * before;
  }

  /** Multiplying by a positive factor keeps order. */
  lemma Order(c: real, x: real, y: real)
    requires c > 0.0
    ensures x <= y <==> c * x <= c * y
  {
    assert c * (y - x) == c * y - c * x;
    if x <= y {
      assert c * (y - x) >= 0.0;
    } else {
      assert c * (y - x) < 0.0;
    }
  }

  lemma CapacityPositive(a: Assumptions, perSecond: real)
    requires Valid(a) && perSecond > 0.0
    ensures Capacity(a, perSecond) == 2628000.0 * (perSecond * a.utilization) > 0.0
  {
    assert perSecond * a.utilization > 0.0;
    assert perSecond * 3600.0 * 730.0 * a.utilization == 2628000.0 * (perSecond * a.utilization);
  }

  // ----- What whole hosts cost

  /** Hosts needed for `n` requests. */
  function Hosts(n: int, capacity: real): int
    requires capacity > 0.0
  {
    Ceiling(n as real / capacity)
  }

  /** Contribution of `n` requests before compute, less fixed cost and whole hosts. */
  function Profit(n: int, fixed: real, host: real, before: real, capacity: real): real
    requires capacity > 0.0
  {
    before * n as real - fixed - host * Hosts(n, capacity) as real
  }

  /** The count is profitable and every smaller one is not. */
  ghost predicate LeastProfitable(n: int, fixed: real, host: real, before: real, capacity: real)
    requires capacity > 0.0
  {
    && n >= 0 && Profit(n, fixed, host, before, capacity) >= 0.0
    && forall k | 0 <= k < n :: Profit(k, fixed, host, before, capacity) < 0.0
  }

  predicate Economy(fixed: real, host: real, before: real, capacity: real) {
    fixed >= 0.0 && host >= 0.0 && before > 0.0 && capacity > 0.0 && before * capacity - host > 0.0
  }

  lemma Quotients(x: real, d: real, n: int)
    requires d > 0.0
    ensures x / d <= n as real <==> x <= n as real * d
    ensures x / d < n as real <==> x < n as real * d
  {
    var q := x / d;
    assert q * d == x;
    if q <= n as real {
      assert (n as real - q) * d >= 0.0;
    } else {
      assert (q - n as real) * d > 0.0;
    }
    if q < n as real {
      assert (n as real - q) * d > 0.0;
    } else {
      assert (q - n as real) * d >= 0.0;
    }
  }

  /** Hosts are the least whole number with enough capacity. */
  lemma HostsLeast(n: int, capacity: real, h: int)
    requires capacity > 0.0
    ensures Hosts(n, capacity) <= h <==> n as real <= h as real * capacity
  {
    Quotients(n as real, capacity, h);
  }

  /** The covering count is the least that pays for fixed cost and `m` hosts. */
  lemma CoveringLeast(fixed: real, host: real, before: real, m: int, n: int)
    requires before > 0.0
    ensures Covering(fixed, host, before, m) <= n <==> fixed + m as real * host <= before * n as real
  {
    Quotients(fixed + m as real * host, before, n);
  }

  /** With `h` hosts filled to capacity, what remains before the fixed cost is `h` times the surplus. */
  lemma FullHosts(host: real, before: real, capacity: real, h: int)
    ensures before * (h as real * capacity) - host * h as real == h as real * (before * capacity - host)
  {
    var x := h as real;
    assert before * (x * capacity) == x * (before * capacity);
    assert x * (before * capacity - host) == x * (before * capacity) - x * host;
  }

  /** Requests that fit on hosts whose surplus does not reach the fixed cost are not profitable. */
  lemma TooFewHosts(k: int, h: int, fixed: real, host: real, before: real, capacity: real)
    requires Economy(fixed, host, before, capacity) && h == Hosts(k, capacity)
    requires h as real * (before * capacity - host) < fixed
    ensures Profit(k, fixed, host, before, capacity) < 0.0
  {
    HostsLeast(k, capacity, h);
    FullHosts(host, before, capacity, h);
    var full := h as real * capacity;
    assert before * (full - k as real) >= 0.0;
    assert before * full - before * k as real == before * (full - k as real);
  }

  /** Requests below the covering count of `m` hosts that need at least `m` hosts are not profitable. */
  lemma BelowCovering(k: int, m: int, fixed: real, host: real, before: real, capacity: real)
    requires Economy(fixed, host, before, capacity) && k < Covering(fixed, host, before, m) && m <= Hosts(k, capacity)
    ensures Profit(k, fixed, host, before, capacity) < 0.0
  {
    CoveringLeast(fixed, host, before, m, k);
    var h := Hosts(k, capacity);
    assert host * (h - m) as real >= 0.0;
    assert host * h as real == host * m as real + host * (h - m) as real;
    assert m as real * host == host * m as real;
  }

  /** The number of hosts that the search starts with. */
  function FirstHosts(fixed: real, surplus: real): (m: int)
    requires surplus > 0.0
    ensures m >= 1
  {
    if Ceiling(fixed / surplus) > 1 then Ceiling(fixed / surplus) else 1
  }

  lemma FirstHostsLeast(fixed: real, surplus: real, h: int)
    requires surplus > 0.0 && fixed > 0.0 && h < FirstHosts(fixed, surplus)
    ensures h as real * surplus < fixed
  {
    Quotients(fixed, surplus, h);
    if FirstHosts(fixed, surplus) == 1 {
      assert h as real * surplus <= 0.0;
    }
  }

  /** No count below the result is profitable. */
  lemma NothingSmaller(fixed: real, host: real, before: real, capacity: real, k: int)
    requires Economy(fixed, host, before, capacity) && fixed > 0.0
    requires k < Search(fixed, host, before, capacity).1
    ensures Profit(k, fixed, host, before, capacity) < 0.0
  {
    hide Profit, Covering, Ceiling, Hosts;
    var surplus := before * capacity - host;
    var m, h := FirstHosts(fixed, surplus), Hosts(k, capacity);
    if h < m {
      FirstHostsLeast(fixed, surplus, h);
      TooFewHosts(k, h, fixed, host, before, capacity);
    } else if Search(fixed, host, before, capacity).0 == m || h > m {
      BelowCovering(k, Search(fixed, host, before, capacity).0, fixed, host, before, capacity);
    } else {
      HostsLeast(k, capacity, m);
      assert k <= (m as real * capacity).Floor;
      BelowCovering(k, m, fixed, host, before, capacity);
    }
  }

  /** One host fewer than reported would not hold the reported requests. */
  lemma AllocationsNeeded(fixed: real, host: real, before: real, capacity: real)
    requires Economy(fixed, host, before, capacity) && fixed > 0.0
    ensures var (m, n) := Search(fixed, host, before, capacity); Hosts(n, capacity) >= m
  {
    hide Covering, Ceiling, Hosts;
    var surplus := before * capacity - host;
    var (m, n) := Search(fixed, host, before, capacity);
    var first := FirstHosts(fixed, surplus);
    CoveringLeast(fixed, host, before, m, n);
    HostsLeast(n, capacity, m - 1);
    if m == first {
      FirstHostsLeast(fixed, surplus, m - 1);
      FullHosts(host, before, capacity, m - 1);
      EnoughRequests(fixed, host, before, capacity, m, n);
    } else {
      CoveringGrows(fixed, host, before, first);
    }
  }

  lemma EnoughRequests(fixed: real, host: real, before: real, capacity: real, m: int, n: int)
    requires Economy(fixed, host, before, capacity)
    requires (m - 1) as real * (before * capacity - host) < fixed && fixed + m as real * host <= before * n as real
    ensures n as real > (m - 1) as real * capacity
  {
    var full := (m - 1) as real * capacity;
    FullHosts(host, before, capacity, m - 1);
    assert m as real * host == (m - 1) as real * host + host;
    assert host * (m - 1) as real == (m - 1) as real * host;
    Order(before, n as real, full);
  }

  lemma CoveringGrows(fixed: real, host: real, before: real, m: int)
    requires host >= 0.0 && before > 0.0
    ensures Covering(fixed, host, before, m) <= Covering(fixed, host, before, m + 1)
  {
    var n := Covering(fixed, host, before, m + 1);
    CoveringLeast(fixed, host, before, m + 1, n);
    CoveringLeast(fixed, host, before, m, n);
    assert (m + 1) as real * host == m as real * host + host;
  }

  /** `n` requests pay for the fixed cost and `m` hosts. */
  predicate Pay(fixed: real, host: real, before: real, m: int, n: int) {
    fixed + m as real * host <= before * n as real
  }

  /** The whole requests that fit on `m` hosts pay for these and for the fixed cost. */
  predicate WholePay(fixed: real, host: real, before: real, capacity: real, m: int) {
    Pay(fixed, host, before, m, (m as real * capacity).Floor)
  }

  lemma WholePayFits(fixed: real, host: real, before: real, capacity: real, m: int)
    requires before > 0.0
    ensures Covering(fixed, host, before, m) as real <= m as real * capacity <==> WholePay(fixed, host, before, capacity, m)
    ensures Covering(fixed, host, before, m) <= (m as real * capacity).Floor <==> WholePay(fixed, host, before, capacity, m)
  {
    hide Covering;
    var full := m as real * capacity;
    CoveringLeast(fixed, host, before, m, full.Floor);
  }

  /** Whole requests pay on the least number of hosts whose joint surplus covers the fixed cost, or on one host more. */
  predicate OneCorrectionPays(fixed: real, host: real, before: real, capacity: real)
    requires before * capacity - host > 0.0
  {
    var f := FirstHosts(fixed, before * capacity - host);
    WholePay(fixed, host, before, capacity, f) || WholePay(fixed, host, before, capacity, f + 1)
  }

  /** The result is the least profitable count, with exactly the hosts it needs, if and only if there is a fixed cost, and
      the least number of hosts whose joint surplus covers it, or one host more, pays with whole requests. The code corrects
      the number of hosts once and does not look again. */
  lemma BreakEvenExactly(fixed: real, host: real, before: real, capacity: real)
    requires Economy(fixed, host, before, capacity)
    ensures var (m, n) := Search(fixed, host, before, capacity);
            (LeastProfitable(n, fixed, host, before, capacity) && m == Hosts(n, capacity))
            <==> fixed > 0.0 && OneCorrectionPays(fixed, host, before, capacity)
  {
    hide Profit, Covering, Ceiling, WholePay;
    var (m, n) := Search(fixed, host, before, capacity);
    var f := FirstHosts(fixed, before * capacity - host);
    WholePayFits(fixed, host, before, capacity, f);
    WholePayFits(fixed, host, before, capacity, f + 1);
    hide Hosts, FirstHosts;
    HostsLeast(n, capacity, m);
    if fixed > 0.0 {
      AllocationsNeeded(fixed, host, before, capacity);
      if n as real <= m as real * capacity {
        ResultProfits(fixed, host, before, capacity);
        SmallerUnprofitable(fixed, host, before, capacity);
      }
    } else {
      NoFixedCost(fixed, host, before, capacity);
    }
  }

  lemma SmallerUnprofitable(fixed: real, host: real, before: real, capacity: real)
    requires Economy(fixed, host, before, capacity) && fixed > 0.0
    ensures forall k | 0 <= k < Search(fixed, host, before, capacity).1 :: Profit(k, fixed, host, before, capacity) < 0.0
  {
    hide Search, Profit;
    forall k | 0 <= k < Search(fixed, host, before, capacity).1
      ensures Profit(k, fixed, host, before, capacity) < 0.0
    {
      NothingSmaller(fixed, host, before, capacity, k);
    }
  }

  /** The first count that `m` hosts no longer hold. */
  function FirstBeyond(capacity: real, m: int): int {
    (m as real * capacity).Floor + 1
  }

  /** If not even the corrected hosts pay, the reported count is the first that they no longer hold. */
  lemma CorrectionOvershoots(fixed: real, host: real, before: real, capacity: real)
    requires Economy(fixed, host, before, capacity)
    requires !OneCorrectionPays(fixed, host, before, capacity)
    ensures var f := FirstHosts(fixed, before * capacity - host);
            Search(fixed, host, before, capacity) == (f + 1, FirstBeyond(capacity, f + 1))
  {
    hide Covering, Ceiling, WholePay, FirstHosts;
    var f := FirstHosts(fixed, before * capacity - host);
    WholePayFits(fixed, host, before, capacity, f);
    FullHostsPay(fixed, host, before, capacity);
    BeyondCovers(fixed, host, before, capacity, f + 1, (f + 1) as real * capacity);
    SearchCorrects(fixed, host, before, capacity);
  }

  lemma SearchCorrects(fixed: real, host: real, before: real, capacity: real)
    requires Economy(fixed, host, before, capacity)
    requires var f := FirstHosts(fixed, before * capacity - host);
             Covering(fixed, host, before, f) > (f as real * capacity).Floor
    ensures var f := FirstHosts(fixed, before * capacity - host);
            Search(fixed, host, before, capacity) == (f + 1, Covering(fixed, host, before, f + 1))
  {
    hide Covering, Ceiling;
  }

  /** Up to fractions of requests, one host more than covers the fixed cost always pays. */
  lemma FullHostsPay(fixed: real, host: real, before: real, capacity: real)
    requires Economy(fixed, host, before, capacity)
    ensures var m := FirstHosts(fixed, before * capacity - host) + 1;
            fixed + m as real * host <= before * (m as real * capacity)
  {
    hide FirstHosts, Ceiling;
    var surplus := before * capacity - host;
    var f := FirstHosts(fixed, surplus);
    EnoughSurplus(fixed, surplus, f);
    OneMoreHost(surplus, f);
    FullHosts(host, before, capacity, f + 1);
  }

  lemma BeyondCovers(fixed: real, host: real, before: real, capacity: real, m: int, full: real)
    requires before > 0.0 && full == m as real * capacity && fixed + m as real * host <= before * full
    requires !WholePay(fixed, host, before, capacity, m)
    ensures Covering(fixed, host, before, m) == FirstBeyond(capacity, m)
  {
    hide Covering;
    CoveringLeast(fixed, host, before, m, full.Floor);
    CoveringLeast(fixed, host, before, m, full.Floor + 1);
    Order(before, full, (full.Floor + 1) as real);
  }

  /** The count alone is least if and only if there is nothing to pay at all, or there is a fixed cost and either one of the
      two numbers of hosts pays with whole requests, or the first count beyond the corrected hosts happens to be profitable
      with the hosts it really needs. */
  lemma LeastCountExactly(fixed: real, host: real, before: real, capacity: real)
    requires Economy(fixed, host, before, capacity)
    ensures var n := Search(fixed, host, before, capacity).1;
            var f := FirstHosts(fixed, before * capacity - host);
            LeastProfitable(n, fixed, host, before, capacity)
            <==> if fixed == 0.0 then host == 0.0
                 else || OneCorrectionPays(fixed, host, before, capacity)
                      || Profit(FirstBeyond(capacity, f + 1), fixed, host, before, capacity) >= 0.0
  {
    var f := FirstHosts(fixed, before * capacity - host);
    if fixed == 0.0 {
      NothingToPay(host, before, capacity);
    } else {
      hide Search, Profit, WholePay, Hosts, FirstHosts, FirstBeyond;
      BreakEvenExactly(fixed, host, before, capacity);
      if !OneCorrectionPays(fixed, host, before, capacity) {
        CorrectionOvershoots(fixed, host, before, capacity);
        BeyondPositive(fixed, before * capacity - host, capacity);
        SmallerUnprofitable(fixed, host, before, capacity);
      }
    }
  }

  lemma BeyondPositive(fixed: real, surplus: real, capacity: real)
    requires surplus > 0.0 && capacity > 0.0
    ensures FirstBeyond(capacity, FirstHosts(fixed, surplus) + 1) >= 0
  {
    var m := FirstHosts(fixed, surplus) + 1;
    assert m as real * capacity > 0.0;
  }

  lemma NothingToPay(host: real, before: real, capacity: real)
    requires Economy(0.0, host, before, capacity)
    ensures LeastProfitable(Search(0.0, host, before, capacity).1, 0.0, host, before, capacity) <==> host == 0.0
  {
    Quotients(0.0, capacity, 0);
    assert Profit(0, 0.0, host, before, capacity) == 0.0;
    Quotients(0.0, before * capacity - host, 0);
    var f := FirstHosts(0.0, before * capacity - host);
    assert f == 1;
    CoveringLeast(0.0, host, before, 1, 0);
    CoveringLeast(0.0, host, before, 2, 0);
    hide Covering;
    CoveringLeast(0.0, host, before, 1, -1);
  }

  lemma ResultProfits(fixed: real, host: real, before: real, capacity: real)
    requires Economy(fixed, host, before, capacity) && fixed > 0.0
    requires var (m, n) := Search(fixed, host, before, capacity); n as real <= m as real * capacity
    ensures var n := Search(fixed, host, before, capacity).1; n >= 0 && Profit(n, fixed, host, before, capacity) >= 0.0
  {
    hide Ceiling, Hosts, Profit, Covering;
    CoveringProfits(fixed, host, before, capacity, Search(fixed, host, before, capacity).0);
  }

  lemma CoveringProfits(fixed: real, host: real, before: real, capacity: real, m: int)
    requires Economy(fixed, host, before, capacity) && fixed > 0.0 && m >= 1
    requires Covering(fixed, host, before, m) as real <= m as real * capacity
    ensures var n := Covering(fixed, host, before, m); n >= 0 && Profit(n, fixed, host, before, capacity) >= 0.0
  {
    hide Ceiling, Hosts, Covering;
    var n := Covering(fixed, host, before, m);
    HostsLeast(n, capacity, m);
    CoveringLeast(fixed, host, before, m, n);
    MoreHostsCostMore(host, Hosts(n, capacity), m);
    MoreHostsCostMore(host, 0, m);
    hide Economy;
    Order(before, 0.0, n as real);
  }

  lemma MoreHostsCostMore(host: real, h: int, m: int)
    requires host >= 0.0 && h <= m
    ensures host * h as real <= host * m as real == m as real * host
  {
    assert host * (m - h) as real >= 0.0;
    assert host * m as real == host * h as real + host * (m - h) as real;
  }

  /** Without a fixed cost, no request at all already breaks even. */
  lemma NoFixedCost(fixed: real, host: real, before: real, capacity: real)
    requires Economy(fixed, host, before, capacity) && fixed == 0.0
    ensures var (m, n) := Search(fixed, host, before, capacity);
            !(LeastProfitable(n, fixed, host, before, capacity) && m == Hosts(n, capacity))
  {
    var (m, n) := Search(fixed, host, before, capacity);
    Quotients(0.0, capacity, 0);
    assert Hosts(0, capacity) == 0;
    assert Profit(0, fixed, host, before, capacity) == 0.0;
  }

  /** A surplus of at least one request's contribution per host is enough. */
  lemma SurplusSuffices(fixed: real, host: real, before: real, capacity: real)
    requires Economy(fixed, host, before, capacity) && fixed > 0.0 && before * capacity - host >= before
    ensures var (m, n) := Search(fixed, host, before, capacity);
            LeastProfitable(n, fixed, host, before, capacity) && m == Hosts(n, capacity)
  {
    hide LeastProfitable, Hosts, Ceiling, Covering, WholePay, Search;
    var first := FirstHosts(fixed, before * capacity - host);
    CorrectionFits(fixed, host, before, capacity, first);
    WholePayFits(fixed, host, before, capacity, first + 1);
    BreakEvenExactly(fixed, host, before, capacity);
  }

  lemma CorrectionFits(fixed: real, host: real, before: real, capacity: real, first: int)
    requires Economy(fixed, host, before, capacity) && before * capacity - host >= before
    requires first == FirstHosts(fixed, before * capacity - host)
    ensures Covering(fixed, host, before, first + 1) as real <= (first + 1) as real * capacity
  {
    hide Covering, Ceiling, FirstHosts;
    var surplus, m := before * capacity - host, first + 1;
    var n := Covering(fixed, host, before, m);
    EnoughSurplus(fixed, surplus, first);
    OneMoreHost(surplus, first);
    FullHosts(host, before, capacity, m);
    CoveringLeast(fixed, host, before, m, n - 1);
    Order(before, n as real, m as real * capacity);
    CorrectionSum(fixed, surplus, before, first as real * surplus, m as real * surplus, m as real * host, host * m as real,
                  before * n as real, before * (n - 1) as real, before * (m as real * capacity));
  }

  lemma OneMoreHost(surplus: real, h: int)
    ensures (h + 1) as real * surplus == h as real * surplus + surplus
  {
  }

  /** The sums of the correction, with every product named. */
  lemma CorrectionSum(fixed: real, surplus: real, before: real, firstSurplus: real, allSurplus: real, cost: real, cost': real,
                      paid: real, paidBefore: real, full: real)
    requires cost == cost' && paidBefore == paid - before && surplus >= before && fixed <= firstSurplus
    requires allSurplus == firstSurplus + surplus && full - cost' == allSurplus && paidBefore < fixed + cost
    ensures paid <= full
  {
  }

  lemma EnoughSurplus(fixed: real, surplus: real, m: int)
    requires surplus > 0.0 && m == FirstHosts(fixed, surplus)
    ensures fixed <= m as real * surplus
  {
    Quotients(fixed, surplus, m);
  }

  // ----- Consistency of the report

  lemma ComputeAtCapacity(a: Assumptions, perSecond: real)
    requires Valid(a) && perSecond > 0.0
    ensures Compute(a, perSecond) * Capacity(a, perSecond) == a.hostHourly * 730.0
  {
    var load := perSecond * a.utilization;
    CapacityPositive(a, perSecond);
    assert load > 0.0;
    var c := a.hostHourly / (3600.0 * load);
    assert 3600.0 * perSecond * a.utilization == 3600.0 * load;
    assert c * (3600.0 * load) == a.hostHourly;
    assert c * (2628000.0 * load) == 730.0 * (c * (3600.0 * load));
  }

  /** One host's surplus is the contribution of a full host: charging compute per access and per host agree there. */
  lemma SurplusIsContribution(a: Assumptions, perSecond: real)
    requires Evaluate(a, perSecond).Some?
    ensures var e := Evaluate(a, perSecond).value; e.surplus == e.contribution * e.capacity
  {
    hide Contribution, Compute, Capacity, Denominator, Search;
    ComputeAtCapacity(a, perSecond);
    var x, y, z := Contribution(a, perSecond), Compute(a, perSecond), Capacity(a, perSecond);
    assert (x + y) * z == x * z + y * z;
  }

  /** Every part of the contribution but external cost and compute scales with the price. */
  lemma ContributionByPrice(a: Assumptions, perSecond: real)
    requires Valid(a) && perSecond > 0.0
    ensures Contribution(a, perSecond) == a.price * Denominator(a) - a.external - Compute(a, perSecond)
  {
    hide Compute, FeeRate, PayoutRate;
    var p, s, f, r, q := a.price, a.publisherShare, FeeRate(a), a.risk, PayoutRate(a);
    assert p * s * q == p * (s * q);
    assert p * (1.0 - s - f - r - s * q) == p - p * s - p * f - p * r - p * (s * q);
  }

  /** The price floor is where the contribution changes sign. */
  lemma PriceFloorExact(a: Assumptions, perSecond: real)
    requires Evaluate(a, perSecond).Some? && Evaluate(a, perSecond).value.priceFloor.Some?
    ensures var e := Evaluate(a, perSecond).value; e.contribution >= 0.0 <==> a.price >= e.priceFloor.value
  {
    hide Contribution, Compute, Capacity, Denominator, Search;
    ContributionByPrice(a, perSecond);
    var d, cost := Denominator(a), Compute(a, perSecond) + a.external;
    var floor := cost / d;
    assert floor * d == cost;
    if a.price >= floor {
      assert (a.price - floor) * d >= 0.0;
      assert (a.price - floor) * d == a.price * d - floor * d;
    } else {
      assert (floor - a.price) * d > 0.0;
      assert (floor - a.price) * d == floor * d - a.price * d;
    }
  }

  // ----- The report and its conditions, in terms of what is evaluated

  /** The report returns a count at all exactly if a full host earns more than it costs. Then its fields are the least
      profitable count and exactly the hosts for it, under the condition above on the assumptions. */
  lemma ReportedBreakEven(a: Assumptions, perSecond: real)
    requires Evaluate(a, perSecond).Some?
    ensures var e := Evaluate(a, perSecond).value;
            var fixed, host := FixedMonthly(a), HostMonthly(a);
            var before, capacity := BeforeCompute(a, perSecond), Capacity(a, perSecond);
            && e.requests.Some? == e.allocations.Some? == (before * capacity - host > 0.0)
            && capacity > 0.0
            && (e.requests.Some? ==>
                  (fixed > 0.0 && OneCorrectionPays(fixed, host, before, capacity)
                   <==> LeastProfitable(e.requests.value, fixed, host, before, capacity)
                        && e.allocations.value == Hosts(e.requests.value, capacity)))
  {
    hide Contribution, Compute, BeforeCompute, Capacity, Denominator, Search, LeastProfitable, Hosts, OneCorrectionPays;
    CapacityPositive(a, perSecond);
    var e := Evaluate(a, perSecond).value;
    if e.requests.Some? {
      PositiveFactor(e.beforeCompute, e.capacity, a, perSecond, e.hostMonthly);
      assert a.publishers as real * a.publisherMonthly >= 0.0;
      BreakEvenExactly(e.fixed, e.hostMonthly, e.beforeCompute, e.capacity);
    }
  }

  /** What processing costs on the fundings that brought this spending. */
  function Processing(a: Assumptions, spent: real): real
    requires Valid(a)
  {
    FundedIsPositive(a);
    spent / (a.spendFraction * a.funding) * (a.fundingRate * a.funding + a.fundingFixed)
  }

  /** What it costs to pay these shares out, one payout for each threshold. */
  function Payouts(a: Assumptions, shares: real): real
    requires Valid(a)
  {
    shares * a.payoutRate + shares / a.payoutThreshold * a.payoutFixed
  }

  /** What is left of this spending on `n` accesses: less the publishers' shares, processing, losses, payouts, external cost,
      everything fixed, and whole hosts. */
  function Left(a: Assumptions, spent: real, shares: real, n: real, hosts: real): real
    requires Valid(a)
  {
    spent - shares - Processing(a, spent) - spent * a.risk - Payouts(a, shares) - a.external * n
    - (a.platformMonthly + a.publishers as real * a.publisherMonthly) - hosts * (730.0 * a.hostHourly)
  }

  function Spent(a: Assumptions, n: int): real {
    a.price * n as real
  }

  function Shares(a: Assumptions, n: int): real {
    Spent(a, n) * a.publisherShare
  }

  /** The money of one month with `n` accesses on so many hosts. */
  function Month(a: Assumptions, n: int, hosts: int): real
    requires Valid(a)
  {
    Left(a, Spent(a, n), Shares(a, n), n as real, hosts as real)
  }

  lemma FundedIsPositive(a: Assumptions)
    requires Valid(a)
    ensures a.spendFraction * a.funding > 0.0
  {
  }

  /** What is spent bears the processing of the fundings that brought it. */
  lemma FeesOfFundings(a: Assumptions, spent: real)
    requires Valid(a)
    ensures spent * FeeRate(a) == Processing(a, spent)
  {
    FundedIsPositive(a);
    var x, f, d, g := a.spendFraction, a.funding, a.spendFraction * a.funding, spent / (a.spendFraction * a.funding);
    var fee, q := FeeRate(a), a.fundingFixed / a.funding;
    assert q * f == a.fundingFixed;
    assert fee * x == a.fundingRate + q;
    assert fee * d == fee * x * f;
    assert (a.fundingRate + q) * f == a.fundingRate * f + q * f;
    assert g * d == spent;
    assert spent * fee == g * (fee * d);
  }

  lemma FeesOfPayouts(a: Assumptions, shares: real)
    requires Valid(a)
    ensures shares * PayoutRate(a) == Payouts(a, shares)
  {
    var t, q, p := a.payoutThreshold, a.payoutFixed / a.payoutThreshold, shares / a.payoutThreshold;
    assert q * t == a.payoutFixed;
    assert p * t == shares;
    assert shares * q == p * (q * t);
    assert shares * (a.payoutRate + q) == shares * a.payoutRate + shares * q;
  }

  /** What `n` accesses leave before compute, with every product named. */
  lemma BeforeTimes(b: real, p: real, s: real, f: real, r: real, q: real, x: real, n: real, spent: real, shares: real)
    requires b == p - p * s - p * f - p * r - p * s * q - x && spent == p * n && shares == spent * s
    ensures b * n == spent - shares - spent * f - spent * r - shares * q - x * n
  {
    assert p * s * n == shares;
    assert p * f * n == spent * f;
    assert p * r * n == spent * r;
    assert p * s * q * n == shares * q;
  }

  /** The profit that the search is about is the money of the month, on exactly the hosts that the accesses need at 730 hours
      a month and the planned load. */
  lemma ProfitIsMonth(a: Assumptions, perSecond: real, n: int)
    requires Valid(a) && perSecond > 0.0
    ensures Capacity(a, perSecond) == 730.0 * (3600.0 * (perSecond * a.utilization)) > 0.0
    ensures var hosts := Hosts(n, Capacity(a, perSecond));
            && Profit(n, FixedMonthly(a), HostMonthly(a), BeforeCompute(a, perSecond), Capacity(a, perSecond)) == Month(a, n, hosts)
            && (hosts - 1) as real * Capacity(a, perSecond) < n as real <= hosts as real * Capacity(a, perSecond)
  {
    hide FeeRate, PayoutRate, Compute, Hosts, Left, BeforeCompute, Capacity, FixedMonthly, HostMonthly;
    CapacityPositive(a, perSecond);
    var hosts, x := Hosts(n, Capacity(a, perSecond)), n as real;
    HostsLeast(n, Capacity(a, perSecond), hosts);
    HostsLeast(n, Capacity(a, perSecond), hosts - 1);
    BeforeIs(a, perSecond);
    BeforeTimes(BeforeCompute(a, perSecond), a.price, a.publisherShare, FeeRate(a), a.risk, PayoutRate(a), a.external, x,
                Spent(a, n), Shares(a, n));
    hide Spent, Shares;
    LeftIs(a, Spent(a, n), Shares(a, n), x, hosts as real);
    ProfitSums(Profit(n, FixedMonthly(a), HostMonthly(a), BeforeCompute(a, perSecond), Capacity(a, perSecond)),
               BeforeCompute(a, perSecond) * x, FixedMonthly(a), HostMonthly(a) * hosts as real, Month(a, n, hosts));
  }

  lemma ProfitSums(profit: real, earned: real, fixed: real, cost: real, month: real)
    requires profit == earned - fixed - cost && month == earned - fixed - cost
    ensures profit == month
  {
  }

  /** The same with fees and payouts as rates. */
  lemma LeftIs(a: Assumptions, spent: real, shares: real, n: real, hosts: real)
    requires Valid(a)
    ensures Left(a, spent, shares, n, hosts)
            == spent - shares - spent * FeeRate(a) - spent * a.risk - shares * PayoutRate(a) - a.external * n
               - FixedMonthly(a) - HostMonthly(a) * hosts
  {
    hide FeeRate, PayoutRate, Processing, Payouts, HostMonthly;
    FeesOfFundings(a, spent);
    FeesOfPayouts(a, shares);
    HostsForMonth(a, hosts);
    var u, v := spent * FeeRate(a), shares * PayoutRate(a);
    assert Left(a, spent, shares, n, hosts)
        == spent - shares - u - spent * a.risk - v - a.external * n - FixedMonthly(a) - hosts * (730.0 * a.hostHourly);
  }

  lemma HostsForMonth(a: Assumptions, hosts: real)
    ensures HostMonthly(a) * hosts == hosts * (730.0 * a.hostHourly)
  {
    var h := 730.0 * a.hostHourly;
    assert HostMonthly(a) == h;
  }

  lemma BeforeIs(a: Assumptions, perSecond: real)
    requires Valid(a) && perSecond > 0.0
    ensures BeforeCompute(a, perSecond)
         == a.price - a.price * a.publisherShare - a.price * FeeRate(a) - a.price * a.risk
            - a.price * a.publisherShare * PayoutRate(a) - a.external
  {
    hide FeeRate, PayoutRate, Compute;
  }

  /** Compute is charged per access so that a host at its planned load is paid for every hour. */
  lemma ComputePaysTheHour(a: Assumptions, perSecond: real)
    requires Valid(a) && perSecond > 0.0
    ensures Compute(a, perSecond) * (3600.0 * (perSecond * a.utilization)) == a.hostHourly
    ensures Contribution(a, perSecond) == BeforeCompute(a, perSecond) - Compute(a, perSecond)
  {
    Positive(perSecond, a.utilization);
    var d := 3600.0 * perSecond * a.utilization;
    assert d == 3600.0 * (perSecond * a.utilization);
    assert a.hostHourly / d * d == a.hostHourly;
  }

  /** No count at all pays a fixed cost if a full host does not earn more than it costs; if it does, some count pays. */
  lemma ProfitableSomewhere(fixed: real, host: real, before: real, capacity: real)
    requires fixed > 0.0 && host >= 0.0 && capacity > 0.0
    ensures (exists k :: k >= 0 && Profit(k, fixed, host, before, capacity) >= 0.0) <==> before * capacity - host > 0.0
  {
    hide Profit;
    if before * capacity - host > 0.0 {
      var k := Profitable(fixed, host, before, capacity);
    } else {
      forall k | k >= 0
        ensures Profit(k, fixed, host, before, capacity) < 0.0
      {
        NeverProfitable(fixed, host, before, capacity, k);
      }
    }
  }

  lemma NeverProfitable(fixed: real, host: real, before: real, capacity: real, k: int)
    requires fixed > 0.0 && host >= 0.0 && capacity > 0.0 && before * capacity - host <= 0.0 && k >= 0
    ensures Profit(k, fixed, host, before, capacity) < 0.0
  {
    hide Hosts;
    var h := Hosts(k, capacity);
    HostsLeast(k, capacity, h);
    HostsLeast(k, capacity, -1);
    MoreHostsCostMore(host, 0, h);
    if before > 0.0 {
      Order(before, k as real, h as real * capacity);
      FullHosts(host, before, capacity, h);
      assert h as real * (before * capacity - host) <= 0.0;
    } else {
      assert before * k as real <= 0.0;
    }
  }

  lemma Profitable(fixed: real, host: real, before: real, capacity: real) returns (k: int)
    requires Economy(fixed, host, before, capacity) && fixed > 0.0
    ensures k >= 0 && Profit(k, fixed, host, before, capacity) >= 0.0
  {
    hide Covering, Profit, FirstHosts, WholePay;
    var h := FirstHosts(fixed + before, before * capacity - host);
    k := Covering(fixed, host, before, h);
    EnoughSurplus(fixed + before, before * capacity - host, h);
    EnoughHosts(fixed, host, before, capacity, h);
    WholePayFits(fixed, host, before, capacity, h);
    CoveringProfits(fixed, host, before, capacity, h);
  }

  /** Hosts whose joint surplus covers the fixed cost and one request more pay with whole requests. */
  lemma EnoughHosts(fixed: real, host: real, before: real, capacity: real, h: int)
    requires before > 0.0 && fixed + before <= h as real * (before * capacity - host)
    ensures WholePay(fixed, host, before, capacity, h)
  {
    hide Pay;
    var full := h as real * capacity;
    AlmostFull(fixed, host, before, capacity, h, full, full.Floor);
  }

  lemma AlmostFull(fixed: real, host: real, before: real, capacity: real, h: int, full: real, n: int)
    requires before > 0.0 && fixed + before <= h as real * (before * capacity - host)
    requires full == h as real * capacity && full - 1.0 <= n as real
    ensures Pay(fixed, host, before, h, n)
  {
    FullHosts(host, before, capacity, h);
    Order(before, full - 1.0, n as real);
    WholeSum(fixed, before, h as real * (before * capacity - host), before * full, host * h as real, h as real * host,
             before * (full - 1.0), before * n as real);
  }

  /** The sums of whole requests, with every product named. */
  lemma WholeSum(fixed: real, before: real, earned: real, full: real, cost: real, cost': real, less: real, paid: real)
    requires fixed + before <= earned && full - cost == earned && cost == cost' && less == full - before && less <= paid
    ensures fixed + cost' <= paid
  {
  }

  // ----- Where one correction is not enough

  /** Assumptions under which one access earns exactly 1.0 before compute, with one host of the given monthly price and
      capacity, and the given fixed cost. */
  function Plain(fixed: real, host: real): Assumptions {
    Assumptions(1.0, 1.0, 1.0, 0.0, 0.0, 0.0, 0.0, 0.0, host / 730.0, 1.0, 1.0, 0.0, 0.0, 1, 0.0, fixed)
  }

  lemma PlainReport(fixed: real, host: real, capacity: real)
    requires fixed >= 0.0 && host >= 0.0 && capacity > 0.0
    ensures var a, perSecond := Plain(fixed, host), capacity / 2628000.0;
            && Valid(a) && perSecond > 0.0 && FixedMonthly(a) == fixed && HostMonthly(a) == host
            && BeforeCompute(a, perSecond) == 1.0 && Capacity(a, perSecond) == capacity
  {
  }

  /** A small surplus defeats the single correction: here the report asks for three requests on two hosts, which hold two;
      on the three hosts that three requests need they make a loss. */
  lemma OneCorrectionIsNotEnough()
    ensures var a, perSecond := Plain(0.09, 1.1), 1.2 / 2628000.0;
            && Evaluate(a, perSecond).Some?
            && Evaluate(a, perSecond).value.requests == Some(3) && Evaluate(a, perSecond).value.allocations == Some(2)
            && Hosts(3, Capacity(a, perSecond)) == 3
            && Profit(3, FixedMonthly(a), HostMonthly(a), BeforeCompute(a, perSecond), Capacity(a, perSecond)) < 0.0
  {
    hide Contribution, Compute, BeforeCompute, Capacity, Denominator, Search, FixedMonthly, HostMonthly, Plain, Valid;
    PlainReport(0.09, 1.1, 1.2);
    HostsLeast(3, 1.2, 3);
    HostsLeast(3, 1.2, 2);
    SmallSurplus();
  }

  lemma SmallSurplus()
    ensures Search(0.09, 1.1, 1.0, 1.2) == (2, 3)
  {
    assert 0.09 / (1.0 * 1.2 - 1.1) == 0.9;
    assert (0.09 + 1.0 * 1.1) / 1.0 == 1.19 && (0.09 + 2.0 * 1.1) / 1.0 == 2.29;
    assert Ceiling(0.9) == 1 && Ceiling(1.19) == 2 && Ceiling(2.29) == 3;
  }

  /** A host that cannot serve one request a month: the count is right and the hosts are not. */
  lemma CountWithoutHosts()
    ensures var a, perSecond := Plain(0.1, 0.01), 0.3 / 2628000.0;
            && Evaluate(a, perSecond).Some?
            && Evaluate(a, perSecond).value.requests == Some(1) && Evaluate(a, perSecond).value.allocations == Some(2)
            && Hosts(1, Capacity(a, perSecond)) == 4
            && LeastProfitable(1, FixedMonthly(a), HostMonthly(a), BeforeCompute(a, perSecond), Capacity(a, perSecond))
  {
    hide Contribution, Compute, BeforeCompute, Capacity, Denominator, Search, FixedMonthly, HostMonthly, Plain, Valid;
    PlainReport(0.1, 0.01, 0.3);
    HostsLeast(1, 0.3, 4);
    HostsLeast(1, 0.3, 3);
    Quotients(0.0, 0.3, 0);
    SmallHosts();
  }

  lemma SmallHosts()
    ensures Search(0.1, 0.01, 1.0, 0.3) == (2, 1)
  {
    assert 0.1 / (1.0 * 0.3 - 0.01) < 1.0;
    assert Ceiling((0.1 + 1.0 * 0.01) / 1.0) == 1 && Ceiling((0.1 + 2.0 * 0.01) / 1.0) == 1;
  }
}
