/** The counters that a pipeline run reports, and why the row verification accepts them. */
module PipelineReport {
  import opened FiniteSums
  import opened Pipeline
  import opened PipelineRuns
  import opened LatencyReport

  // ----- Batches by size

  function Items(batches: map<nat, nat>): nat -> int {
    n => if n in batches then n * batches[n] else 0
  }

  function Dispatched(batches: map<nat, nat>): nat -> int {
    n => if n in batches then batches[n] else 0
  }

  ghost function ItemCount(batches: map<nat, nat>): int {
    Total(batches.Keys, Items(batches))
  }

  ghost function BatchCount(batches: map<nat, nat>): int {
    Total(batches.Keys, Dispatched(batches))
  }

  lemma TallyCounts(batches: map<nat, nat>, size: nat)
    ensures ItemCount(Tally(batches, size)) == ItemCount(batches) + size
    ensures BatchCount(Tally(batches, size)) == BatchCount(batches) + 1
  {
    var b := Tally(batches, size);
    if size in batches {
      assert b.Keys == batches.Keys;
      assert size * (batches[size] + 1) == size * batches[size] + size;
      TotalUpdate(batches.Keys, Items(batches), Items(b), size);
      TotalUpdate(batches.Keys, Dispatched(batches), Dispatched(b), size);
    } else {
      assert b.Keys == batches.Keys + {size};
      TotalInsert(batches.Keys, Items(batches), Items(b), size);
      TotalInsert(batches.Keys, Dispatched(batches), Dispatched(b), size);
    }
  }

  function Merge(a: map<nat, nat>, b: map<nat, nat>): map<nat, nat> {
    map n | n in a.Keys + b.Keys :: (if n in a then a[n] else 0) + (if n in b then b[n] else 0)
  }

  lemma MergeCounts(a: map<nat, nat>, b: map<nat, nat>)
    ensures ItemCount(Merge(a, b)) == ItemCount(a) + ItemCount(b)
    ensures BatchCount(Merge(a, b)) == BatchCount(a) + BatchCount(b)
  {
    var m := Merge(a, b);
    assert m.Keys == a.Keys + b.Keys == b.Keys + a.Keys;
    TotalExtend(a.Keys, b.Keys, Items(a));
    TotalExtend(b.Keys, a.Keys, Items(b));
    MergedItems(a, b);
    TotalPlus(m.Keys, Items(a), Items(b), Items(m));
    TotalExtend(a.Keys, b.Keys, Dispatched(a));
    TotalExtend(b.Keys, a.Keys, Dispatched(b));
    TotalPlus(m.Keys, Dispatched(a), Dispatched(b), Dispatched(m));
  }

  lemma MergedItems(a: map<nat, nat>, b: map<nat, nat>)
    ensures forall n | n in Merge(a, b) :: Items(Merge(a, b))(n) == Items(a)(n) + Items(b)(n)
  {
    forall n | n in Merge(a, b)
      ensures Items(Merge(a, b))(n) == Items(a)(n) + Items(b)(n)
    {
      var x, y := if n in a then a[n] else 0, if n in b then b[n] else 0;
      assert n * (x + y) == n * x + n * y;
    }
  }

  // ----- One worker

  /** What a worker's counters say about each other. */
  ghost predicate Tallies(o: Settings, st: Stats) {
    && ItemCount(st.batches) == st.cpuItems + st.gpuItems
    && BatchCount(st.batches) == st.cpuBatches + st.gpuBatches
    && (forall n | n in st.batches :: 1 <= n <= o.batch && st.batches[n] > 0)
    && |st.latencies| == st.verified && st.good == CountWithin(st.latencies, o.slo)
    && (o.mode.Cpu? ==> st.gpuItems == 0)
  }

  /** Unless something failed, every dispatched item is verified or still being signed. */
  predicate Signs(st: Stats, phase: Phase, batch: seq<Request>) {
    st.failed == 0 ==> st.cpuItems + st.gpuItems == st.verified + if phase.Signing? then |batch| else 0
  }

  ghost predicate StatsHold(o: Settings, s: State)
    requires Shaped(o, s)
  {
    forall w | 0 <= w < o.workers :: Tallies(o, s.stats[w]) && Signs(s.stats[w], s.phases[w], s.batches[w])
  }

  /** Whatever was counted twice, or sets the fault flag, comes with a failed request. */
  predicate FaultsShow(s: State) {
    s.doubled > 0 || s.fault ==> exists w | 0 <= w < |s.stats| :: s.stats[w].failed > 0
  }

  lemma FinishedTallies(o: Settings, st: Stats, batch: seq<Request>, end: int)
    requires Tallies(o, st)
    ensures Tallies(o, Finished(st, batch, end, o.slo))
  {
    hide ItemCount, BatchCount, CountWithin;
    CountWithinSplit(st.latencies, Latencies(batch, end), o.slo);
  }

  lemma CountedTallies(o: Settings, st: Stats, size: nat)
    requires Tallies(o, st) && 1 <= size <= o.batch
    ensures Tallies(o, Counted(o, st, size))
  {
    hide ItemCount, BatchCount, CountWithin;
    TallyCounts(st.batches, size);
  }

  lemma DispatchStats(o: Settings, s: State, w: nat, now: int)
    requires Inv(o, s) && StatsHold(o, s)
    ensures StatsHold(o, DispatchStep(o, s, w, now))
  {
    hide Placed, Accounted, QueuesHold, ItemCount, BatchCount, CountWithin, Ids, Live, Expired;
    if w < o.workers && s.phases[w].Holding? {
      var s' := DispatchStep(o, s, w, now);
      var live := Live(s.batches[w], now, o.slo);
      assert WorkerHolds(o, s.phases[w], s.batches[w]);
      ExpirySplits(s.batches[w], now, o.slo);
      var st := s.stats[w].(expired := s.stats[w].expired + |Expired(s.batches[w], now, o.slo)|);
      assert Tallies(o, s.stats[w]) && Signs(s.stats[w], s.phases[w], s.batches[w]);
      if live != [] {
        CountedTallies(o, st, |live|);
      }
      hide Counted;
      DispatchedCounters(o, st, |live|);
      forall v | 0 <= v < o.workers
        ensures Tallies(o, s'.stats[v]) && Signs(s'.stats[v], s'.phases[v], s'.batches[v])
      {
        assert Tallies(o, s.stats[v]) && Signs(s.stats[v], s.phases[v], s.batches[v]);
      }
    }
  }

  lemma DispatchedCounters(o: Settings, st: Stats, size: nat)
    ensures var st' := Counted(o, st, size);
            st'.cpuItems + st'.gpuItems == st.cpuItems + st.gpuItems + size && st'.verified == st.verified && st'.failed == st.failed
  {
  }

  lemma CompleteStats(o: Settings, s: State, w: nat, end: int, counted: nat, ok: bool)
    requires Inv(o, s) && StatsHold(o, s)
    ensures StatsHold(o, CompleteStep(o, s, w, end, counted, ok))
  {
    hide Placed, Accounted, QueuesHold, ItemCount, BatchCount, CountWithin, Ids, Latencies;
    if w < o.workers && s.phases[w].Signing? {
      var s' := CompleteStep(o, s, w, end, counted, ok);
      var batch := s.batches[w];
      assert WorkerHolds(o, s.phases[w], batch);
      assert Tallies(o, s.stats[w]) && Signs(s.stats[w], s.phases[w], batch);
      FinishedTallies(o, s.stats[w], batch, end);
      FinishedTallies(o, s.stats[w], batch[..Reached(o, s.stats[w], counted, |batch|)], end);
      forall v | 0 <= v < o.workers
        ensures Tallies(o, s'.stats[v]) && Signs(s'.stats[v], s'.phases[v], s'.batches[v])
      {
        assert Tallies(o, s.stats[v]) && Signs(s.stats[v], s.phases[v], s.batches[v]);
      }
    }
  }

  lemma OtherStats(o: Settings, s: State, step: Step)
    requires Inv(o, s) && StatsHold(o, s) && !step.Dispatch? && !step.Complete?
    ensures StatsHold(o, Next(o, s, step))
  {
    hide Placed, Accounted, QueuesHold, Tallies, OldestFrom, ReadyToTake;
    var s' := Next(o, s, step);
    forall v | 0 <= v < o.workers
      ensures Tallies(o, s'.stats[v]) && Signs(s'.stats[v], s'.phases[v], s'.batches[v])
    {
      assert Tallies(o, s.stats[v]) && Signs(s.stats[v], s.phases[v], s.batches[v]);
    }
  }

  lemma NextFaultsShow(o: Settings, s: State, step: Step)
    requires Inv(o, s) && FaultsShow(s)
    ensures FaultsShow(Next(o, s, step))
  {
    hide Placed, Accounted, QueuesHold, OldestFrom, ReadyToTake, Ids, Live, Expired, Latencies, CountWithin;
    var s' := Next(o, s, step);
    if s.doubled > 0 || s.fault {
      var w :| 0 <= w < |s.stats| && s.stats[w].failed > 0;
      assert s'.stats[w].failed > 0;
    } else if step.Complete? && step.worker < o.workers && s.phases[step.worker].Signing? && !step.ok {
      assert WorkerHolds(o, s.phases[step.worker], s.batches[step.worker]);
      assert s'.stats[step.worker].failed > 0;
    }
  }

  lemma {:induction false} RunsCount(o: Settings, steps: seq<Step>, n: nat)
    requires Sane(o) && n <= |steps|
    ensures StatsHold(o, After(o, steps, n)) && FaultsShow(After(o, steps, n))
  {
    hide Inv, Next, StatsHold, FaultsShow;
    if n == 0 {
      InitialCounts(o);
    } else {
      var s, step := After(o, steps, n - 1), steps[n - 1];
      RunsCount(o, steps, n - 1);
      RunsKeep(o, steps, n - 1);
      NextFaultsShow(o, s, step);
      StepCounts(o, s, step);
    }
  }

  lemma InitialCounts(o: Settings)
    requires Sane(o)
    ensures StatsHold(o, Initial(o)) && FaultsShow(Initial(o))
  {
  }

  lemma StepCounts(o: Settings, s: State, step: Step)
    requires Inv(o, s) && StatsHold(o, s)
    ensures StatsHold(o, Next(o, s, step))
  {
    hide Inv, StatsHold, DispatchStep, CompleteStep, ArriveStep, TakeStep;
    if step.Dispatch? {
      DispatchStats(o, s, step.worker, step.now);
    } else if step.Complete? {
      CompleteStats(o, s, step.worker, step.end, step.counted, step.ok);
    } else {
      OtherStats(o, s, step);
    }
  }

  // ----- All workers together

  function Plus(a: Stats, b: Stats): Stats {
    Stats(a.verified + b.verified, a.good + b.good, a.expired + b.expired, a.failed + b.failed, a.cpuItems + b.cpuItems,
          a.gpuItems + b.gpuItems, a.cpuBatches + b.cpuBatches, a.gpuBatches + b.gpuBatches,
          Merge(a.batches, b.batches), a.latencies + b.latencies)
  }

  function Totals(stats: seq<Stats>): Stats {
    if stats == [] then NOTHING else Plus(Totals(stats[..|stats| - 1]), stats[|stats| - 1])
  }

  lemma PlusTallies(o: Settings, a: Stats, b: Stats)
    requires Tallies(o, a) && Tallies(o, b)
    ensures Tallies(o, Plus(a, b))
  {
    hide ItemCount, BatchCount, CountWithin;
    MergeCounts(a.batches, b.batches);
    CountWithinSplit(a.latencies, b.latencies, o.slo);
  }

  lemma {:induction false} TotalsTally(o: Settings, stats: seq<Stats>)
    requires forall w | 0 <= w < |stats| :: Tallies(o, stats[w])
    ensures Tallies(o, Totals(stats))
  {
    hide Tallies, Merge, Plus;
    if stats == [] {
      NothingTallies(o);
    } else {
      TotalsTally(o, stats[..|stats| - 1]);
      PlusTallies(o, Totals(stats[..|stats| - 1]), stats[|stats| - 1]);
    }
  }

  lemma {:induction false} TotalsOutcomes(stats: seq<Stats>)
    ensures Outcomes(stats) == Totals(stats).verified + Totals(stats).expired + Totals(stats).failed
  {
    hide Merge;
    if stats != [] {
      TotalsOutcomes(stats[..|stats| - 1]);
    }
  }

  lemma {:induction false} TotalsFailed(stats: seq<Stats>, w: nat)
    requires w < |stats|
    ensures stats[w].failed <= Totals(stats).failed
    decreases |stats|
  {
    hide Merge;
    if w < |stats| - 1 {
      TotalsFailed(stats[..|stats| - 1], w);
    }
  }

  lemma NothingTallies(o: Settings)
    ensures Tallies(o, NOTHING)
  {
  }

  lemma {:induction false} TotalsSign(stats: seq<Stats>)
    requires forall w | 0 <= w < |stats| :: stats[w].cpuItems + stats[w].gpuItems == stats[w].verified
    ensures Totals(stats).cpuItems + Totals(stats).gpuItems == Totals(stats).verified
  {
    if stats != [] {
      TotalsSign(stats[..|stats| - 1]);
    }
  }

  /** The counters of a finished run without failures satisfy every accounting check of the row verifier. */
  ghost predicate RowBalances(o: Settings, s: State) {
    var t := Totals(s.stats);
    && o.offered == s.rejected + t.expired + t.failed + t.verified
    && t.cpuItems + t.gpuItems == t.verified
    && ItemCount(t.batches) == t.verified && BatchCount(t.batches) == t.cpuBatches + t.gpuBatches
    && (forall n | n in t.batches :: 1 <= n <= o.batch && t.batches[n] > 0)
    && |t.latencies| == t.verified && t.good == CountWithin(t.latencies, o.slo) <= t.verified
    && s.highWater <= o.capacity && (o.mode.Cpu? ==> t.gpuItems == 0)
  }

  lemma RowsBalance(o: Settings, steps: seq<Step>, n: nat)
    requires Sane(o) && n <= |steps| && AllGone(After(o, steps, n)) && Totals(After(o, steps, n).stats).failed == 0
    ensures RowBalances(o, After(o, steps, n))
  {
    hide Next, After, Inv, StatsHold, FaultsShow, Totals;
    RunsKeep(o, steps, n);
    RunsCount(o, steps, n);
    RowBalance(o, After(o, steps, n));
  }

  lemma RowBalance(o: Settings, s: State)
    requires Sane(o) && Inv(o, s) && StatsHold(o, s) && FaultsShow(s) && AllGone(s) && Totals(s.stats).failed == 0
    ensures RowBalances(o, s)
  {
    hide Placed, QueuesHold, WorkersHold, ItemCount, BatchCount, CountWithin, Outcomes, Numbers, Totals;
    GoneIsSettled(o, s);
    TotalsTally(o, s.stats);
    TotalsOutcomes(s.stats);
    forall w | 0 <= w < |s.stats|
      ensures s.stats[w].failed == 0 && s.stats[w].cpuItems + s.stats[w].gpuItems == s.stats[w].verified
    {
      TotalsFailed(s.stats, w);
      assert Tallies(o, s.stats[w]) && Signs(s.stats[w], s.phases[w], s.batches[w]);
    }
    TotalsSign(s.stats);
  }

  /** The reported count within the objective, taken over the sorted latencies, is the sum the workers counted. */
  lemma ReportedWithin(o: Settings, s: State, latencies: seq<nat>)
    requires RowBalances(o, s) && Totals(s.stats).latencies == latencies
    ensures CountWithin(SortedCopy(latencies), o.slo) == Totals(s.stats).good
    ensures |SortedCopy(latencies)| == Totals(s.stats).verified
  {
    SortedWithin(latencies, o.slo);
  }
}
