/** When the final accounting check can fail: the space that workers reserve for their latencies decides. */
module PipelineReserve {
  import opened LatencyReport
  import opened Pipeline
  import opened PipelineRuns
  import opened PipelineReport

  /** The final accounting check. */
  predicate Balanced(o: Settings, s: State) {
    o.offered == s.rejected + Outcomes(s.stats)
  }

  /** These settings leave no completion to interrupt: a worker that verified everything offered would still be within its
      reserve, or no batch has two requests. */
  predicate Reserved(o: Settings)
    requires o.workers > 0
  {
    o.offered <= Reserve(o) || o.batch < 2 || o.capacity < 2
  }

  // ----- Within the reserve

  lemma {:induction false} OutcomesOfOne(stats: seq<Stats>, w: nat)
    requires w < |stats|
    ensures stats[w].verified <= Outcomes(stats)
    decreases |stats|
  {
    if w < |stats| - 1 {
      OutcomesOfOne(stats[..|stats| - 1], w);
    }
  }

  lemma {:induction false} LengthOfOne(qs: seq<seq<Request>>, k: nat)
    requires k < |qs|
    ensures |qs[k]| <= Lengths(qs)
    decreases |qs|
  {
    if k < |qs| - 1 {
      LengthOfOne(qs[..|qs| - 1], k);
    }
  }

  /** As long as nothing was counted twice, the latencies and the batch of one worker are different requests. */
  lemma VerifiedOnce(o: Settings, s: State, w: nat)
    requires Inv(o, s) && StatsHold(o, s) && s.doubled == 0 && w < o.workers
    ensures |s.stats[w].latencies| + |s.batches[w]| <= o.offered
  {
    hide Placed, QueuesHold, WorkersHold, Outcomes, Lengths, ItemCount, BatchCount, CountWithin;
    StateAccounting(o, s);
    OutcomesOfOne(s.stats, w);
    LengthOfOne(s.batches, w);
    assert Tallies(o, s.stats[w]);
  }

  /** A batch is no larger than the queues may be together. */
  lemma {:induction false} BatchWithinCapacity(o: Settings, steps: seq<Step>, n: nat, w: nat)
    requires Sane(o) && n <= |steps| && w < o.workers
    ensures |After(o, steps, n).batches[w]| <= o.capacity
  {
    hide Next, Inv;
    if n > 0 {
      var s := After(o, steps, n - 1);
      BatchWithinCapacity(o, steps, n - 1, w);
      RunsKeep(o, steps, n - 1);
      StepWithinCapacity(o, s, steps[n - 1], w);
    }
  }

  lemma StepWithinCapacity(o: Settings, s: State, step: Step, w: nat)
    requires Inv(o, s) && w < o.workers && |s.batches[w]| <= o.capacity
    ensures |Next(o, s, step).batches[w]| <= o.capacity
  {
    hide Placed, QueuesHold, WorkersHold, Ids, Latencies, CountWithin, OldestFrom, ReadyToTake, Lengths, Live, Expired, Finished;
    if step.Take? && step.worker == w {
      var key := OldestFrom(s.queues, 0, -1);
      if key >= 0 {
        LengthOfOne(s.queues, key);
      }
    } else if step.Dispatch? && step.worker == w {
      ExpirySplits(s.batches[w], step.now, o.slo);
    }
  }

  /** Under such settings nothing is ever counted twice. */
  lemma {:induction false} NothingTwice(o: Settings, steps: seq<Step>, n: nat)
    requires Sane(o) && Reserved(o) && n <= |steps|
    ensures TwiceBefore(o, steps, n) == 0
  {
    hide After, Next, Inv, StatsHold, CountedTwice, FaultsShow;
    if n > 0 {
      NothingTwice(o, steps, n - 1);
      var s, step := After(o, steps, n - 1), steps[n - 1];
      if Interrupts(o, s, step) {
        RunsKeep(o, steps, n - 1);
        RunsCount(o, steps, n - 1);
        DoubledByInterruption(o, steps, n - 1);
        VerifiedOnce(o, s, step.worker);
        BatchWithinCapacity(o, steps, n - 1, step.worker);
        BatchWithinLimit(o, s, step.worker);
      }
    }
  }

  lemma BatchWithinLimit(o: Settings, s: State, w: nat)
    requires Inv(o, s) && w < o.workers
    ensures |s.batches[w]| <= o.batch
  {
    hide Placed, QueuesHold, Accounted;
    assert WorkerHolds(o, s.phases[w], s.batches[w]);
  }

  /** Under such settings the final accounting check passes in every run. */
  lemma AlwaysBalanced(o: Settings, steps: seq<Step>, n: nat)
    requires Sane(o) && Reserved(o) && n <= |steps| && AllGone(After(o, steps, n))
    ensures Balanced(o, After(o, steps, n))
  {
    hide After, Next, Outcomes, Numbers, TwiceBefore, AllGone;
    FinalAccounting(o, steps, n);
    NothingTwice(o, steps, n);
  }

  /** One worker reserves enough for everything. */
  lemma OneWorkerBalances(o: Settings, steps: seq<Step>, n: nat)
    requires Sane(o) && o.workers == 1 && n <= |steps| && AllGone(After(o, steps, n))
    ensures Balanced(o, After(o, steps, n))
  {
    assert o.offered / 1 == o.offered;
    AlwaysBalanced(o, steps, n);
  }

  /** Under any settings the check fails only if at some step the latencies and the batch of one worker together exceed its
      reserve. */
  lemma FailsOnlyBeyondReserve(o: Settings, steps: seq<Step>, n: nat) returns (k: nat, w: nat)
    requires Sane(o) && n <= |steps| && AllGone(After(o, steps, n)) && !Balanced(o, After(o, steps, n))
    ensures k < n && w < o.workers && Interrupts(o, After(o, steps, k), steps[k]) && steps[k].worker == w
    ensures |After(o, steps, k).stats[w].latencies| + |After(o, steps, k).batches[w]| > Reserve(o)
  {
    hide After, Next, Outcomes, Numbers, TwiceBefore, AllGone;
    FinalAccounting(o, steps, n);
    k :| 0 <= k < n && Interrupts(o, After(o, steps, k), steps[k]);
    w := steps[k].worker;
  }

  // ----- Beyond the reserve: a run that fails

  /** One queue, and a first worker in this phase with this batch, while all others wait. */
  predicate At(o: Settings, s: State, queue: seq<Request>, phase: Phase, batch: seq<Request>, produced: nat, verified: nat,
               done: bool)
    requires Shaped(o, s) && o.workers > 0
  {
    && s.produced == produced && s.done == done && !s.fault && s.rejected == s.doubled == 0
    && s.queues == [queue] && s.queued == |queue|
    && s.phases[0] == phase && s.batches[0] == batch && |s.stats[0].latencies| == verified
    && forall w | 0 < w < o.workers :: s.phases[w].Waiting?
  }

  function Numbered(o: Settings, id: nat): Request {
    Request(id, o.arrival(id))
  }

  lemma Arrives(o: Settings, s: State, queue: seq<Request>, produced: nat, verified: nat)
    requires Shaped(o, s) && o.workers > 0 && At(o, s, queue, Waiting, [], produced, verified, false)
    requires o.keys == 1 && produced < o.offered && |queue| < o.capacity
    ensures At(o, Next(o, s, Arrive), queue + [Numbered(o, produced)], Waiting, [], produced + 1, verified, false)
  {
    var more := queue + [Numbered(o, produced)];
    assert [queue][0 := more] == [more];
  }

  lemma Takes(o: Settings, s: State, queue: seq<Request>, produced: nat, verified: nat, done: bool, now: int)
    requires Shaped(o, s) && o.workers > 0 && At(o, s, queue, Waiting, [], produced, verified, done)
    requires o.mode.Cpu? && 1 <= |queue| <= o.batch
    ensures At(o, Next(o, s, Take(0, now)), [], Holding(0), queue, produced, verified, done)
  {
    assert OldestFrom([queue], 0, -1) == 0;
    assert queue[|queue|..] == [] && queue[..|queue|] == queue;
    assert [queue][0 := []] == [[]];
  }

  lemma {:induction false} NoneLate(batch: seq<Request>, now: int, slo: int)
    requires forall r | r in batch :: !Late(r, now, slo)
    ensures Live(batch, now, slo) == batch && Expired(batch, now, slo) == []
  {
    if batch != [] {
      NoneLate(batch[..|batch| - 1], now, slo);
    }
  }

  lemma Dispatches(o: Settings, s: State, batch: seq<Request>, produced: nat, verified: nat, done: bool, now: int)
    requires Shaped(o, s) && o.workers > 0 && At(o, s, [], Holding(0), batch, produced, verified, done)
    requires batch != [] && forall r | r in batch :: !Late(r, now, o.slo)
    ensures At(o, Next(o, s, Dispatch(0, now)), [], Signing(0), batch, produced, verified, done)
  {
    hide Ids;
    NoneLate(batch, now, o.slo);
  }

  lemma Completes(o: Settings, s: State, batch: seq<Request>, produced: nat, verified: nat, end: int)
    requires Shaped(o, s) && o.workers > 0 && At(o, s, [], Signing(0), batch, produced, verified, false)
    ensures At(o, Next(o, s, Complete(0, end, 0, true)), [], Waiting, [], produced, verified + |batch|, false)
  {
    hide Ids, CountWithin;
  }

  /** The first worker serves one request alone, at the moment of its arrival. */
  function Serve(o: Settings, id: nat): seq<Step> {
    [Arrive, Take(0, o.arrival(id)), Dispatch(0, o.arrival(id)), Complete(0, o.arrival(id), 0, true)]
  }

  function ServeAll(o: Settings, n: nat): (steps: seq<Step>)
    ensures |steps| == 4 * n
  {
    if n == 0 then [] else ServeAll(o, n - 1) + Serve(o, n - 1)
  }

  lemma {:induction false} AfterPrefix(o: Settings, steps: seq<Step>, more: seq<Step>, n: nat)
    requires o.keys > 0 && n <= |steps|
    ensures After(o, steps + more, n) == After(o, steps, n)
  {
    hide Next, Initial;
    if n > 0 {
      AfterPrefix(o, steps, more, n - 1);
    }
  }

  /** Settings under which one worker can verify everything offered and then needs more space for the last of it. */
  predicate Outgrows(o: Settings) {
    && o.workers > 0 && o.keys == 1 && o.mode.Cpu? && o.slo >= 0 && !Reserved(o)
    && o.arrival(o.offered - 1) - o.arrival(o.offered - 2) <= o.slo
  }

  lemma StartsClear(o: Settings)
    requires Sane(o) && o.keys == 1
    ensures At(o, Initial(o), [], Waiting, [], 0, 0, false)
  {
  }

  lemma {:induction false} AllServed(o: Settings, n: nat)
    requires Sane(o) && o.keys == 1 && o.mode.Cpu? && o.slo >= 0 && n <= o.offered
    ensures At(o, After(o, ServeAll(o, n), 4 * n), [], Waiting, [], n, n, false)
  {
    hide Next, Initial, At, Serve;
    if n == 0 {
      StartsClear(o);
    } else {
      AllServed(o, n - 1);
      var before, steps, i := ServeAll(o, n - 1), ServeAll(o, n), 4 * (n - 1);
      AfterPrefix(o, before, Serve(o, n - 1), i);
      assert steps[i..] == Serve(o, n - 1);
      ServedAlone(o, steps, i, n - 1);
    }
  }

  lemma ServedAlone(o: Settings, steps: seq<Step>, i: nat, id: nat)
    requires Sane(o) && o.keys == 1 && o.mode.Cpu? && o.slo >= 0 && id < o.offered
    requires i + 4 == |steps| && steps[i..] == Serve(o, id)
    requires At(o, After(o, steps, i), [], Waiting, [], id, id, false)
    ensures At(o, After(o, steps, i + 4), [], Waiting, [], id + 1, id + 1, false)
  {
    hide Next, Initial, At;
    var now, r := o.arrival(id), Numbered(o, id);
    assert steps[i] == Serve(o, id)[0] && steps[i + 1] == Serve(o, id)[1];
    assert steps[i + 2] == Serve(o, id)[2] && steps[i + 3] == Serve(o, id)[3];
    Arrives(o, After(o, steps, i), [], id, id);
    assert [] + [r] == [r];
    Takes(o, After(o, steps, i + 1), [r], id + 1, id, false, now);
    Dispatches(o, After(o, steps, i + 2), [r], id + 1, id, false, now);
    Completes(o, After(o, steps, i + 3), [r], id + 1, id, now);
  }

  /** The last two requests are taken together when the second arrives; its latency finds no space. */
  function LastTwo(o: Settings): seq<Step>
    requires o.offered > 0
  {
    var now := o.arrival(o.offered - 1);
    [Arrive, Arrive, Finish, Take(0, now), Dispatch(0, now), Complete(0, now, 1, false)]
  }

  function Leaving(workers: nat, now: int): (steps: seq<Step>)
    ensures |steps| == workers
  {
    seq(workers, w requires 0 <= w => Take(w, now))
  }

  function Served(o: Settings): seq<Step>
    requires o.offered >= 2
  {
    ServeAll(o, o.offered - 2) + LastTwo(o)
  }

  /** The whole run: all requests but two one by one, then these two together, and all workers leave. */
  function FailingRun(o: Settings): seq<Step>
    requires o.offered >= 2
  {
    Served(o) + Leaving(o.workers, o.arrival(o.offered - 1))
  }

  lemma PairDispatched(o: Settings, steps: seq<Step>, i: nat)
    requires Sane(o) && Outgrows(o) && o.offered >= 2
    requires i + 6 == |steps| && steps[i..] == LastTwo(o)
    requires At(o, After(o, steps, i), [], Waiting, [], o.offered - 2, o.offered - 2, false)
    ensures At(o, After(o, steps, i + 5), [], Signing(0), [Numbered(o, o.offered - 2), Numbered(o, o.offered - 1)],
               o.offered, o.offered - 2, true)
  {
    hide Next, Initial, At;
    var n, now := o.offered - 2, o.arrival(o.offered - 1);
    var r, r' := Numbered(o, n), Numbered(o, n + 1);
    assert steps[i] == LastTwo(o)[0] && steps[i + 1] == LastTwo(o)[1] && steps[i + 2] == LastTwo(o)[2];
    assert steps[i + 3] == LastTwo(o)[3] && steps[i + 4] == LastTwo(o)[4];
    Arrives(o, After(o, steps, i), [], n, n);
    assert [] + [r] == [r] && [r] + [r'] == [r, r'];
    Arrives(o, After(o, steps, i + 1), [r], n + 1, n);
    Finishes(o, After(o, steps, i + 2), [r, r'], n);
    Takes(o, After(o, steps, i + 3), [r, r'], n + 2, n, true, now);
    Dispatches(o, After(o, steps, i + 4), [r, r'], n + 2, n, true, now);
  }

  lemma Finishes(o: Settings, s: State, queue: seq<Request>, verified: nat)
    requires Shaped(o, s) && o.workers > 0 && At(o, s, queue, Waiting, [], o.offered, verified, false)
    ensures At(o, Next(o, s, Finish), queue, Waiting, [], o.offered, verified, true)
  {
  }

  /** The first `n` workers have left, the others can, and one request was counted twice. */
  predicate Left(o: Settings, s: State, n: nat)
    requires Shaped(o, s)
  {
    && s.done && s.queued == 0 && s.doubled == 1
    && forall w | 0 <= w < o.workers :: if w < n then s.phases[w].Gone? else s.phases[w].Waiting?
  }

  lemma Interrupted(o: Settings, s: State, batch: seq<Request>, end: int)
    requires Shaped(o, s) && Outgrows(o) && o.offered >= 2 && |batch| == 2
    requires At(o, s, [], Signing(0), batch, o.offered, o.offered - 2, true)
    ensures Left(o, Next(o, s, Complete(0, end, 1, false)), 0)
  {
    hide Ids, CountWithin, Latencies;
  }

  lemma LeavesNext(o: Settings, s: State, n: nat, now: int)
    requires Shaped(o, s) && n < o.workers && Left(o, s, n)
    ensures Left(o, Next(o, s, Take(n, now)), n + 1)
  {
  }

  lemma {:induction false} AllLeave(o: Settings, n: nat)
    requires Sane(o) && Outgrows(o) && o.offered >= 2 && n <= o.workers
    ensures |Served(o)| + n <= |FailingRun(o)|
    ensures Left(o, After(o, FailingRun(o), |Served(o)| + n), n)
  {
    hide Next, Initial, At, Left, ServeAll, LastTwo;
    var steps, first, i := FailingRun(o), Served(o), 4 * (o.offered - 2);
    var now := o.arrival(o.offered - 1);
    if n == 0 {
      AllServed(o, o.offered - 2);
      AfterPrefix(o, ServeAll(o, o.offered - 2), LastTwo(o), i);
      assert first[i..] == LastTwo(o);
      assert |LastTwo(o)| == 6 && LastTwo(o)[5] == Complete(0, now, 1, false) by {
        LastStep(o);
      }
      PairDispatched(o, first, i);
      assert first[i + 5] == LastTwo(o)[5];
      Interrupted(o, After(o, first, i + 5), [Numbered(o, o.offered - 2), Numbered(o, o.offered - 1)], now);
      AfterPrefix(o, first, Leaving(o.workers, now), |first|);
    } else {
      AllLeave(o, n - 1);
      assert steps[|first| + n - 1] == Leaving(o.workers, now)[n - 1] == Take(n - 1, now);
      LeavesNext(o, After(o, steps, |first| + n - 1), n - 1, now);
    }
  }

  lemma LastStep(o: Settings)
    requires o.offered > 0
    ensures |LastTwo(o)| == 6 && LastTwo(o)[5] == Complete(0, o.arrival(o.offered - 1), 1, false)
  {
  }

  lemma AllHaveLeft(o: Settings, s: State)
    requires Shaped(o, s) && Left(o, s, o.workers)
    ensures AllGone(s) && s.doubled == 1
  {
  }

  /** Beyond the reserve the check fails in this run: one request has two outcomes. */
  lemma FailingRunFails(o: Settings)
    requires Sane(o) && Outgrows(o)
    ensures o.offered >= 2
    ensures var s := After(o, FailingRun(o), |FailingRun(o)|);
            AllGone(s) && s.rejected + Outcomes(s.stats) == o.offered + 1
  {
    assert o.offered >= 2;
    var steps := FailingRun(o);
    assert |steps| == |Served(o)| + o.workers;
    AllLeave(o, o.workers);
    AllHaveLeft(o, After(o, steps, |steps|));
    hide After, Outcomes, Numbers, TwiceBefore, Served, Outgrows, FailingRun, Left, AllGone, Interrupts, Sane;
    FinalAccounting(o, steps, |steps|);
    DoubledByInterruption(o, steps, |steps|);
  }

  /** With one key, signing on the CPU, and the last two requests close enough to be served together, the check passes in
      every run if and only if the settings keep every worker within its reserve. */
  lemma BalancedExactly(o: Settings)
    requires Sane(o) && o.keys == 1 && o.mode.Cpu? && o.slo >= 0
    requires o.offered >= 2 ==> o.arrival(o.offered - 1) - o.arrival(o.offered - 2) <= o.slo
    ensures (forall steps | AllGone(After(o, steps, |steps|)) :: Balanced(o, After(o, steps, |steps|))) <==> Reserved(o)
  {
    hide After, Outcomes;
    if Reserved(o) {
      hide Reserved, AllGone;
      forall steps | AllGone(After(o, steps, |steps|))
        ensures Balanced(o, After(o, steps, |steps|))
      {
        AlwaysBalanced(o, steps, |steps|);
      }
    } else {
      hide AllGone;
      FailingRunFails(o);
      assert !Balanced(o, After(o, FailingRun(o), |FailingRun(o)|));
    }
  }

  function EachMillisecond(id: nat): int {
    1000000 * id
  }

  /** Two workers with space for five latencies each, and six requests. */
  function SixRequests(): Settings {
    Settings(Cpu, 2, 1, 2, 1, 2, 6, 0, 10000000, EachMillisecond)
  }

  /** One worker serves all six; the completion of its last batch needs a sixth space and is interrupted. */
  lemma InterruptedCompletion()
    ensures Sane(SixRequests()) && SixRequests().offered == 6 && Reserve(SixRequests()) == 5
    ensures var s := After(SixRequests(), FailingRun(SixRequests()), |FailingRun(SixRequests())|);
            AllGone(s) && s.rejected + Outcomes(s.stats) == 7
  {
    var o := SixRequests();
    assert Sane(o) && Outgrows(o);
    hide After;
    FailingRunFails(o);
  }
}
