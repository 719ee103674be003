/** Exactly what each section of the pipeline does in a reachable state, and what the run's counters are. */
module PipelineSteps {
  import opened LatencyReport
  import opened Pipeline
  import opened PipelineRuns

  // ----- Arrivals

  /** The next request is refused if and only if as many requests as the capacity are queued; otherwise it becomes the last of
      the queue of its key, with its scheduled arrival. Nothing else changes but the high-water mark. */
  lemma ArrivesExactly(o: Settings, s: State)
    requires Inv(o, s) && s.produced < o.offered
    ensures var s', total, key := Next(o, s, Arrive), Lengths(s.queues), s.produced % o.keys;
            && s'.produced == s.produced + 1
            && (total >= o.capacity ==>
                  s' == s.(produced := s'.produced, rejected := s.rejected + 1, settled := s.settled + multiset{s.produced}))
            && (total < o.capacity ==>
                  && s' == s.(produced := s'.produced, queued := total + 1, queues := s'.queues, highWater := s'.highWater)
                  && |s'.queues| == |s.queues|
                  && s'.queues[key] == s.queues[key] + [Request(s.produced, o.arrival(s.produced))]
                  && (forall k | 0 <= k < |s.queues| && k != key :: s'.queues[k] == s.queues[k])
                  && s'.highWater >= s.highWater && s'.highWater >= total + 1
                  && (s'.highWater == s.highWater || s'.highWater == total + 1))
  {
    hide Placed, QueuesHold, WorkersHold, Lengths;
  }

  lemma QueuedMoves(o: Settings, s: State, step: Step)
    requires Inv(o, s)
    ensures Next(o, s, step).highWater == if s.highWater >= Next(o, s, step).queued then s.highWater else Next(o, s, step).queued
  {
    hide Placed, QueuesHold, WorkersHold, Lengths, OldestFrom, ReadyToTake, Live, Expired, Ids, Finished;
  }

  /** The reported high-water mark is the largest number of requests that were ever queued together. */
  lemma {:induction false} HighWaterIsMaximum(o: Settings, steps: seq<Step>, n: nat)
    requires Sane(o) && n <= |steps|
    ensures forall k | 0 <= k <= n :: After(o, steps, k).queued <= After(o, steps, n).highWater
    ensures exists k :: 0 <= k <= n && After(o, steps, k).queued == After(o, steps, n).highWater
  {
    hide Inv, Next;
    if n == 0 {
      assert After(o, steps, 0).queued == 0 == After(o, steps, 0).highWater;
    } else {
      HighWaterIsMaximum(o, steps, n - 1);
      RunsKeep(o, steps, n - 1);
      QueuedMoves(o, After(o, steps, n - 1), steps[n - 1]);
      var k :| 0 <= k <= n - 1 && After(o, steps, k).queued == After(o, steps, n - 1).highWater;
      var highest := if After(o, steps, n).highWater == After(o, steps, n - 1).highWater then k else n;
      assert After(o, steps, highest).queued == After(o, steps, n).highWater;
    }
  }

  // ----- Taking

  /** Queue `key` has the oldest front, and of several the least key. */
  predicate IsOldest(queues: seq<seq<Request>>, key: nat) {
    && key < |queues| && queues[key] != []
    && forall k | 0 <= k < |queues| && queues[k] != [] ::
         queues[key][0].arrival <= queues[k][0].arrival && (k < key ==> queues[key][0].arrival < queues[k][0].arrival)
  }

  lemma {:induction false} OldestIs(queues: seq<seq<Request>>, k: nat, best: int)
    requires k <= |queues| && -1 <= best < k && (best >= 0 ==> queues[best] != [])
    requires forall j | 0 <= j < k && queues[j] != [] ::
               && best >= 0 && queues[best][0].arrival <= queues[j][0].arrival
               && (j < best ==> queues[best][0].arrival < queues[j][0].arrival)
    ensures var key := OldestFrom(queues, k, best);
            if key >= 0 then IsOldest(queues, key) else forall j | 0 <= j < |queues| :: queues[j] == []
    decreases |queues| - k
  {
    if k < |queues| {
      var better := queues[k] != [] && (best < 0 || queues[k][0].arrival < queues[best][0].arrival);
      OldestIs(queues, k + 1, if better then k else best);
    }
  }

  /** A full queue, a front that has waited long enough, a CPU worker, the end of production, or a fault. */
  predicate Ripe(o: Settings, s: State, key: nat, now: int)
    requires key < |s.queues| && s.queues[key] != []
  {
    || o.mode == Cpu || s.done || s.fault || |s.queues[key]| >= o.batch || now >= s.queues[key][0].arrival + o.wait
  }

  /** A waiting worker looks at the queue with the oldest front. If that is ripe, the worker takes its front up to a batch;
      otherwise it keeps waiting. It leaves if and only if nothing is queued and production is over. */
  lemma TakesExactly(o: Settings, s: State, w: nat, now: int, key: nat)
    requires Inv(o, s) && w < o.workers && s.phases[w].Waiting? && IsOldest(s.queues, key)
    ensures var s' := Next(o, s, Take(w, now));
            if !Ripe(o, s, key, now) then s' == s
            else
              var n := if |s.queues[key]| < o.batch then |s.queues[key]| else o.batch;
              && s' == s.(queues := s'.queues, queued := s.queued - n, phases := s'.phases, batches := s'.batches)
              && s'.batches == s.batches[w := s.queues[key][..n]] && s'.phases == s.phases[w := Holding(key)]
              && s'.queues == s.queues[key := s.queues[key][n..]]
  {
    OldestIs(s.queues, 0, -1);
    var found := OldestFrom(s.queues, 0, -1);
    assert found >= 0;
    OnlyOldest(s.queues, key, found);
    LengthAtLeast(s.queues, key);
    hide Placed, QueuesHold, WorkersHold, Lengths, OldestFrom, IsOldest;
  }

  lemma OnlyOldest(queues: seq<seq<Request>>, a: nat, b: nat)
    requires IsOldest(queues, a) && IsOldest(queues, b)
    ensures a == b
  {
  }

  lemma {:induction false} LengthAtLeast(qs: seq<seq<Request>>, k: nat)
    requires k < |qs|
    ensures |qs[k]| <= Lengths(qs)
    decreases |qs|
  {
    if k < |qs| - 1 {
      LengthAtLeast(qs[..|qs| - 1], k);
    }
  }

  lemma LeavesExactly(o: Settings, s: State, w: nat, now: int)
    requires Inv(o, s) && w < o.workers && s.phases[w].Waiting? && forall k | 0 <= k < |s.queues| :: s.queues[k] == []
    ensures Next(o, s, Take(w, now)) == if s.done then s.(phases := s.phases[w := Gone]) else s
  {
    AllIdsOfNothing(s.queues);
    hide Placed, QueuesHold, WorkersHold;
  }

  /** While anything is queued there is a queue with the oldest front. */
  lemma OldestExists(o: Settings, s: State) returns (key: nat)
    requires Inv(o, s) && s.queued > 0
    ensures IsOldest(s.queues, key)
  {
    OldestIs(s.queues, 0, -1);
    if OldestFrom(s.queues, 0, -1) < 0 {
      AllIdsOfNothing(s.queues);
    }
    key := OldestFrom(s.queues, 0, -1);
  }

  // ----- Dispatching

  /** Of a batch there remain, in order, exactly the requests no older than the objective. */
  lemma {:induction false} LiveExactly(batch: seq<Request>, now: int, slo: int) returns (kept: seq<nat>)
    ensures |kept| == |Live(batch, now, slo)| && forall i, j | 0 <= i < j < |kept| :: kept[i] < kept[j]
    ensures forall i | 0 <= i < |kept| :: kept[i] < |batch| && Live(batch, now, slo)[i] == batch[kept[i]]
    ensures forall p: nat | p < |batch| :: p in kept <==> now <= batch[p].arrival + slo
    ensures |Expired(batch, now, slo)| == |batch| - |kept|
    decreases |batch|
  {
    if batch == [] {
      kept := [];
    } else {
      var last := |batch| - 1;
      var init := batch[..last];
      var before := LiveExactly(init, now, slo);
      LastLive(batch, now, slo);
      hide Live, Expired;
      assert forall p: nat | p < last :: init[p] == batch[p];
      if now <= batch[last].arrival + slo {
        kept := before + [last];
        assert forall p :: p in kept <==> p in before || p == last;
      } else {
        kept := before;
        assert last !in kept;
      }
    }
  }

  lemma LastLive(batch: seq<Request>, now: int, slo: int)
    requires batch != []
    ensures var init, last := batch[..|batch| - 1], batch[|batch| - 1];
            if now <= last.arrival + slo then
              Live(batch, now, slo) == Live(init, now, slo) + [last] && Expired(batch, now, slo) == Expired(init, now, slo)
            else
              Live(batch, now, slo) == Live(init, now, slo) && |Expired(batch, now, slo)| == |Expired(init, now, slo)| + 1
  {
  }

  /** The GPU signs a batch in its own mode, and in hybrid mode one of at least the minimum size. */
  predicate OnGpu(o: Settings, size: nat) {
    o.mode == Gpu || (o.mode == Hybrid && size >= o.minimum)
  }

  /** What a dispatch does with the requests that remain: nothing without any, all of them failed after a fault, otherwise one
      more batch of this size on the right side. */
  lemma DispatchesExactly(o: Settings, s: State, w: nat, now: int)
    requires Inv(o, s) && w < o.workers && s.phases[w].Holding?
    ensures var s', live, before := Next(o, s, Dispatch(w, now)), Live(s.batches[w], now, o.slo), s.stats[w];
            var after, size := s'.stats[w], |live|;
            && s' == s.(phases := s'.phases, batches := s'.batches, stats := s'.stats, settled := s'.settled)
            && s'.stats == s.stats[w := after] && after.expired == before.expired + |s.batches[w]| - size
            && after.verified == before.verified && after.good == before.good && after.latencies == before.latencies
            && if size == 0 || s.fault then
                 && s'.phases == s.phases[w := Waiting] && s'.batches == s.batches[w := []]
                 && after == before.(expired := after.expired, failed := before.failed + size)
               else
                 && s'.phases == s.phases[w := Signing(s.phases[w].key)] && s'.batches == s.batches[w := live]
                 && after.failed == before.failed
                 && after.gpuItems == before.gpuItems + (if OnGpu(o, size) then size else 0)
                 && after.gpuBatches == before.gpuBatches + (if OnGpu(o, size) then 1 else 0)
                 && after.cpuItems == before.cpuItems + (if OnGpu(o, size) then 0 else size)
                 && after.cpuBatches == before.cpuBatches + (if OnGpu(o, size) then 0 else 1)
                 && after.batches.Keys == before.batches.Keys + {size}
                 && after.batches[size] == 1 + (if size in before.batches then before.batches[size] else 0)
                 && forall n | n in before.batches && n != size :: after.batches[n] == before.batches[n]
  {
    hide Placed, QueuesHold, WorkersHold, Accounted, Ids, Live, Expired, Counted;
    ExpirySplits(s.batches[w], now, o.slo);
    var expired := s.stats[w].(expired := s.stats[w].expired + |Expired(s.batches[w], now, o.slo)|);
    CountsOneBatch(o, expired, |Live(s.batches[w], now, o.slo)|);
  }

  lemma CountsOneBatch(o: Settings, before: Stats, size: nat)
    ensures var after := Counted(o, before, size);
            && after == before.(cpuItems := after.cpuItems, gpuItems := after.gpuItems, cpuBatches := after.cpuBatches,
                                gpuBatches := after.gpuBatches, batches := after.batches)
            && after.gpuItems == before.gpuItems + (if OnGpu(o, size) then size else 0)
            && after.gpuBatches == before.gpuBatches + (if OnGpu(o, size) then 1 else 0)
            && after.cpuItems == before.cpuItems + (if OnGpu(o, size) then 0 else size)
            && after.cpuBatches == before.cpuBatches + (if OnGpu(o, size) then 0 else 1)
            && after.batches.Keys == before.batches.Keys + {size}
            && after.batches[size] == 1 + (if size in before.batches then before.batches[size] else 0)
            && forall n | n in before.batches && n != size :: after.batches[n] == before.batches[n]
  {
  }

  // ----- Completing

  /** A verified batch adds one latency for each request, from its arrival to the end, and counts those within the objective. */
  lemma CompletesExactly(o: Settings, s: State, w: nat, end: int)
    requires Inv(o, s) && w < o.workers && s.phases[w].Signing?
    ensures var s', batch, before := Next(o, s, Complete(w, end, 0, true)), s.batches[w], s.stats[w];
            var after := s'.stats[w];
            && s' == s.(phases := s.phases[w := Waiting], batches := s.batches[w := []], stats := s.stats[w := after],
                        settled := s'.settled)
            && after == before.(verified := before.verified + |batch|, good := after.good, latencies := after.latencies)
            && |after.latencies| == |before.latencies| + |batch| && after.latencies[..|before.latencies|] == before.latencies
            && (forall i | 0 <= i < |batch| :: after.latencies[|before.latencies| + i] == end - batch[i].arrival)
            && after.good == before.good + |set i: nat | i < |batch| && end - batch[i].arrival <= o.slo|
  {
    var batch := s.batches[w];
    WithinObjective(batch, Latencies(batch, end), end, o.slo);
    hide Placed, QueuesHold, WorkersHold, Accounted, Ids, CountWithin;
  }

  lemma {:induction false} WithinObjective(batch: seq<Request>, latencies: seq<int>, end: int, slo: int)
    requires |latencies| == |batch| && forall i | 0 <= i < |batch| :: latencies[i] == end - batch[i].arrival
    ensures CountWithin(latencies, slo) == |set i: nat | i < |batch| && end - batch[i].arrival <= slo|
  {
    var within := set i: nat | i < |batch| && end - batch[i].arrival <= slo;
    if batch == [] {
      assert within == {};
    } else {
      var last := |batch| - 1;
      WithinObjective(batch[..last], latencies[..last], end, slo);
      var before := set i: nat | i < |batch[..last]| && end - batch[..last][i].arrival <= slo;
      assert within == before + if end - batch[last].arrival <= slo then {last} else {};
    }
  }

  /** A batch that is not verified fails as a whole, and from then on every section sees the fault. */
  lemma FailsExactly(o: Settings, s: State, w: nat, end: int)
    requires Inv(o, s) && w < o.workers && s.phases[w].Signing?
    ensures var s', before := Next(o, s, Complete(w, end, 0, false)), s.stats[w];
            s' == s.(phases := s.phases[w := Waiting], batches := s.batches[w := []], fault := true,
                     stats := s.stats[w := before.(failed := before.failed + |s.batches[w]|)], settled := s'.settled)
  {
    assert s.batches[w][..0] == [];
    assert Latencies([], end) == [] && s.stats[w].latencies + [] == s.stats[w].latencies;
    hide Placed, QueuesHold, WorkersHold, Accounted, Ids;
  }
}
