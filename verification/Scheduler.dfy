/** The scheduler as shared variables: each method is one section of the producer's or a worker's loop. */
module Scheduler {
  import opened Pipeline
  import opened PipelineRuns
  import opened PipelineReport
  import opened LatencyReport

  class Run {
    const o: Settings
    var queues: seq<seq<Request>>
    var queued: int
    var rejected: nat
    var highWater: nat
    var produced: nat
    var done: bool
    var fault: bool
    var phases: seq<Phase>
    var batches: seq<seq<Request>>
    var stats: seq<Stats>
    ghost var settled: multiset<nat>
    ghost var doubled: nat

    ghost function View(): State
      reads this
    {
      State(queues, queued, rejected, highWater, produced, done, fault, phases, batches, stats, settled, doubled)
    }

    ghost predicate Valid()
      reads this
    {
      Sane(o) && Shaped(o, View()) && Inv(o, View())
    }

    constructor (o: Settings)
      requires Sane(o)
      ensures Valid() && View() == Initial(o) && this.o == o
    {
      this.o := o;
      queues, queued, rejected, highWater, produced := seq(o.keys, _ => []), 0, 0, 0, 0;
      done, fault := false, false;
      phases, batches, stats := seq(o.workers, _ => Waiting), seq(o.workers, _ => []), seq(o.workers, _ => NOTHING);
      settled, doubled := multiset{}, 0;
      new;
      InitialHolds(o);
    }

    /** The producer's section for its next request. */
    method Offer()
      requires Valid() && produced < o.offered
      modifies this
      ensures Valid() && View() == Next(o, old(View()), Arrive)
    {
      hide Inv, Sane;
      NextKeeps(o, View(), Arrive);
      if queued >= o.capacity {
        rejected := rejected + 1;
        settled := settled + multiset{produced};
      } else {
        var k := produced % o.keys;
        queues := queues[k := queues[k] + [Request(produced, o.arrival(produced))]];
        queued := queued + 1;
        if highWater < queued {
          highWater := queued;
        }
      }
      produced := produced + 1;
    }

    /** The queue whose front arrived first, the lowest key among equals; -1 when all are empty. */
    method OldestKey() returns (key: int)
      ensures key == OldestFrom(queues, 0, -1)
    {
      key := -1;
      for k := 0 to |queues|
        invariant -1 <= key < k && (key >= 0 ==> queues[key] != [])
        invariant OldestFrom(queues, k, key) == OldestFrom(queues, 0, -1)
      {
        if queues[k] != [] && (key < 0 || queues[k][0].arrival < queues[key][0].arrival) {
          key := k;
        }
      }
    }

    /** A waiting worker's section under the mutex. */
    method TakeBatch(w: nat, now: int)
      requires Valid() && w < o.workers && phases[w].Waiting?
      modifies this
      ensures Valid() && View() == Next(o, old(View()), Take(w, now))
    {
      hide Inv, Sane, Placed, QueuesHold, WorkersHold;
      NextKeeps(o, View(), Take(w, now));
      if queued == 0 {
        if done {
          phases := phases[w := Gone];
        }
        return;
      }
      Choice();
      var key := OldestKey();
      var ready := o.mode.Cpu? || done || fault || |queues[key]| >= o.batch || now - queues[key][0].arrival >= o.wait;
      if !ready {
        return;
      }
      var batch := Pop(key);
      phases, batches := phases[w := Holding(key)], batches[w := batch];
    }

    /** Move requests from the front of a queue until it is empty or the batch is full. */
    method Pop(key: nat) returns (batch: seq<Request>)
      requires key < |queues|
      modifies this`queues, this`queued
      ensures var (q, n) := (old(queues[key]), Min(|old(queues[key])|, o.batch));
              batch == q[..n] && queues == old(queues)[key := q[n..]] && queued == old(queued) - n
    {
      var q := queues[key];
      batch := [];
      while queues[key] != [] && |batch| < o.batch
        invariant |batch| <= Min(|q|, o.batch) && batch == q[..|batch|]
        invariant queues == old(queues)[key := q[|batch|..]] && queued == old(queued) - |batch|
        decreases |queues[key]|
      {
        batch := batch + [queues[key][0]];
        queues := queues[key := queues[key][1..]];
        queued := queued - 1;
      }
    }

    lemma Choice()
      requires Valid() && queued != 0
      ensures OldestFrom(queues, 0, -1) >= 0
    {
      ChoiceExists(o, View());
    }

    /** Outside the mutex: drop expired requests, then fail or dispatch the rest. */
    method DispatchBatch(w: nat, now: int)
      requires Valid() && w < o.workers && phases[w].Holding?
      modifies this
      ensures Valid() && View() == Next(o, old(View()), Dispatch(w, now))
    {
      hide Inv, Sane, Placed, QueuesHold, WorkersHold, Ids, Latencies, CountWithin;
      NextKeeps(o, View(), Dispatch(w, now));
      var batch := batches[w];
      var live, expired := RemoveExpired(batch, now, o.slo);
      var st := stats[w].(expired := stats[w].expired + expired);
      settled := settled + Ids(Expired(batch, now, o.slo));
      hide Live, Expired, Tally;
      if live == [] || fault {
        if live != [] {
          st := st.(failed := st.failed + |live|);
          settled := settled + Ids(live);
        }
        phases, batches, stats := phases[w := Waiting], batches[w := []], stats[w := st];
        return;
      }
      st := st.(batches := Tally(st.batches, |live|));
      if o.mode.Gpu? || (o.mode.Hybrid? && |live| >= o.minimum) {
        st := st.(gpuItems := st.gpuItems + |live|, gpuBatches := st.gpuBatches + 1);
      } else {
        st := st.(cpuItems := st.cpuItems + |live|, cpuBatches := st.cpuBatches + 1);
      }
      phases, batches, stats := phases[w := Signing(phases[w].key)], batches[w := live], stats[w := st];
    }

    /** The end of signing: a verified batch is counted request by request. */
    method CompleteBatch(w: nat, end: int)
      requires Valid() && w < o.workers && phases[w].Signing?
      modifies this
      ensures Valid() && View() == Next(o, old(View()), Complete(w, end, 0, true))
    {
      hide Inv, Sane, Placed, QueuesHold, WorkersHold, Ids, Finished;
      NextKeeps(o, View(), Complete(w, end, 0, true));
      var batch := batches[w];
      assert batch[..|batch|] == batch;
      var st := Count(stats[w], batch, |batch|, end, o.slo);
      settled := settled + Ids(batch);
      phases, batches, stats := phases[w := Waiting], batches[w := []], stats[w := st];
    }

    /** When signing or verification raises, the whole batch fails; also when counting raises because there is no space for
        one more latency, and then the requests before that were counted. */
    method FailBatch(w: nat, end: int, counted: nat)
      requires Valid() && w < o.workers && phases[w].Signing?
      requires counted > 0 ==> CanInterrupt(o, stats[w], counted, |batches[w]|)
      modifies this
      ensures Valid() && View() == Next(o, old(View()), Complete(w, end, counted, false))
    {
      hide Inv, Sane, Ids, Finished, Next, CanInterrupt;
      NextKeeps(o, View(), Complete(w, end, counted, false));
      FailsAs(o, View(), w, end, counted);
      var batch := batches[w];
      var st := Count(stats[w], batch, counted, end, o.slo);
      settled := settled + Ids(batch);
      phases, batches, stats := phases[w := Waiting], batches[w := []], stats[w := st.(failed := st.failed + |batch|)];
      fault, doubled := true, doubled + counted;
    }
  }

  /** What a failing completion leaves behind, once it is known where it failed. */
  lemma FailsAs(o: Settings, s: State, w: nat, end: int, counted: nat)
    requires Shaped(o, s) && w < o.workers && s.phases[w].Signing?
    requires counted > 0 ==> CanInterrupt(o, s.stats[w], counted, |s.batches[w]|)
    ensures counted <= |s.batches[w]|
    ensures var batch := s.batches[w];
            var st := Finished(s.stats[w], batch[..counted], end, o.slo);
            Next(o, s, Complete(w, end, counted, false)) ==
            s.(phases := s.phases[w := Waiting], batches := s.batches[w := []], settled := s.settled + Ids(batch),
               stats := s.stats[w := st.(failed := st.failed + |batch|)], fault := true, doubled := s.doubled + counted)
  {
    hide Ids, Finished;
  }

  /** Split a batch by age, keeping the order of what remains. */
  method RemoveExpired(batch: seq<Request>, now: int, slo: int) returns (live: seq<Request>, expired: nat)
    ensures live == Live(batch, now, slo) && expired == |Expired(batch, now, slo)|
  {
    live, expired := [], 0;
    for i := 0 to |batch|
      invariant live == Live(batch[..i], now, slo) && expired == |Expired(batch[..i], now, slo)|
    {
      assert batch[..i + 1][..i] == batch[..i] && batch[..i + 1][i] == batch[i];
      if Late(batch[i], now, slo) {
        expired := expired + 1;
      } else {
        live := live + [batch[i]];
      }
    }
    assert batch[..|batch|] == batch;
  }

  /** Count the first `limit` requests of a verified batch one by one. */
  method Count(before: Stats, batch: seq<Request>, limit: nat, end: int, slo: int) returns (st: Stats)
    requires limit <= |batch|
    ensures st == Finished(before, batch[..limit], end, slo)
  {
    st := before;
    NothingFinished(before, end, slo);
    hide Finished;
    for i := 0 to limit
      invariant st == Finished(before, batch[..i], end, slo)
    {
      var ms := end - batch[i].arrival;
      OneMoreFinished(before, batch, i, end, slo);
      st := st.(latencies := st.latencies + [ms], verified := st.verified + 1, good := st.good + if ms <= slo then 1 else 0);
    }
  }

  lemma NothingFinished(before: Stats, end: int, slo: int)
    ensures Finished(before, [], end, slo) == before
  {
    assert Latencies([], end) == [];
  }

  lemma OneMoreFinished(before: Stats, batch: seq<Request>, i: nat, end: int, slo: int)
    requires i < |batch|
    ensures var (st, ms) := (Finished(before, batch[..i], end, slo), end - batch[i].arrival);
            Finished(before, batch[..i + 1], end, slo) ==
            st.(latencies := st.latencies + [ms], verified := st.verified + 1, good := st.good + if ms <= slo then 1 else 0)
  {
    OneMoreLatency(batch, i, end, slo);
    hide CountWithin, Latencies;
  }

  lemma OneMoreLatency(batch: seq<Request>, i: nat, end: int, slo: int)
    requires i < |batch|
    ensures Latencies(batch[..i + 1], end) == Latencies(batch[..i], end) + [end - batch[i].arrival]
    ensures CountWithin(Latencies(batch[..i + 1], end), slo)
         == CountWithin(Latencies(batch[..i], end), slo) + if end - batch[i].arrival <= slo then 1 else 0
  {
    var l := Latencies(batch[..i + 1], end);
    assert l[..i] == Latencies(batch[..i], end);
  }

  /** Merge the workers' counters one worker after another. */
  method Aggregate(stats: seq<Stats>) returns (total: Stats)
    ensures total == Totals(stats)
  {
    total := NOTHING;
    for w := 0 to |stats|
      invariant total == Totals(stats[..w])
    {
      assert stats[..w + 1][..w] == stats[..w];
      total := Plus(total, stats[w]);
    }
    assert stats[..|stats|] == stats;
  }
}
