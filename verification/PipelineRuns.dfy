/** What the pipeline scheduler keeps at every step of every run. */
module PipelineRuns {
  import opened FiniteSums
  import opened Pipeline
  import opened LatencyReport

  // ----- Requests by id

  type Bag = multiset<nat>

  function AllIds(qs: seq<seq<Request>>): (m: Bag)
    ensures |m| == Lengths(qs)
  {
    if qs == [] then multiset{} else AllIds(qs[..|qs| - 1]) + Ids(qs[|qs| - 1])
  }

  function Lengths(qs: seq<seq<Request>>): nat {
    if qs == [] then 0 else Lengths(qs[..|qs| - 1]) + |qs[|qs| - 1]|
  }

  /** All ids handed out so far, each once. */
  function Numbers(n: nat): (m: Bag)
    ensures |m| == n
  {
    if n == 0 then multiset{} else Numbers(n - 1) + multiset{n - 1}
  }

  lemma {:induction false} NumbersOnce(n: nat, i: nat)
    ensures Numbers(n)[i] == if i < n then 1 else 0
  {
    if n > 0 {
      NumbersOnce(n - 1, i);
    }
  }

  lemma SameSum(a: Bag, b: Bag, c: Bag, d: Bag, e: Bag)
    requires a + b == c + d
    ensures (a + e) + b == (c + e) + d
  {
    Associate(a, b, e);
    Associate(c, d, e);
  }

  lemma CancelSum(a: Bag, b: Bag, c: Bag)
    requires a + c == b + c
    ensures a == b
  {
    forall i
      ensures a[i] == b[i]
    {
      assert (a + c)[i] == a[i] + c[i] && (b + c)[i] == b[i] + c[i];
    }
  }

  lemma {:induction false} AllIdsPut(qs: seq<seq<Request>>, k: nat, q: seq<Request>)
    requires k < |qs|
    ensures AllIds(qs[k := q]) + Ids(qs[k]) == AllIds(qs) + Ids(q)
    ensures Lengths(qs[k := q]) + |qs[k]| == Lengths(qs) + |q|
    decreases |qs|
  {
    hide Ids;
    var n := |qs| - 1;
    if k == n {
      assert qs[k := q][..n] == qs[..n];
      SameSum(multiset{}, Ids(q) + Ids(qs[k]), multiset{}, Ids(qs[k]) + Ids(q), AllIds(qs[..n]));
    } else {
      AllIdsPut(qs[..n], k, q);
      assert qs[k := q][..n] == qs[..n][k := q];
      SameSum(AllIds(qs[..n][k := q]), Ids(qs[k]), AllIds(qs[..n]), Ids(q), Ids(qs[n]));
    }
  }

  lemma {:induction false} AllIdsOfNothing(qs: seq<seq<Request>>)
    requires forall k | 0 <= k < |qs| :: qs[k] == []
    ensures AllIds(qs) == multiset{} && Lengths(qs) == 0
  {
    if qs != [] {
      AllIdsOfNothing(qs[..|qs| - 1]);
    }
  }

  lemma {:induction false} IdsConcat(a: seq<Request>, b: seq<Request>)
    ensures Ids(a + b) == Ids(a) + Ids(b)
    decreases |b|
  {
    if b == [] {
      assert a + b == a;
    } else {
      var init, last := b[..|b| - 1], b[|b| - 1];
      IdsConcat(a, init);
      assert (a + b)[..|a + b| - 1] == a + init && (a + b)[|a + b| - 1] == last;
      Associate(Ids(a), Ids(init), multiset{last.id});
    }
  }

  lemma Associate(a: Bag, b: Bag, c: Bag)
    ensures (a + b) + c == a + (b + c) == (a + c) + b
  {
  }

  lemma IdsOfOne(r: Request)
    ensures Ids([r]) == multiset{r.id} && Ids([]) == multiset{}
  {
    assert [r][..0] == [];
  }

  lemma IdsSnoc(batch: seq<Request>, r: Request)
    ensures Ids(batch + [r]) == Ids(batch) + multiset{r.id}
  {
    hide Ids;
    IdsConcat(batch, [r]);
    IdsOfOne(r);
  }

  /** Dropping the expired requests splits a batch. */
  lemma {:induction false} ExpirySplits(batch: seq<Request>, now: int, slo: int)
    ensures Ids(Expired(batch, now, slo)) + Ids(Live(batch, now, slo)) == Ids(batch)
    ensures |Expired(batch, now, slo)| + |Live(batch, now, slo)| == |batch|
    decreases |batch|
  {
    hide Ids, Late;
    if batch == [] {
      NoIds();
    } else {
      var init, last := batch[..|batch| - 1], batch[|batch| - 1];
      ExpirySplits(init, now, slo);
      var expired, live := Expired(init, now, slo), Live(init, now, slo);
      IdsSnoc(expired, last);
      IdsSnoc(live, last);
      IdsSnoc(init, last);
      assert init + [last] == batch;
      Associate(Ids(expired), Ids(live), multiset{last.id});
    }
  }

  lemma {:induction false} LiveMembers(batch: seq<Request>, now: int, slo: int)
    ensures forall r | r in Live(batch, now, slo) :: r in batch && !Late(r, now, slo)
    decreases |batch|
  {
    if batch != [] {
      LiveMembers(batch[..|batch| - 1], now, slo);
    }
  }

  // ----- Outcomes

  function Outcomes(stats: seq<Stats>): nat {
    if stats == [] then 0
    else Outcomes(stats[..|stats| - 1]) + stats[|stats| - 1].verified + stats[|stats| - 1].expired + stats[|stats| - 1].failed
  }

  lemma {:induction false} OutcomesPut(stats: seq<Stats>, w: nat, st: Stats)
    requires w < |stats|
    ensures Outcomes(stats[w := st]) + stats[w].verified + stats[w].expired + stats[w].failed
         == Outcomes(stats) + st.verified + st.expired + st.failed
    decreases |stats|
  {
    var n := |stats| - 1;
    if w == n {
      assert stats[w := st][..n] == stats[..n];
    } else {
      OutcomesPut(stats[..n], w, st);
      assert stats[w := st][..n] == stats[..n][w := st];
    }
  }

  lemma {:induction false} NoOutcomes(n: nat)
    ensures Outcomes(seq(n, _ => NOTHING)) == 0
  {
    if n > 0 {
      NoOutcomes(n - 1);
      assert seq(n, _ => NOTHING)[..n - 1] == seq(n - 1, _ => NOTHING);
    }
  }

  // ----- The invariant

  /** Every request handed out is in exactly one place: queued, with a worker, or settled. */
  ghost predicate Placed(s: State) {
    AllIds(s.queues) + AllIds(s.batches) + s.settled == Numbers(s.produced)
  }

  predicate Accounted(o: Settings, s: State) {
    && s.queued == Lengths(s.queues) <= s.highWater <= o.capacity
    && |s.settled| + s.doubled == s.rejected + Outcomes(s.stats)
    && s.produced <= o.offered && (s.done ==> s.produced == o.offered)
  }

  /** The request belongs to this key and arrives when it was scheduled. */
  predicate Belongs(o: Settings, r: Request, key: nat)
    requires o.keys > 0
  {
    r.id % o.keys == key && r.arrival == o.arrival(r.id)
  }

  /** Each queue holds requests of its own key only, in the order of their arrival. */
  predicate QueueHolds(o: Settings, q: seq<Request>, key: nat, produced: nat)
    requires o.keys > 0
  {
    && (forall i | 0 <= i < |q| :: Belongs(o, q[i], key) && q[i].id < produced)
    && forall i, j | 0 <= i < j < |q| :: q[i].id < q[j].id
  }

  predicate QueuesHold(o: Settings, s: State)
    requires Shaped(o, s)
  {
    forall k | 0 <= k < |s.queues| :: QueueHolds(o, s.queues[k], k, s.produced)
  }

  /** A worker's batch has one key, and at most the allowed size. */
  predicate WorkerHolds(o: Settings, phase: Phase, batch: seq<Request>)
    requires o.keys > 0
  {
    if phase.Waiting? || phase.Gone? then batch == []
    else 1 <= |batch| <= o.batch && forall r | r in batch :: Belongs(o, r, phase.key)
  }

  predicate WorkersHold(o: Settings, s: State)
    requires Shaped(o, s)
  {
    && (forall w | 0 <= w < o.workers :: WorkerHolds(o, s.phases[w], s.batches[w]))
    && forall w | 0 <= w < o.workers && s.phases[w].Gone? :: s.done && s.queued == 0
  }

  ghost predicate Inv(o: Settings, s: State) {
    Shaped(o, s) && Placed(s) && Accounted(o, s) && QueuesHold(o, s) && WorkersHold(o, s)
  }

  lemma InitialHolds(o: Settings)
    requires Sane(o)
    ensures Inv(o, Initial(o))
  {
    var s := Initial(o);
    AllIdsOfNothing(s.queues);
    AllIdsOfNothing(s.batches);
    NoOutcomes(o.workers);
  }

  // ----- Arrivals

  lemma ArrivePlaced(o: Settings, s: State)
    requires Inv(o, s)
    ensures Placed(ArriveStep(o, s)) && Accounted(o, ArriveStep(o, s))
  {
    hide QueuesHold, WorkersHold, Ids, AllIds, Lengths, Outcomes;
    if s.produced < o.offered && s.queued < o.capacity {
      var k, r := s.produced % o.keys, Request(s.produced, o.arrival(s.produced));
      AllIdsPut(s.queues, k, s.queues[k] + [r]);
      IdsSnoc(s.queues[k], r);
      var queues' := s.queues[k := s.queues[k] + [r]];
      OneMore(AllIds(queues'), AllIds(s.queues), Ids(s.queues[k]), multiset{r.id}, AllIds(s.batches), s.settled);
    } else if s.produced < o.offered {
      Associate(AllIds(s.queues) + AllIds(s.batches), s.settled, multiset{s.produced});
    }
  }

  lemma OneMore(q': Bag, q: Bag, old': Bag, r: Bag, b: Bag, s: Bag)
    requires q' + old' == q + (old' + r)
    ensures q' + b + s == (q + b + s) + r
  {
    Associate(q, old', r);
    CancelSum(q', q + r, old');
    Associate(q, b + s, r);
    Associate(q + r, b, s);
    Associate(q, b, s);
  }

  lemma ArriveQueues(o: Settings, s: State)
    requires Inv(o, s)
    ensures QueuesHold(o, ArriveStep(o, s)) && WorkersHold(o, ArriveStep(o, s))
  {
    hide Placed;
    var s' := ArriveStep(o, s);
    forall k | 0 <= k < |s'.queues|
      ensures QueueHolds(o, s'.queues[k], k, s'.produced)
    {
      assert QueueHolds(o, s.queues[k], k, s.produced);
    }
  }

  // ----- Taking a batch

  /** The chosen queue's front arrived no later than any queued request, and no front before it arrived as early. */
  lemma {:induction false} OldestFromLeast(queues: seq<seq<Request>>, k: nat, best: int, j: nat)
    requires k <= |queues| && -1 <= best < k && (best >= 0 ==> queues[best] != [])
    requires j < |queues| && queues[j] != [] && (j >= k || (best >= 0 && queues[best][0].arrival <= queues[j][0].arrival))
    ensures OldestFrom(queues, k, best) >= 0
    ensures queues[OldestFrom(queues, k, best)][0].arrival <= queues[j][0].arrival
    decreases |queues| - k
  {
    if k < |queues| {
      if queues[k] != [] && (best < 0 || queues[k][0].arrival < queues[best][0].arrival) {
        OldestFromLeast(queues, k + 1, k, j);
      } else {
        OldestFromLeast(queues, k + 1, best, j);
      }
    }
  }

  lemma {:induction false} SomeQueued(queues: seq<seq<Request>>) returns (j: nat)
    requires Lengths(queues) > 0
    ensures j < |queues| && queues[j] != []
  {
    if queues[|queues| - 1] != [] {
      j := |queues| - 1;
    } else {
      j := SomeQueued(queues[..|queues| - 1]);
    }
  }

  /** When anything is queued there is a choice. */
  lemma ChoiceExists(o: Settings, s: State)
    requires Inv(o, s) && s.queued > 0
    ensures OldestFrom(s.queues, 0, -1) >= 0
  {
    var j := SomeQueued(s.queues);
    OldestFromLeast(s.queues, 0, -1, j);
  }

  lemma TakePlaced(o: Settings, s: State, w: nat, now: int)
    requires Inv(o, s)
    ensures Placed(TakeStep(o, s, w, now)) && Accounted(o, TakeStep(o, s, w, now))
  {
    hide QueuesHold, Ids, OldestFrom, ReadyToTake, AllIds, Lengths, Outcomes;
    var key := OldestFrom(s.queues, 0, -1);
    if w < o.workers && s.phases[w].Waiting? && s.queued > 0 && key >= 0 {
      var q := s.queues[key];
      var n := Min(|q|, o.batch);
      assert WorkerHolds(o, s.phases[w], s.batches[w]);
      AllIdsPut(s.queues, key, q[n..]);
      AllIdsPut(s.batches, w, q[..n]);
      IdsConcat(q[..n], q[n..]);
      assert q[..n] + q[n..] == q;
      NoIds();
      Moved(AllIds(s.queues[key := q[n..]]), AllIds(s.queues), Ids(q[..n]), Ids(q[n..]),
            AllIds(s.batches[w := q[..n]]), AllIds(s.batches), s.settled);
    }
  }

  lemma NoIds()
    ensures Ids([]) == multiset{}
  {
  }

  /** What leaves the queues enters the batches. */
  lemma Moved(q': Bag, q: Bag, head: Bag, rest: Bag, b': Bag, b: Bag, s: Bag)
    requires q' + (head + rest) == q + rest && b' + multiset{} == b + head
    ensures q' + b' + s == q + b + s
  {
    Associate(q', head, rest);
    CancelSum(q' + head, q, rest);
    assert b' + multiset{} == b';
    Associate(q', b, head);
  }

  lemma TakeQueues(o: Settings, s: State, w: nat, now: int)
    requires Inv(o, s) && o.batch >= 1
    ensures QueuesHold(o, TakeStep(o, s, w, now)) && WorkersHold(o, TakeStep(o, s, w, now))
  {
    hide Placed, OldestFrom, ReadyToTake;
    var s' := TakeStep(o, s, w, now);
    forall k | 0 <= k < |s'.queues|
      ensures QueueHolds(o, s'.queues[k], k, s'.produced)
    {
      assert QueueHolds(o, s.queues[k], k, s.produced);
    }
    forall v | 0 <= v < o.workers
      ensures WorkerHolds(o, s'.phases[v], s'.batches[v])
    {
      assert WorkerHolds(o, s.phases[v], s.batches[v]);
    }
  }

  // ----- Dispatching and completing

  lemma DispatchPlaced(o: Settings, s: State, w: nat, now: int)
    requires Inv(o, s)
    ensures Placed(DispatchStep(o, s, w, now))
  {
    hide QueuesHold, WorkersHold, Ids, Expired, Live, Tally, AllIds, Lengths, Outcomes, Accounted, Counted;
    if w < o.workers && s.phases[w].Holding? {
      var s' := DispatchStep(o, s, w, now);
      var batch := s.batches[w];
      var expired, live := Ids(Expired(batch, now, o.slo)), Ids(Live(batch, now, o.slo));
      ExpirySplits(batch, now, o.slo);
      AllIdsPut(s.batches, w, s'.batches[w]);
      NoIds();
      if s'.batches[w] == [] {
        Left(AllIds(s.queues), AllIds(s'.batches), AllIds(s.batches), expired, live, multiset{}, s.settled);
        Associate(s.settled, expired, live);
        assert live + multiset{} == live && (Live(batch, now, o.slo) == [] ==> expired + live == expired);
      } else {
        Left(AllIds(s.queues), AllIds(s'.batches), AllIds(s.batches), expired, multiset{}, live, s.settled);
        assert expired + multiset{} == expired && multiset{} + live == live;
      }
    }
  }

  lemma DispatchAccounted(o: Settings, s: State, w: nat, now: int)
    requires Inv(o, s)
    ensures Accounted(o, DispatchStep(o, s, w, now))
  {
    hide QueuesHold, WorkersHold, Placed, Ids, Expired, Live, Tally, Lengths, Outcomes;
    if w < o.workers && s.phases[w].Holding? {
      var s' := DispatchStep(o, s, w, now);
      ExpirySplits(s.batches[w], now, o.slo);
      OutcomesPut(s.stats, w, s'.stats[w]);
    }
  }

  /** What leaves a batch is settled; `kept` stays. */
  lemma Left(q: Bag, b': Bag, b: Bag, gone: Bag, goneToo: Bag, kept: Bag, s: Bag)
    requires b' + (gone + (goneToo + kept)) == b + kept
    ensures q + b' + (s + (gone + goneToo)) == q + b + s
  {
    var g := gone + goneToo;
    Associate(gone, goneToo, kept);
    Associate(b', g, kept);
    CancelSum(b' + g, b, kept);
    Associate(q + b', s, g);
    Associate(q, b', g);
    Associate(q + b', g, s);
  }

  lemma DispatchWorkers(o: Settings, s: State, w: nat, now: int)
    requires Inv(o, s)
    ensures QueuesHold(o, DispatchStep(o, s, w, now)) && WorkersHold(o, DispatchStep(o, s, w, now))
  {
    hide Placed, QueueHolds, Accounted, Expired, Live, Tally, Ids, Late;
    var s' := DispatchStep(o, s, w, now);
    if w < o.workers && s.phases[w].Holding? {
      ExpirySplits(s.batches[w], now, o.slo);
      LiveMembers(s.batches[w], now, o.slo);
    }
    forall v | 0 <= v < o.workers
      ensures WorkerHolds(o, s'.phases[v], s'.batches[v])
    {
      assert WorkerHolds(o, s.phases[v], s.batches[v]);
    }
  }

  lemma CompletePlaced(o: Settings, s: State, w: nat, end: int, counted: nat, ok: bool)
    requires Inv(o, s)
    ensures Placed(CompleteStep(o, s, w, end, counted, ok)) && Accounted(o, CompleteStep(o, s, w, end, counted, ok))
  {
    hide QueuesHold, WorkersHold, Ids, Latencies, CountWithin, AllIds, Lengths, Outcomes;
    if w < o.workers && s.phases[w].Signing? {
      var s' := CompleteStep(o, s, w, end, counted, ok);
      AllIdsPut(s.batches, w, []);
      OutcomesPut(s.stats, w, s'.stats[w]);
      NoIds();
      var ids := Ids(s.batches[w]);
      assert ids + (multiset{} + multiset{}) == ids && ids + multiset{} == ids;
      Left(AllIds(s.queues), AllIds(s'.batches), AllIds(s.batches), ids, multiset{}, multiset{}, s.settled);
    }
  }

  lemma CompleteWorkers(o: Settings, s: State, w: nat, end: int, counted: nat, ok: bool)
    requires Inv(o, s)
    ensures QueuesHold(o, CompleteStep(o, s, w, end, counted, ok)) && WorkersHold(o, CompleteStep(o, s, w, end, counted, ok))
  {
    hide Placed, QueueHolds, Accounted, Ids, Latencies, CountWithin;
    var s' := CompleteStep(o, s, w, end, counted, ok);
    forall v | 0 <= v < o.workers
      ensures WorkerHolds(o, s'.phases[v], s'.batches[v])
    {
      assert WorkerHolds(o, s.phases[v], s.batches[v]);
    }
  }

  lemma NextKeeps(o: Settings, s: State, step: Step)
    requires Sane(o) && Inv(o, s)
    ensures Inv(o, Next(o, s, step))
  {
    hide Placed, Accounted, QueuesHold, WorkersHold, ArriveStep, TakeStep, DispatchStep, CompleteStep;
    match step
    case Arrive =>
      ArrivePlaced(o, s);
      ArriveQueues(o, s);
    case Finish => FinishKeeps(o, s);
    case Take(w, now) =>
      TakePlaced(o, s, w, now);
      TakeQueues(o, s, w, now);
    case Dispatch(w, now) =>
      DispatchPlaced(o, s, w, now);
      DispatchAccounted(o, s, w, now);
      DispatchWorkers(o, s, w, now);
    case Complete(w, end, counted, ok) =>
      CompletePlaced(o, s, w, end, counted, ok);
      CompleteWorkers(o, s, w, end, counted, ok);
  }

  lemma FinishKeeps(o: Settings, s: State)
    requires Inv(o, s)
    ensures Inv(o, Next(o, s, Finish))
  {
    hide QueueHolds, WorkerHolds;
  }

  /** In every reachable state each request is in one place, the queues are bounded and ordered, and the counters agree. */
  lemma {:induction false} RunsKeep(o: Settings, steps: seq<Step>, n: nat)
    requires Sane(o) && n <= |steps|
    ensures Inv(o, After(o, steps, n))
  {
    hide Inv, Next, Initial;
    if n == 0 {
      InitialHolds(o);
    } else {
      RunsKeep(o, steps, n - 1);
      NextKeeps(o, After(o, steps, n - 1), steps[n - 1]);
    }
  }

  lemma StateAccounting(o: Settings, s: State)
    requires Inv(o, s)
    ensures s.produced + s.doubled == s.rejected + s.queued + Lengths(s.batches) + Outcomes(s.stats)
  {
    hide QueuesHold, WorkersHold, AllIds, Lengths, Outcomes, Numbers;
    assert |AllIds(s.queues) + AllIds(s.batches) + s.settled| == |AllIds(s.queues)| + |AllIds(s.batches)| + |s.settled|;
  }

  /** The step interrupts the completion of a batch when some, but not all, of its requests are already counted. */
  predicate Interrupts(o: Settings, s: State, step: Step)
    requires Shaped(o, s)
  {
    && step.Complete? && !step.ok && step.worker < o.workers && s.phases[step.worker].Signing?
    && CanInterrupt(o, s.stats[step.worker], step.counted, |s.batches[step.worker]|)
  }

  /** The requests that a step counts although their batch fails. */
  function CountedTwice(o: Settings, s: State, step: Step): (n: nat)
    requires Shaped(o, s)
    ensures n > 0 <==> Interrupts(o, s, step)
  {
    if Interrupts(o, s, step) then step.counted else 0
  }

  /** The requests that the first `n` steps count twice. */
  function TwiceBefore(o: Settings, steps: seq<Step>, n: nat): nat
    requires o.keys > 0 && n <= |steps|
  {
    if n == 0 then 0 else TwiceBefore(o, steps, n - 1) + CountedTwice(o, After(o, steps, n - 1), steps[n - 1])
  }

  lemma NextDoubles(o: Settings, s: State, step: Step)
    requires Shaped(o, s)
    ensures Next(o, s, step).doubled == s.doubled + CountedTwice(o, s, step)
  {
    hide Ids, Live, Expired, Latencies, CountWithin, OldestFrom, ReadyToTake, Finished;
  }

  /** Counting twice comes from interrupted completions and from nothing else. */
  lemma {:induction false} DoubledByInterruption(o: Settings, steps: seq<Step>, n: nat)
    requires o.keys > 0 && n <= |steps|
    ensures After(o, steps, n).doubled == TwiceBefore(o, steps, n)
  {
    hide Next, CountedTwice, Interrupts;
    if n > 0 {
      DoubledByInterruption(o, steps, n - 1);
      NextDoubles(o, After(o, steps, n - 1), steps[n - 1]);
    }
  }

  lemma {:induction false} TwiceExactly(o: Settings, steps: seq<Step>, n: nat)
    requires o.keys > 0 && n <= |steps|
    ensures TwiceBefore(o, steps, n) == 0 <==> forall k | 0 <= k < n :: !Interrupts(o, After(o, steps, k), steps[k])
  {
    hide After, CountedTwice, Interrupts;
    if n > 0 {
      TwiceExactly(o, steps, n - 1);
    }
  }

  /** At every step the requests produced are those rejected, queued, in flight and finished; a request counts twice
      exactly when the completion of its batch was interrupted after counting it. */
  lemma Accounting(o: Settings, steps: seq<Step>, n: nat)
    requires Sane(o) && n <= |steps|
    ensures var s := After(o, steps, n);
            s.produced + TwiceBefore(o, steps, n) == s.rejected + s.queued + Lengths(s.batches) + Outcomes(s.stats)
  {
    hide After, Next, Inv, Lengths, Outcomes, Numbers, Initial, TwiceBefore;
    RunsKeep(o, steps, n);
    StateAccounting(o, After(o, steps, n));
    DoubledByInterruption(o, steps, n);
  }

  predicate AllGone(s: State) {
    forall w | 0 <= w < |s.phases| :: s.phases[w].Gone?
  }

  /** Nothing queued, everything settled, and the accounting check passes exactly when nothing was counted twice. */
  predicate Settled(o: Settings, s: State) {
    && s.queued == 0 && s.settled == Numbers(o.offered)
    && (o.offered == s.rejected + Outcomes(s.stats) <==> s.doubled == 0)
  }

  lemma GoneIsSettled(o: Settings, s: State)
    requires Sane(o) && Inv(o, s) && AllGone(s)
    ensures Settled(o, s)
  {
    GoneIsEmpty(o, s);
    StateAccounting(o, s);
    hide Inv, AllGone, Sane, Numbers, Outcomes, Lengths;
  }

  /** Once all workers have left, nothing is queued or in flight and every request was settled exactly once. The final
      accounting check passes if and only if no step of the run interrupted the completion of a batch half-way; otherwise
      it is off by the requests counted twice. */
  lemma FinalAccounting(o: Settings, steps: seq<Step>, n: nat)
    requires Sane(o) && n <= |steps| && AllGone(After(o, steps, n))
    ensures var s := After(o, steps, n);
            && s.queued == 0 && s.settled == Numbers(o.offered)
            && s.rejected + Outcomes(s.stats) == o.offered + TwiceBefore(o, steps, n)
            && (o.offered == s.rejected + Outcomes(s.stats)
                <==> forall k | 0 <= k < n :: !Interrupts(o, After(o, steps, k), steps[k]))
  {
    hide After, Next, Inv, Lengths, Outcomes, Numbers, Initial, AllGone, TwiceBefore, Interrupts;
    RunsKeep(o, steps, n);
    GoneIsEmpty(o, After(o, steps, n));
    StateAccounting(o, After(o, steps, n));
    DoubledByInterruption(o, steps, n);
    TwiceExactly(o, steps, n);
  }

  lemma GoneIsEmpty(o: Settings, s: State)
    requires Sane(o) && Inv(o, s) && AllGone(s)
    ensures s.queued == 0 && Lengths(s.batches) == 0 && s.produced == o.offered && s.settled == Numbers(o.offered)
  {
    hide Outcomes, QueuesHold, Belongs, Numbers, AllIds, Lengths;
    assert s.phases[0].Gone?;
    forall w | 0 <= w < o.workers
      ensures s.batches[w] == []
    {
      assert WorkerHolds(o, s.phases[w], s.batches[w]);
    }
    AllIdsOfNothing(s.batches);
    assert |AllIds(s.queues)| == 0;
    assert AllIds(s.queues) == multiset{};
    assert multiset{} + multiset{} + s.settled == s.settled;
  }

  lemma QueueArrivals(o: Settings, q: seq<Request>, key: nat, produced: nat, i: nat)
    requires Sane(o) && QueueHolds(o, q, key, produced) && i < |q|
    ensures q[0].arrival <= q[i].arrival
  {
    assert Belongs(o, q[0], key) && Belongs(o, q[i], key);
    assert i > 0 ==> q[0].id < q[i].id;
  }

  /** A batch that is taken comes from one queue, in order, is no larger than allowed, and begins with a request than which
      no queued one is older. */
  lemma TakenBatch(o: Settings, steps: seq<Step>, n: nat, k: nat, i: nat)
    requires Sane(o) && n < |steps| && steps[n].Take? && steps[n].worker < o.workers
    requires !After(o, steps, n).phases[steps[n].worker].Holding? && After(o, steps, n + 1).phases[steps[n].worker].Holding?
    requires k < o.keys && i < |After(o, steps, n).queues[k]|
    ensures var (s, s', w) := (After(o, steps, n), After(o, steps, n + 1), steps[n].worker);
            var (batch, key) := (s'.batches[w], s'.phases[w].key);
            && key < o.keys && 1 <= |batch| <= o.batch
            && s.queues[key] == batch + s'.queues[key] && (|batch| < o.batch ==> s'.queues[key] == [])
            && batch[0].arrival <= s.queues[k][i].arrival
  {
    hide OldestFrom, ReadyToTake, Placed, Accounted, QueueHolds;
    var s, w := After(o, steps, n), steps[n].worker;
    RunsKeep(o, steps, n);
    assert QueueHolds(o, s.queues[k], k, s.produced);
    QueueArrivals(o, s.queues[k], k, s.produced, i);
    OldestFromLeast(s.queues, 0, -1, k);
    assert WorkerHolds(o, s.phases[w], s.batches[w]);
    assert After(o, steps, n + 1) == TakeStep(o, s, w, steps[n].now);
  }

  /** After the end of production no worker waits while anything is queued. */
  lemma DrainsAfterDone(o: Settings, steps: seq<Step>, n: nat, w: nat, now: int)
    requires Sane(o) && n <= |steps| && w < o.workers
    requires After(o, steps, n).done && After(o, steps, n).phases[w].Waiting?
    ensures var (s, s') := (After(o, steps, n), TakeStep(o, After(o, steps, n), w, now));
            if s.queued > 0 then s'.queued < s.queued && s'.phases[w].Holding? else s'.phases[w].Gone?
  {
    hide OldestFrom, Placed, QueueHolds;
    RunsKeep(o, steps, n);
    if After(o, steps, n).queued > 0 {
      ChoiceExists(o, After(o, steps, n));
    }
  }
}
