/** The bounded, batching scheduler of the signing pipeline as steps under its mutex: one producer, several workers, one
    queue per key. */
module Pipeline {
  import opened LatencyReport

  datatype Mode = Cpu | Gpu | Hybrid

  /** Options of a run. `arrival` is the scheduled arrival of each request, in nanoseconds like all times here. */
  datatype Settings = Settings(mode: Mode, workers: nat, keys: nat, batch: nat, minimum: nat, capacity: nat,
                             offered: nat, wait: int, slo: int, arrival: nat -> int)

  ghost predicate Sane(o: Settings) {
    && o.workers >= 1 && o.keys >= 1 && 1 <= o.minimum <= o.batch && o.capacity >= 1
    && forall i, j | i <= j :: o.arrival(i) <= o.arrival(j)
  }

  datatype Request = Request(id: nat, arrival: int)

  /** What one worker counts; `batches` counts dispatched batches by size. */
  datatype Stats = Stats(verified: nat, good: nat, expired: nat, failed: nat, cpuItems: nat, gpuItems: nat,
                         cpuBatches: nat, gpuBatches: nat, batches: map<nat, nat>, latencies: seq<int>)

  const NOTHING: Stats := Stats(0, 0, 0, 0, 0, 0, 0, 0, map[], [])

  /** Where a worker is: waiting for a batch, holding one it took, signing one it dispatched, or gone. */
  datatype Phase = Waiting | Holding(key: nat) | Signing(key: nat) | Gone

  datatype State = State(
    queues: seq<seq<Request>>,
    queued: int,
    rejected: nat,
    highWater: nat,
    produced: nat,
    done: bool,
    fault: bool,
    phases: seq<Phase>,
    batches: seq<seq<Request>>,  // the batch of each worker
    stats: seq<Stats>,
    settled: multiset<nat>,      // history: the requests that left, by id
    doubled: nat)                // history: requests counted both as verified and as failed

  function Initial(o: Settings): State {
    State(seq(o.keys, _ => []), 0, 0, 0, 0, false, false, seq(o.workers, _ => Waiting), seq(o.workers, _ => []),
          seq(o.workers, _ => NOTHING), multiset{}, 0)
  }

  // ----- Steps

  datatype Step =
    | Arrive
    | Finish
    | Take(worker: nat, now: int)
    | Dispatch(worker: nat, now: int)
    | Complete(worker: nat, end: int, counted: nat, ok: bool)

  predicate Shaped(o: Settings, s: State) {
    |s.queues| == o.keys > 0 && |s.phases| == |s.batches| == |s.stats| == o.workers
  }

  /** The next request is refused when the queues are full together, otherwise queued under its key. */
  function ArriveStep(o: Settings, s: State): (s': State)
    requires Shaped(o, s)
    ensures Shaped(o, s')
  {
    if s.produced >= o.offered then s
    else if s.queued >= o.capacity then
      s.(produced := s.produced + 1, rejected := s.rejected + 1, settled := s.settled + multiset{s.produced})
    else
      var k := s.produced % o.keys;
      s.(produced := s.produced + 1, queued := s.queued + 1,
         queues := s.queues[k := s.queues[k] + [Request(s.produced, o.arrival(s.produced))]],
         highWater := if s.highWater < s.queued + 1 then s.queued + 1 else s.highWater)
  }

  /** Of the queues from `k` on, the first whose front arrived earliest; `best` is the choice among those before. */
  function OldestFrom(queues: seq<seq<Request>>, k: nat, best: int): (key: int)
    requires k <= |queues| && -1 <= best < k && (best >= 0 ==> queues[best] != [])
    ensures best <= key < |queues| && (key >= 0 ==> queues[key] != [])
    decreases |queues| - k
  {
    if k == |queues| then best
    else if queues[k] != [] && (best < 0 || queues[k][0].arrival < queues[best][0].arrival) then OldestFrom(queues, k + 1, k)
    else OldestFrom(queues, k + 1, best)
  }

  predicate ReadyToTake(o: Settings, s: State, q: seq<Request>, now: int)
    requires q != []
  {
    o.mode.Cpu? || s.done || s.fault || |q| >= o.batch || now - q[0].arrival >= o.wait
  }

  function Min(a: nat, b: nat): nat {
    if a < b then a else b
  }

  /** Take up to a batch from the queue with the oldest request, wait, or leave when everything is done. */
  function TakeStep(o: Settings, s: State, w: nat, now: int): (s': State)
    requires Shaped(o, s)
    ensures Shaped(o, s')
  {
    if w >= o.workers || !s.phases[w].Waiting? then s
    else
      var key := OldestFrom(s.queues, 0, -1);
      if s.queued == 0 || key < 0 then
        if s.queued == 0 && s.done then s.(phases := s.phases[w := Gone]) else s
      else
        var q := s.queues[key];
        if !ReadyToTake(o, s, q, now) then s
        else
          var n := Min(|q|, o.batch);
          s.(queues := s.queues[key := q[n..]], queued := s.queued - n,
             phases := s.phases[w := Holding(key)], batches := s.batches[w := q[..n]])
  }

  function Late(r: Request, now: int, slo: int): bool {
    now - r.arrival > slo
  }

  function Live(batch: seq<Request>, now: int, slo: int): seq<Request> {
    if batch == [] then []
    else
      var init, last := Live(batch[..|batch| - 1], now, slo), batch[|batch| - 1];
      if Late(last, now, slo) then init else init + [last]
  }

  function Expired(batch: seq<Request>, now: int, slo: int): seq<Request> {
    if batch == [] then []
    else
      var init, last := Expired(batch[..|batch| - 1], now, slo), batch[|batch| - 1];
      if Late(last, now, slo) then init + [last] else init
  }

  function Ids(batch: seq<Request>): (m: multiset<nat>)
    ensures |m| == |batch|
  {
    if batch == [] then multiset{} else Ids(batch[..|batch| - 1]) + multiset{batch[|batch| - 1].id}
  }

  function Tally(batches: map<nat, nat>, size: nat): map<nat, nat> {
    batches[size := if size in batches then batches[size] + 1 else 1]
  }

  function Counted(o: Settings, st: Stats, size: nat): Stats {
    var st' := st.(batches := Tally(st.batches, size));
    if o.mode.Gpu? || (o.mode.Hybrid? && size >= o.minimum)
    then st'.(gpuItems := st.gpuItems + size, gpuBatches := st.gpuBatches + 1)
    else st'.(cpuItems := st.cpuItems + size, cpuBatches := st.cpuBatches + 1)
  }

  /** Drop what is past the objective; fail the rest after a fault, otherwise send it to be signed. */
  function DispatchStep(o: Settings, s: State, w: nat, now: int): (s': State)
    requires Shaped(o, s)
    ensures Shaped(o, s')
  {
    if w >= o.workers || !s.phases[w].Holding? then s
    else
      var expired, live := Expired(s.batches[w], now, o.slo), Live(s.batches[w], now, o.slo);
      var st := s.stats[w].(expired := s.stats[w].expired + |expired|);
      if live == [] then
        s.(phases := s.phases[w := Waiting], batches := s.batches[w := []], stats := s.stats[w := st],
           settled := s.settled + Ids(expired))
      else if s.fault then
        s.(phases := s.phases[w := Waiting], batches := s.batches[w := []],
           stats := s.stats[w := st.(failed := st.failed + |live|)], settled := s.settled + Ids(expired) + Ids(live))
      else
        s.(phases := s.phases[w := Signing(s.phases[w].key)], batches := s.batches[w := live],
           stats := s.stats[w := Counted(o, st, |live|)], settled := s.settled + Ids(expired))
  }

  function Latencies(batch: seq<Request>, end: int): (l: seq<int>)
    ensures |l| == |batch|
  {
    seq(|batch|, i requires 0 <= i < |batch| => end - batch[i].arrival)
  }

  /** The completion loop counts requests one by one. */
  function Finished(st: Stats, batch: seq<Request>, end: int, slo: int): Stats {
    var l := Latencies(batch, end);
    st.(verified := st.verified + |batch|, good := st.good + CountWithin(l, slo), latencies := st.latencies + l)
  }

  /** Each worker reserves space for its latencies, and at least that much is there. */
  function Reserve(o: Settings): nat
    requires o.workers > 0
  {
    o.offered / o.workers + o.batch
  }

  /** The completion loop can be interrupted at a request only where its latency needs space beyond the reserve. */
  predicate CanInterrupt(o: Settings, st: Stats, counted: nat, size: nat)
    requires o.workers > 0
  {
    0 < counted < size && |st.latencies| + counted >= Reserve(o)
  }

  /** How many of `size` requests are already counted when their batch fails: none, when signing or verification fails or the
      first latency finds no space, or those before the request at which the completion loop can be interrupted. */
  function Reached(o: Settings, st: Stats, counted: nat, size: nat): nat
    requires o.workers > 0
  {
    if CanInterrupt(o, st, counted, size) then counted else 0
  }

  /** A batch is signed and verified as a whole, or fails as a whole. An exception inside the completion loop comes after
      `counted` requests were already counted as verified. */
  function CompleteStep(o: Settings, s: State, w: nat, end: int, counted: nat, ok: bool): (s': State)
    requires Shaped(o, s)
    ensures Shaped(o, s')
  {
    if w >= o.workers || !s.phases[w].Signing? then s
    else
      var batch, t := s.batches[w], s.(phases := s.phases[w := Waiting], batches := s.batches[w := []],
                                       settled := s.settled + Ids(s.batches[w]));
      if ok then t.(stats := s.stats[w := Finished(s.stats[w], batch, end, o.slo)])
      else
        var n := Reached(o, s.stats[w], counted, |batch|);
        var st := Finished(s.stats[w], batch[..n], end, o.slo);
        t.(stats := s.stats[w := st.(failed := st.failed + |batch|)], fault := true, doubled := s.doubled + n)
  }

  function Next(o: Settings, s: State, step: Step): (s': State)
    requires Shaped(o, s)
    ensures Shaped(o, s')
  {
    match step
    case Arrive => ArriveStep(o, s)
    case Finish => if s.produced == o.offered then s.(done := true) else s
    case Take(w, now) => TakeStep(o, s, w, now)
    case Dispatch(w, now) => DispatchStep(o, s, w, now)
    case Complete(w, end, counted, ok) => CompleteStep(o, s, w, end, counted, ok)
  }

  function After(o: Settings, steps: seq<Step>, n: nat): (s: State)
    requires o.keys > 0 && n <= |steps|
    ensures Shaped(o, s)
  {
    if n == 0 then Initial(o) else Next(o, After(o, steps, n - 1), steps[n - 1])
  }
}
