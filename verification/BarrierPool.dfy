/** A pool of workers that executes one job per call, separated by generations: the caller starts a generation and waits
    until every worker has finished it. */
module BarrierPool {

  /** A worker remembers the last generation it picked up. */
  datatype Worker = Idle(seen: nat) | Working(seen: nat) | Exited(seen: nat)

  datatype Caller = Outside | Waiting

  datatype Pool = Pool(
    workers: seq<Worker>,
    caller: Caller,
    generation: nat,
    remaining: int,
    failed: bool,            // some job of this generation has thrown
    stopping: bool,
    executed: seq<seq<nat>>, // history: the generations each worker executed
    thrown: set<nat>)        // history: the workers that threw in this generation

  datatype Step =
    | Start
    | Return
    | Stop
    | Pick(worker: nat)
    | Throw(worker: nat)
    | Done(worker: nat)
    | Exit(worker: nat)

  function Initial(count: nat): Pool {
    Pool(seq(count, _ => Idle(0)), Outside, 0, 0, false, false, seq(count, _ => []), {})
  }

  function Next(s: Pool, step: Step): Pool
    requires |s.executed| == |s.workers|
  {
    match step
    case Start =>
      if s.caller.Outside? && !s.stopping
      then s.(caller := Waiting, generation := s.generation + 1, remaining := |s.workers|, failed := false, thrown := {})
      else s
    case Return => if s.caller.Waiting? && s.remaining == 0 then s.(caller := Outside) else s
    case Stop => if s.caller.Outside? then s.(stopping := true) else s
    case Pick(w) =>
      if w < |s.workers| && s.workers[w].Idle? && !s.stopping && s.workers[w].seen != s.generation
      then s.(workers := s.workers[w := Working(s.generation)], executed := s.executed[w := s.executed[w] + [s.generation]])
      else s
    case Throw(w) =>
      if w < |s.workers| && s.workers[w].Working? then s.(failed := true, thrown := s.thrown + {w}) else s
    case Done(w) =>
      if w < |s.workers| && s.workers[w].Working?
      then s.(workers := s.workers[w := Idle(s.workers[w].seen)], remaining := s.remaining - 1)
      else s
    case Exit(w) =>
      if w < |s.workers| && s.workers[w].Idle? && s.stopping then s.(workers := s.workers[w := Exited(s.workers[w].seen)])
      else s
  }

  function After(count: nat, steps: seq<Step>, n: nat): (s: Pool)
    requires n <= |steps|
    ensures |s.executed| == |s.workers| == count
  {
    if n == 0 then Initial(count) else Next(After(count, steps, n - 1), steps[n - 1])
  }

  // ----- What every step keeps

  /** A worker that has not finished the current generation. */
  predicate Behind(w: Worker, generation: nat) {
    w.Working? || w.seen != generation
  }

  function CountBehind(workers: seq<Worker>, generation: nat): nat {
    if workers == [] then 0
    else CountBehind(workers[..|workers| - 1], generation) + if Behind(workers[|workers| - 1], generation) then 1 else 0
  }

  /** The generations from 1 to `n`, each once and in order. */
  function UpTo(n: nat): (s: seq<nat>)
    ensures |s| == n && forall i | 0 <= i < n :: s[i] == i + 1
  {
    seq(n, i requires 0 <= i < n => i + 1)
  }

  /** While the caller is outside nobody is behind; while it waits a worker is at most one generation behind, and works on
      no other generation than the current one. */
  predicate InStep(w: Worker, generation: nat, caller: Caller) {
    if caller.Outside? then !Behind(w, generation)
    else w.seen == generation || (w.Idle? && w.seen + 1 == generation)
  }

  predicate WorkersHold(s: Pool) {
    && |s.executed| == |s.workers|
    && (forall w | 0 <= w < |s.workers| ::
          InStep(s.workers[w], s.generation, s.caller) && s.executed[w] == UpTo(s.workers[w].seen))
    && (s.stopping ==> s.caller.Outside?)
    && forall w | 0 <= w < |s.workers| && s.workers[w].Exited? :: s.stopping
  }

  predicate Inv(s: Pool) {
    && WorkersHold(s)
    && s.remaining == CountBehind(s.workers, s.generation)
    && (s.failed <==> s.thrown != {})
  }

  lemma {:induction false} CountPut(workers: seq<Worker>, w: nat, worker: Worker, generation: nat)
    requires w < |workers|
    ensures CountBehind(workers[w := worker], generation) + (if Behind(workers[w], generation) then 1 else 0)
         == CountBehind(workers, generation) + if Behind(worker, generation) then 1 else 0
    decreases |workers|
  {
    var n := |workers| - 1;
    if w == n {
      assert workers[w := worker][..n] == workers[..n];
    } else {
      CountPut(workers[..n], w, worker, generation);
      assert workers[w := worker][..n] == workers[..n][w := worker];
    }
  }

  lemma {:induction false} AllBehind(workers: seq<Worker>, generation: nat)
    requires forall w | 0 <= w < |workers| :: Behind(workers[w], generation)
    ensures CountBehind(workers, generation) == |workers|
  {
    if workers != [] {
      AllBehind(workers[..|workers| - 1], generation);
    }
  }

  lemma {:induction false} NoneBehind(workers: seq<Worker>, generation: nat)
    ensures CountBehind(workers, generation) == 0 <==> forall w | 0 <= w < |workers| :: !Behind(workers[w], generation)
  {
    if workers != [] {
      NoneBehind(workers[..|workers| - 1], generation);
      assert workers == workers[..|workers| - 1] + [workers[|workers| - 1]];
    }
  }

  lemma InitialHolds(count: nat)
    ensures Inv(Initial(count))
  {
    NoneBehind(Initial(count).workers, 0);
  }

  lemma NextKeeps(s: Pool, step: Step)
    requires Inv(s)
    ensures Inv(Next(s, step))
  {
    hide CountBehind;
    var s' := Next(s, step);
    NoneBehind(s.workers, s.generation);
    match step
    case Start =>
      if s.caller.Outside? && !s.stopping {
        AllBehind(s.workers, s'.generation);
      }
    case Pick(w) =>
      if w < |s.workers| {
        CountPut(s.workers, w, s'.workers[w], s.generation);
        assert s.executed[w] == UpTo(s.workers[w].seen);
      }
    case Done(w) =>
      if w < |s.workers| {
        CountPut(s.workers, w, s'.workers[w], s.generation);
      }
    case Exit(w) =>
      if w < |s.workers| {
        CountPut(s.workers, w, s'.workers[w], s.generation);
      }
    case _ =>
  }

  lemma {:induction false} RunsKeep(count: nat, steps: seq<Step>, n: nat)
    requires n <= |steps|
    ensures Inv(After(count, steps, n))
  {
    hide Inv, Next, Initial;
    if n == 0 {
      InitialHolds(count);
    } else {
      RunsKeep(count, steps, n - 1);
      NextKeeps(After(count, steps, n - 1), steps[n - 1]);
    }
  }

  /** At every moment each worker has executed the generations 1, 2, ... once each and in order; whoever works, works on
      the current generation while the caller waits for it. */
  lemma ExactlyOnce(count: nat, steps: seq<Step>, n: nat, w: nat)
    requires n <= |steps| && w < count
    ensures var s := After(count, steps, n);
            && s.executed[w] == UpTo(s.workers[w].seen) && s.workers[w].seen <= s.generation <= s.workers[w].seen + 1
            && (s.workers[w].Working? ==> s.caller.Waiting? && s.workers[w].seen == s.generation)
            && s.remaining == CountBehind(s.workers, s.generation)
  {
    hide After, CountBehind;
    RunsKeep(count, steps, n);
    var s := After(count, steps, n);
    assert InStep(s.workers[w], s.generation, s.caller);
  }

  /** When a call returns, every worker has executed every generation so far, and the call fails exactly when some worker
      threw during it. */
  lemma ReturnsComplete(count: nat, steps: seq<Step>, n: nat)
    requires n < |steps| && steps[n] == Return
    requires After(count, steps, n).caller.Waiting? && After(count, steps, n + 1).caller.Outside?
    ensures var s := After(count, steps, n);
            (forall w | 0 <= w < count :: s.executed[w] == UpTo(s.generation)) && (s.failed <==> s.thrown != {})
  {
    RunsKeep(count, steps, n);
    var s := After(count, steps, n);
    NoneBehind(s.workers, s.generation);
    hide After;
    forall w | 0 <= w < count
      ensures s.executed[w] == UpTo(s.generation)
    {
      assert InStep(s.workers[w], s.generation, s.caller);
      assert !Behind(s.workers[w], s.generation);
    }
  }

  /** Only a job throws: whoever threw in this generation was executing it, and is counted until the next call. */
  lemma OnlyJobsThrow(count: nat, steps: seq<Step>, n: nat)
    requires n < |steps|
    ensures var (s, s') := (After(count, steps, n), After(count, steps, n + 1));
            && (forall w | w in s'.thrown && w !in s.thrown ::
                  steps[n] == Throw(w) && w < count && s.workers[w] == Working(s.generation) && s.caller.Waiting?)
            && (forall w | w in s.thrown && w !in s'.thrown :: steps[n] == Start)
  {
    RunsKeep(count, steps, n);
    var s := After(count, steps, n);
    forall w | 0 <= w < count
      ensures InStep(s.workers[w], s.generation, s.caller)
    {
    }
  }

  /** No worker stops before it has finished what was started. */
  lemma ExitsUpToDate(count: nat, steps: seq<Step>, n: nat, w: nat)
    requires n <= |steps| && w < count && After(count, steps, n).workers[w].Exited?
    ensures After(count, steps, n).executed[w] == UpTo(After(count, steps, n).generation)
  {
    RunsKeep(count, steps, n);
    assert InStep(After(count, steps, n).workers[w], After(count, steps, n).generation, Outside);
  }

  // ----- Calls come to an end

  /** The sections that the workers still have to run in this generation: two for each that has not picked it up, one for
      each that works on it. */
  function Todo(workers: seq<Worker>, generation: nat): nat {
    if workers == [] then 0
    else
      var w := workers[|workers| - 1];
      Todo(workers[..|workers| - 1], generation) + if w.Working? then 1 else if w.seen != generation then 2 else 0
  }

  lemma {:induction false} TodoPut(workers: seq<Worker>, w: nat, worker: Worker, generation: nat)
    requires w < |workers|
    ensures Todo(workers[w := worker], generation) + Todo([workers[w]], generation)
         == Todo(workers, generation) + Todo([worker], generation)
    decreases |workers|
  {
    var n := |workers| - 1;
    assert [workers[w]][..0] == [] && [worker][..0] == [];
    if w == n {
      assert workers[w := worker][..n] == workers[..n];
    } else {
      TodoPut(workers[..n], w, worker, generation);
      assert workers[w := worker][..n] == workers[..n][w := worker];
    }
  }

  lemma {:induction false} SomeTodo(workers: seq<Worker>, generation: nat)
    ensures Todo(workers, generation) == 0 <==> forall w | 0 <= w < |workers| :: !Behind(workers[w], generation)
  {
    if workers != [] {
      SomeTodo(workers[..|workers| - 1], generation);
      assert workers == workers[..|workers| - 1] + [workers[|workers| - 1]];
    }
  }

  /** The next section of a worker. */
  function Section(s: Pool, w: nat): Step
    requires w < |s.workers|
  {
    if s.workers[w].Working? then Done(w) else Pick(w)
  }

  /** While the caller waits, a worker that is behind has one section less to run after its next one. */
  lemma SectionAdvances(s: Pool, w: nat)
    requires Inv(s) && s.caller.Waiting? && w < |s.workers| && Behind(s.workers[w], s.generation)
    ensures var s' := Next(s, Section(s, w));
            && s'.generation == s.generation && s'.caller.Waiting?
            && Todo(s'.workers, s'.generation) == Todo(s.workers, s.generation) - 1
  {
    hide Todo, CountBehind;
    assert InStep(s.workers[w], s.generation, s.caller);
    TodoPut(s.workers, w, Next(s, Section(s, w)).workers[w], s.generation);
    TodoOne(s.workers[w], s.generation);
    TodoOne(Next(s, Section(s, w)).workers[w], s.generation);
  }

  lemma TodoOne(w: Worker, generation: nat)
    ensures Todo([w], generation) == if w.Working? then 1 else if w.seen != generation then 2 else 0
  {
    assert [w][..0] == [];
  }

  /** A call is never stuck: it can return once nothing is left to run, and until then some worker has a section to run. */
  lemma NeverStuck(s: Pool) returns (w: nat)
    requires Inv(s) && s.caller.Waiting?
    ensures s.remaining == 0 <==> Todo(s.workers, s.generation) == 0
    ensures Next(s, Return) == if s.remaining == 0 then s.(caller := Outside) else s
    ensures s.remaining > 0 ==>
              && w < |s.workers| && Behind(s.workers[w], s.generation)
              && Todo(Next(s, Section(s, w)).workers, s.generation) == Todo(s.workers, s.generation) - 1
  {
    hide Todo, CountBehind, Next;
    NoneBehind(s.workers, s.generation);
    SomeTodo(s.workers, s.generation);
    ReturnWhenDone(s);
    w := 0;
    if s.remaining > 0 {
      w :| 0 <= w < |s.workers| && Behind(s.workers[w], s.generation);
      SectionAdvances(s, w);
    }
  }

  lemma ReturnWhenDone(s: Pool)
    requires |s.executed| == |s.workers| && s.caller.Waiting?
    ensures Next(s, Return) == if s.remaining == 0 then s.(caller := Outside) else s
  {
  }

  /** So every started call can be brought to its end, by as many sections as are left to run. */
  lemma {:induction false} CanReturn(s: Pool) returns (steps: seq<Step>)
    requires Inv(s) && s.caller.Waiting?
    ensures |steps| == Todo(s.workers, s.generation) && forall i | 0 <= i < |steps| :: steps[i].Pick? || steps[i].Done?
    ensures Played(s, steps).caller.Waiting? && Inv(Played(s, steps))
    ensures Next(Played(s, steps), Return).caller.Outside?
    decreases Todo(s.workers, s.generation)
  {
    hide Inv, Next;
    RemainingCounts(s);
    var w := NeverStuck(s);
    if s.remaining == 0 {
      steps := [];
    } else {
      var step := Section(s, w);
      SectionAdvances(s, w);
      NextKeeps(s, step);
      var rest := CanReturn(Next(s, step));
      steps := [step] + rest;
      assert steps[1..] == rest;
    }
  }

  lemma RemainingCounts(s: Pool)
    requires Inv(s)
    ensures s.remaining >= 0 && |s.executed| == |s.workers|
  {
  }

  /** The state after these steps, one after the other. */
  function Played(s: Pool, steps: seq<Step>): (s': Pool)
    requires |s.executed| == |s.workers|
    ensures |s'.executed| == |s'.workers|
    decreases |steps|
  {
    if steps == [] then s else Played(Next(s, steps[0]), steps[1..])
  }

  // ----- The pool as shared variables

  class SharedPool {
    var generation: nat
    var remaining: int
    var failed: bool
    var stopping: bool
    var waiting: bool
    var workers: seq<Worker>
    ghost var executed: seq<seq<nat>>
    ghost var thrown: set<nat>

    ghost function View(): Pool
      reads this
    {
      Pool(workers, if waiting then Waiting else Outside, generation, remaining, failed, stopping, executed, thrown)
    }

    constructor (count: nat)
      ensures View() == Initial(count) && Inv(View())
    {
      generation, remaining, failed, stopping, waiting := 0, 0, false, false, false;
      workers, executed, thrown := seq(count, _ => Idle(0)), seq(count, _ => []), {};
      new;
      InitialHolds(count);
    }

    /** The first section of a call. */
    method BeginRun()
      requires Inv(View()) && !waiting && !stopping
      modifies this
      ensures Inv(View()) && View() == Next(old(View()), Start)
    {
      NextKeeps(View(), Start);
      failed := false;
      remaining := |workers|;
      generation := generation + 1;
      waiting, thrown := true, {};
    }

    /** The last section of a call, once everybody has finished. */
    method EndRun() returns (rethrow: bool)
      requires Inv(View()) && waiting && remaining == 0
      modifies this
      ensures Inv(View()) && View() == Next(old(View()), Return)
      ensures rethrow <==> old(thrown) != {}
    {
      NextKeeps(View(), Return);
      waiting := false;
      rethrow := failed;
    }

    /** A worker wakes up to a generation it has not seen. */
    method Wake(w: nat) returns (works: bool)
      requires Inv(View()) && w < |workers| && workers[w].Idle?
      modifies this
      ensures Inv(View()) && View() == Next(Next(old(View()), Pick(w)), Exit(w))
      ensures works <==> !old(stopping) && old(workers[w].seen) != old(generation)
    {
      NextKeeps(View(), Pick(w));
      NextKeeps(Next(View(), Pick(w)), Exit(w));
      if stopping {
        workers := workers[w := Exited(workers[w].seen)];
        return false;
      }
      works := workers[w].seen != generation;
      if works {
        workers := workers[w := Working(generation)];
        executed := executed[w := executed[w] + [generation]];
      }
    }

    method FinishJob(w: nat, throws: bool)
      requires Inv(View()) && w < |workers| && workers[w].Working?
      modifies this
      ensures Inv(View())
      ensures View() == if throws then Next(Next(old(View()), Throw(w)), Done(w)) else Next(old(View()), Done(w))
    {
      NextKeeps(View(), Throw(w));
      NextKeeps(Next(View(), Throw(w)), Done(w));
      NextKeeps(View(), Done(w));
      if throws {
        failed, thrown := true, thrown + {w};
      }
      workers := workers[w := Idle(workers[w].seen)];
      remaining := remaining - 1;
    }
  }
}
