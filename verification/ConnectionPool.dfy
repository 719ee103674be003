/** The ledger's connection pool as a lease protocol. A step is what happens under the pool's condition variable, or one
    action of a borrower on its own connection; steps of different borrowers interleave freely. */
module ConnectionPool {

  /** How far a borrower is: using its connection, done with rolling it back, or done with closing it. */
  datatype Phase = Using | Finished(reusable: bool) | Shut(reusable: bool)

  datatype Pool = Pool(
    size: nat,                 // 0: a connection is opened for every lease
    idle: seq<nat>,
    leases: map<nat, Phase>,
    opening: nat,              // admitted borrowers that are still opening their connection
    active: int,
    closed: bool,
    busy: set<nat>,            // connections inside a transaction
    open: set<nat>,
    created: nat,
    stuck: nat,                // leases that ended in a failing close, and stay counted
    leaked: set<nat>)          // connections whose close failed

  datatype Step =
    | Enter
    | Opened(ok: bool)
    | Begin(conn: nat)
    | Commit(conn: nat)
    | Finish(conn: nat, rolledBack: bool)
    | Shutdown(conn: nat, ok: bool)
    | GiveBack(conn: nat, closes: nat)  // `closes`: how many idle connections close before one fails to
    | CloseAll(closes: nat)

  datatype Reply = Leased(conn: nat) | Admitted | TimedOut | Refused | Silent

  function Elements(s: seq<nat>): set<nat> {
    set i | 0 <= i < |s| :: s[i]
  }

  function Initial(size: nat): Pool {
    var first := seq<nat>(size, i => i);
    Pool(size, first, map[], 0, 0, false, {}, Elements(first), size, 0, {})
  }

  // ----- Steps

  /** Wait for an idle connection; a closed pool admits nobody. */
  function EnterStep(s: Pool): (Pool, Reply) {
    if s.closed then (s, Refused)
    else if s.size > 0 && s.idle == [] then (s, TimedOut)
    else if s.size > 0 then
      var c := s.idle[|s.idle| - 1];
      (s.(idle := s.idle[..|s.idle| - 1], leases := s.leases[c := Using], active := s.active + 1), Leased(c))
    else (s.(opening := s.opening + 1, active := s.active + 1), Admitted)
  }

  function OpenedStep(s: Pool, ok: bool): (Pool, Reply) {
    if s.opening == 0 then (s, Silent)
    else if !ok then (s.(opening := s.opening - 1, active := s.active - 1), Silent)
    else
      (s.(opening := s.opening - 1, leases := s.leases[s.created := Using], open := s.open + {s.created}, created := s.created + 1),
       Leased(s.created))
  }

  predicate Uses(s: Pool, c: nat) {
    c in s.leases && s.leases[c].Using?
  }

  /** Leaving the borrower's block rolls an open transaction back; a failure makes the connection unfit for reuse. */
  function FinishStep(s: Pool, c: nat, rolledBack: bool): Pool {
    if !Uses(s, c) then s
    else if c !in s.busy then s.(leases := s.leases[c := Finished(true)])
    else if rolledBack then s.(leases := s.leases[c := Finished(true)], busy := s.busy - {c})
    else s.(leases := s.leases[c := Finished(false)])
  }

  /** Without a pool, or after a failed rollback, the borrower closes its connection itself. A failing close escapes
      before the lease is given up. */
  function ShutdownStep(s: Pool, c: nat, ok: bool): Pool {
    if !(c in s.leases && s.leases[c].Finished? && (s.size == 0 || !s.leases[c].reusable)) then s
    else if ok then s.(leases := s.leases[c := Shut(s.leases[c].reusable)], open := s.open - {c}, busy := s.busy - {c})
    else s.(leases := s.leases - {c}, stuck := s.stuck + 1, leaked := s.leaked + {c})
  }

  /** Close the idle connections in turn; the list is only emptied when no close fails. */
  function CloseIdle(s: Pool, closes: nat): Pool {
    if closes >= |s.idle| then s.(closed := true, open := s.open - Elements(s.idle), idle := [])
    else s.(closed := true, open := s.open - Elements(s.idle[..closes]), leaked := s.leaked + Elements(s.idle))
  }

  predicate Returnable(s: Pool, c: nat) {
    c in s.leases && (s.leases[c].Shut? || (s.size > 0 && s.leases[c] == Finished(true)))
  }

  function GiveBackStep(s: Pool, c: nat, closes: nat): Pool {
    if !Returnable(s, c) then s
    else
      var reusable, s' := s.leases[c].reusable, s.(active := s.active - 1, leases := s.leases - {c});
      if !reusable then CloseIdle(s', closes)
      else if s.size == 0 then s'
      else if !s.closed then s'.(idle := s.idle + [c])
      else if closes > 0 then s'.(open := s.open - {c})
      else s'.(leaked := s.leaked + {c})
  }

  function CloseStep(s: Pool, closes: nat): (Pool, Reply) {
    if s.active != 0 then (s, Refused) else (CloseIdle(s, closes), Silent)
  }

  function Next(s: Pool, step: Step): (Pool, Reply) {
    match step
    case Enter => EnterStep(s)
    case Opened(ok) => OpenedStep(s, ok)
    case Begin(c) => (if Uses(s, c) then s.(busy := s.busy + {c}) else s, Silent)
    case Commit(c) => (if Uses(s, c) then s.(busy := s.busy - {c}) else s, Silent)
    case Finish(c, rolledBack) => (FinishStep(s, c, rolledBack), Silent)
    case Shutdown(c, ok) => (ShutdownStep(s, c, ok), Silent)
    case GiveBack(c, closes) => (GiveBackStep(s, c, closes), Silent)
    case CloseAll(closes) => CloseStep(s, closes)
  }

  function After(s: Pool, steps: seq<Step>, n: nat): Pool
    requires n <= |steps|
  {
    if n == 0 then s else Next(After(s, steps, n - 1), steps[n - 1]).0
  }

  // ----- What every step keeps

  /** The counter is exact: leases, borrowers on their way to one, and leases lost to a failing close. */
  predicate Counted(s: Pool) {
    && s.active == |s.leases| + s.opening + s.stuck
    && (s.size > 0 ==> s.opening == 0)
    && (s.size == 0 ==> s.idle == [])
    && (s.size > 0 && !s.closed ==> |s.idle| + |s.leases| + s.stuck == s.size)
  }

  predicate IdleHold(s: Pool) {
    && (forall i, j | 0 <= i < j < |s.idle| :: s.idle[i] != s.idle[j])
    && (forall i | 0 <= i < |s.idle| ::
          s.idle[i] < s.created && s.idle[i] !in s.leases && s.idle[i] !in s.busy && (!s.closed ==> s.idle[i] in s.open))
    && (forall i | 0 <= i < |s.idle| :: s.idle[i] in s.leaked <==> s.closed)
  }

  predicate LeaseHolds(s: Pool, c: nat, phase: Phase) {
    && c < s.created && c !in s.leaked
    && (c in s.open <==> !phase.Shut?)
    && (phase.Using? || (c in s.busy <==> phase == Finished(false)))
    && (phase.Shut? && phase.reusable ==> s.size == 0)
  }

  predicate LeasesHold(s: Pool) {
    forall c | c in s.leases :: LeaseHolds(s, c, s.leases[c])
  }

  /** Nothing is open that is not idle, leased, or leaked by a failing close. */
  predicate NothingForgotten(s: Pool) {
    && (forall c | c in s.open :: c < s.created && (c in s.idle || c in s.leases || c in s.leaked))
    && (forall c | c in s.busy :: c in s.leases || c in s.leaked)
    && forall c | c in s.leaked :: c < s.created
  }

  predicate Inv(s: Pool) {
    Counted(s) && IdleHold(s) && LeasesHold(s) && NothingForgotten(s)
  }

  lemma LeaseCount(leases: map<nat, Phase>, c: nat, phase: Phase)
    ensures c !in leases ==> |leases[c := phase]| == |leases| + 1
    ensures c in leases ==> |leases[c := phase]| == |leases| && |leases - {c}| == |leases| - 1
  {
    if c in leases {
      assert leases[c := phase].Keys == leases.Keys;
      assert (leases - {c}).Keys == leases.Keys - {c};
    } else {
      assert leases[c := phase].Keys == leases.Keys + {c};
    }
  }

  lemma InitialHolds(size: nat)
    ensures Inv(Initial(size))
  {
    var s := Initial(size);
    assert forall c | c in s.open :: s.idle[c] == c;
  }

  lemma EnterCounts(s: Pool)
    requires Counted(s) && IdleHold(s)
    ensures Counted(EnterStep(s).0)
  {
    if s.idle != [] {
      LeaseCount(s.leases, s.idle[|s.idle| - 1], Using);
    }
  }

  lemma OpenedCounts(s: Pool, ok: bool)
    requires Counted(s) && LeasesHold(s)
    ensures Counted(OpenedStep(s, ok).0)
  {
    LeaseCount(s.leases, s.created, Using);
  }

  lemma FinishCounts(s: Pool, c: nat, rolledBack: bool)
    requires Counted(s)
    ensures Counted(FinishStep(s, c, rolledBack))
  {
    LeaseCount(s.leases, c, Finished(true));
    LeaseCount(s.leases, c, Finished(false));
  }

  lemma ShutdownCounts(s: Pool, c: nat, ok: bool)
    requires Counted(s)
    ensures Counted(ShutdownStep(s, c, ok))
  {
    if c in s.leases && s.leases[c].Finished? {
      LeaseCount(s.leases, c, Shut(s.leases[c].reusable));
    }
  }

  lemma GiveBackCounts(s: Pool, c: nat, closes: nat)
    requires Counted(s) && LeasesHold(s)
    ensures Counted(GiveBackStep(s, c, closes))
  {
    hide Elements;
    LeaseCount(s.leases, c, Using);
  }

  lemma NextCounts(s: Pool, step: Step)
    requires Inv(s)
    ensures Counted(Next(s, step).0)
  {
    hide IdleHold, LeasesHold, NothingForgotten, EnterStep, OpenedStep, FinishStep, ShutdownStep, GiveBackStep;
    match step
    case Enter => EnterCounts(s);
    case Opened(ok) => OpenedCounts(s, ok);
    case Finish(c, rolledBack) => FinishCounts(s, c, rolledBack);
    case Shutdown(c, ok) => ShutdownCounts(s, c, ok);
    case GiveBack(c, closes) => GiveBackCounts(s, c, closes);
    case _ =>
  }

  lemma GiveBackIdleHold(s: Pool, c: nat, closes: nat)
    requires IdleHold(s) && LeasesHold(s)
    ensures IdleHold(GiveBackStep(s, c, closes))
  {
    ElementsAre(s.idle);
    hide Elements;
  }

  lemma NextIdleHold(s: Pool, step: Step)
    requires Inv(s)
    ensures IdleHold(Next(s, step).0)
  {
    hide Counted, NothingForgotten, GiveBackStep;
    if step.GiveBack? {
      GiveBackIdleHold(s, step.conn, step.closes);
    } else {
      ElementsAre(s.idle);
      hide Elements;
    }
  }

  lemma ElementsAre(s: seq<nat>)
    ensures forall c :: c in Elements(s) <==> c in s
    ensures forall n: nat, c | n <= |s| && c in Elements(s[..n]) :: c in s
  {
  }

  lemma CloseIdleLeases(s: Pool, closes: nat)
    requires LeasesHold(s) && forall c | c in s.idle :: c !in s.leases
    ensures LeasesHold(CloseIdle(s, closes))
  {
    ElementsAre(s.idle);
    hide Elements;
  }

  lemma GiveBackLeases(s: Pool, c: nat, closes: nat)
    requires LeasesHold(s) && forall c | c in s.idle :: c !in s.leases
    ensures LeasesHold(GiveBackStep(s, c, closes))
  {
    hide CloseIdle;
    if Returnable(s, c) {
      CloseIdleLeases(s.(active := s.active - 1, leases := s.leases - {c}), closes);
    }
  }

  lemma NextLeasesHold(s: Pool, step: Step)
    requires Inv(s)
    ensures LeasesHold(Next(s, step).0)
  {
    hide Counted, CloseIdle, GiveBackStep;
    if step.GiveBack? {
      GiveBackLeases(s, step.conn, step.closes);
    } else if step.CloseAll? {
      CloseIdleLeases(s, step.closes);
    }
  }

  lemma NextForgetsNothing(s: Pool, step: Step)
    requires Inv(s)
    ensures NothingForgotten(Next(s, step).0)
  {
    hide Counted;
    ElementsAre(s.idle);
  }

  /** Every step keeps the lease protocol. */
  lemma NextKeeps(s: Pool, step: Step)
    requires Inv(s)
    ensures Inv(Next(s, step).0)
  {
    hide Counted, IdleHold, LeasesHold, NothingForgotten, Next;
    NextCounts(s, step);
    NextIdleHold(s, step);
    NextLeasesHold(s, step);
    NextForgetsNothing(s, step);
  }

  lemma {:induction false} RunsKeep(size: nat, steps: seq<Step>, n: nat)
    requires n <= |steps|
    ensures Inv(After(Initial(size), steps, n))
  {
    hide Inv, Next, Initial;
    if n == 0 {
      InitialHolds(size);
    } else {
      RunsKeep(size, steps, n - 1);
      NextKeeps(After(Initial(size), steps, n - 1), steps[n - 1]);
    }
  }

  // ----- Leases over whole runs

  function ReplyAt(s: Pool, steps: seq<Step>, n: nat): Reply
    requires n < |steps|
  {
    Next(After(s, steps, n), steps[n]).1
  }

  /** A connection is handed out only while nobody holds it, open, and outside any transaction. */
  lemma HandedOut(s: Pool, step: Step)
    requires Inv(s) && Next(s, step).1.Leased?
    ensures var (s', c) := (Next(s, step).0, Next(s, step).1.conn);
            && c !in s.leases && s'.leases == s.leases[c := Using]
            && c in s'.open && c !in s'.busy
            && (s.size > 0 ==> c in s.idle && c !in s'.idle && !s.closed)
  {
  }

  /** Only giving it back, or failing to close it, ends a lease. */
  lemma LeaseEnds(s: Pool, step: Step, c: nat)
    requires c in s.leases && c !in Next(s, step).0.leases
    ensures step == Shutdown(c, false) || (step.GiveBack? && step.conn == c)
  {
  }

  /** Between two loans of one connection lies its return: it never has two borrowers. */
  lemma {:induction false} OneBorrower(size: nat, steps: seq<Step>, i: nat, j: nat, c: nat)
    requires i < j < |steps|
    requires ReplyAt(Initial(size), steps, i) == Leased(c) && ReplyAt(Initial(size), steps, j) == Leased(c)
    ensures exists m | i < m < j :: steps[m].GiveBack? && steps[m].conn == c
  {
    hide Next, Inv, Initial;
    var s := Initial(size);
    RunsKeep(size, steps, i);
    RunsKeep(size, steps, j);
    HandedOut(After(s, steps, i), steps[i]);
    HandedOut(After(s, steps, j), steps[j]);
    var m := LeaseEndsBetween(size, steps, i + 1, j, c);
    if steps[m] == Shutdown(c, false) {
      LostIsNeverLeased(size, steps, m, j, c);
    }
  }

  lemma {:induction false} LeaseEndsBetween(size: nat, steps: seq<Step>, i: nat, j: nat, c: nat) returns (m: nat)
    requires i <= j <= |steps|
    requires c in After(Initial(size), steps, i).leases && c !in After(Initial(size), steps, j).leases
    ensures i <= m < j && c in After(Initial(size), steps, m).leases && c !in After(Initial(size), steps, m + 1).leases
    ensures steps[m] == Shutdown(c, false) || (steps[m].GiveBack? && steps[m].conn == c)
    decreases j - i
  {
    hide Next, Initial;
    if c in After(Initial(size), steps, i + 1).leases {
      m := LeaseEndsBetween(size, steps, i + 1, j, c);
    } else {
      m := i;
      LeaseEnds(After(Initial(size), steps, i), steps[i], c);
    }
  }

  /** A connection that may be in an unknown state: it is out of the idle list, and no lease of it can put it back. */
  predicate Tainted(s: Pool, c: nat) {
    c < s.created && c !in s.idle && (c in s.leases ==> s.leases[c] in {Finished(false), Shut(false)})
  }

  lemma TaintedStays(s: Pool, step: Step, c: nat)
    requires Tainted(s, c)
    ensures Tainted(Next(s, step).0, c) && Next(s, step).1 != Leased(c)
  {
  }

  lemma {:induction false} TaintedForever(s: Pool, steps: seq<Step>, i: nat, j: nat, c: nat)
    requires i <= j <= |steps| && Tainted(After(s, steps, i), c)
    ensures Tainted(After(s, steps, j), c) && (j < |steps| ==> ReplyAt(s, steps, j) != Leased(c))
  {
    hide Tainted, Next;
    if i < j {
      TaintedForever(s, steps, i, j - 1, c);
      TaintedStays(After(s, steps, j - 1), steps[j - 1], c);
    }
    if j < |steps| {
      TaintedStays(After(s, steps, j), steps[j], c);
    }
  }

  /** After a failed rollback the connection is never handed out again. */
  lemma BrokenIsNeverLeased(size: nat, steps: seq<Step>, i: nat, j: nat, c: nat)
    requires i < j < |steps| && steps[i] == Finish(c, false)
    requires c in After(Initial(size), steps, i).leases && Uses(After(Initial(size), steps, i), c)
    requires c in After(Initial(size), steps, i).busy
    ensures ReplyAt(Initial(size), steps, j) != Leased(c)
  {
    hide Inv, Next, Initial, Tainted, Uses;
    RunsKeep(size, steps, i);
    FailureTaints(After(Initial(size), steps, i), c);
    TaintedForever(Initial(size), steps, i + 1, j, c);
  }

  lemma FailureTaints(s: Pool, c: nat)
    requires Inv(s) && c in s.leases
    ensures Uses(s, c) && c in s.busy ==> Tainted(Next(s, Finish(c, false)).0, c)
    ensures c !in Next(s, Shutdown(c, false)).0.leases ==> Tainted(Next(s, Shutdown(c, false)).0, c)
  {
    hide Counted, NothingForgotten;
  }

  lemma LostIsNeverLeased(size: nat, steps: seq<Step>, i: nat, j: nat, c: nat)
    requires i < j < |steps| && steps[i] == Shutdown(c, false)
    requires c in After(Initial(size), steps, i).leases && c !in After(Initial(size), steps, i + 1).leases
    ensures ReplyAt(Initial(size), steps, j) != Leased(c)
  {
    hide Inv, Next, Initial, Tainted, Uses;
    RunsKeep(size, steps, i);
    FailureTaints(After(Initial(size), steps, i), c);
    TaintedForever(Initial(size), steps, i + 1, j, c);
  }

  // ----- Quarantine and closing

  /** A closed pool stays closed and admits nobody; each returned connection is closed for good. */
  lemma ClosedStep(s: Pool, step: Step)
    requires Inv(s) && s.closed
    ensures var (s', r) := Next(s, step);
            && s'.closed && s'.idle <= s.idle && s'.opening <= s.opening && !r.Admitted?
            && (r.Leased? <==> s.opening > 0 && step == Opened(true))
            && (s.opening > 0 ==> s.size == 0)
            && forall c | c in s.leases && c !in s'.leases :: c !in s'.open || c in s'.leaked
  {
  }

  /** Once closed, a pool hands out nothing. Without a pool, a borrower gets a connection after the close if and only if it
      was admitted before and succeeds in opening one. */
  lemma {:induction false} ClosedHandsOutNothing(size: nat, steps: seq<Step>, i: nat, j: nat)
    requires i <= j < |steps| && After(Initial(size), steps, i).closed
    ensures After(Initial(size), steps, j).closed
    ensures After(Initial(size), steps, j).opening <= After(Initial(size), steps, i).opening
    ensures ReplyAt(Initial(size), steps, j).Leased? <==> After(Initial(size), steps, j).opening > 0 && steps[j] == Opened(true)
    ensures After(Initial(size), steps, j).opening > 0 ==> size == 0
  {
    hide Next, Inv, Initial;
    SizeIsFixed(size, steps, j);
    RunsKeep(size, steps, j);
    if i < j {
      ClosedHandsOutNothing(size, steps, i, j - 1);
      RunsKeep(size, steps, j - 1);
      ClosedStep(After(Initial(size), steps, j - 1), steps[j - 1]);
    }
    ClosedStep(After(Initial(size), steps, j), steps[j]);
  }

  lemma SizeStays(s: Pool, step: Step)
    ensures Next(s, step).0.size == s.size
  {
    hide Elements;
  }

  lemma {:induction false} SizeIsFixed(size: nat, steps: seq<Step>, n: nat)
    requires n <= |steps|
    ensures After(Initial(size), steps, n).size == size
  {
    hide Next;
    if n > 0 {
      SizeIsFixed(size, steps, n - 1);
      SizeStays(After(Initial(size), steps, n - 1), steps[n - 1]);
    }
  }

  /** A borrower that could not roll back closes the pool exactly when its own connection could be closed: a failing
      close escapes before the pool is told. */
  lemma QuarantineExactly(s: Pool, c: nat, ok: bool, closes: nat)
    requires c in s.leases && s.leases[c] == Finished(false)
    ensures Next(Next(s, Shutdown(c, ok)).0, GiveBack(c, closes)).0.closed <==> s.closed || ok
  {
  }

  /** The step closes the pool: its owner does, with no lease counted, or a borrower that could not roll back. */
  predicate Closes(s: Pool, step: Step) {
    match step
    case CloseAll(_) => s.active == 0
    case GiveBack(c, _) => Returnable(s, c) && !s.leases[c].reusable
    case _ => false
  }

  /** Over any run the pool is closed if and only if one of these happened. */
  lemma {:induction false} ClosedExactly(size: nat, steps: seq<Step>, n: nat)
    requires n <= |steps|
    ensures After(Initial(size), steps, n).closed
            <==> exists k | 0 <= k < n :: Closes(After(Initial(size), steps, k), steps[k])
  {
    hide Next, Closes;
    if n > 0 {
      ClosedExactly(size, steps, n - 1);
      ClosesNow(After(Initial(size), steps, n - 1), steps[n - 1]);
    }
  }

  lemma ClosesNow(s: Pool, step: Step)
    ensures Next(s, step).0.closed <==> s.closed || Closes(s, step)
  {
    hide Elements;
  }

  // ----- Runs in which a quarantine does not hold

  /** Two borrowers without a pool; the first breaks its connection while the second is still opening its own. */
  function LateOpening(): seq<Step> {
    [Enter, Enter, Opened(true), Begin(0), Finish(0, false), Shutdown(0, true), GiveBack(0, 0), Opened(true)]
  }

  /** A borrower admitted before the quarantine gets its connection after it. */
  lemma LeasedAfterClose()
    ensures After(Initial(0), LateOpening(), 7).closed && ReplyAt(Initial(0), LateOpening(), 7) == Leased(1)
  {
    hide Elements;
    var s, steps := Initial(0), LateOpening();
    assert After(s, steps, 3).leases == map[0 := Using];
    assert After(s, steps, 5).leases == map[0 := Finished(false)];
    assert After(s, steps, 6).leases == map[0 := Shut(false)];
  }

  /** A pool of one whose connection can neither be rolled back nor closed, then a borrower, then its owner. */
  function FailingClose(): seq<Step> {
    [Enter, Begin(0), Finish(0, false), Shutdown(0, false), GiveBack(0, 0), Enter, CloseAll(0)]
  }

  /** The close escapes before the pool is told: the pool is never closed, its next borrower waits in vain, and even its
      owner may not close it. */
  lemma NeverQuarantined()
    ensures ReplyAt(Initial(1), FailingClose(), 0) == Leased(0)
    ensures !After(Initial(1), FailingClose(), 7).closed
    ensures ReplyAt(Initial(1), FailingClose(), 5).TimedOut? && ReplyAt(Initial(1), FailingClose(), 6).Refused?
  {
    hide Elements;
    var s, steps := Initial(1), FailingClose();
    assert s.idle == [0];
    assert After(s, steps, 1).leases == map[0 := Using];
    assert After(s, steps, 3).leases == map[0 := Finished(false)];
    assert After(s, steps, 4).leases == map[] && After(s, steps, 4).active == 1;
  }

  /** An idle pool holds its full size again: unless it is closed, or a lease ended in a failing close. */
  lemma FullAgain(size: nat, steps: seq<Step>)
    requires var s := After(Initial(size), steps, |steps|); !s.closed && s.active == 0
    ensures |After(Initial(size), steps, |steps|).idle| == size
  {
    RunsKeep(size, steps, |steps|);
    SizeIsFixed(size, steps, |steps|);
  }

  /** Closing is refused exactly while leases are counted, and leaves no connection open that could be closed. */
  lemma CloseLeavesNothingOpen(size: nat, steps: seq<Step>, closes: nat)
    ensures var s := After(Initial(size), steps, |steps|);
            var (s', r) := CloseStep(s, closes);
            && (r.Refused? <==> |s.leases| + s.opening + s.stuck > 0)
            && (!r.Refused? ==> s'.closed && s'.open <= s'.leaked)
            && (!r.Refused? && closes >= |s.idle| ==> s'.idle == [] && s'.leaked == s.leaked)
  {
    var s := After(Initial(size), steps, |steps|);
    RunsKeep(size, steps, |steps|);
    NextKeeps(s, CloseAll(closes));
    if s.active == 0 {
      assert s.leases.Keys == {};
    }
  }

  // ----- The pool as an object

  lemma ElementsSnoc(s: seq<nat>, i: nat)
    requires i < |s|
    ensures Elements(s[..i + 1]) == Elements(s[..i]) + {s[i]}
  {
    assert s[..i + 1] == s[..i] + [s[i]];
    assert s[..i + 1][i] == s[i];
    assert forall k | 0 <= k < i :: s[..i + 1][k] == s[..i][k];
  }

  class LeasePool {
    const size: nat
    var available: seq<nat>
    var active: int
    var closed: bool
    var open: set<nat>
    ghost var rest: Pool  // what the borrowers know: the phases of their leases

    ghost function View(): Pool
      reads this
    {
      rest.(size := size, idle := available, active := active, closed := closed, open := open)
    }

    constructor (size: nat)
      ensures View() == Initial(size)
    {
      this.size, available, active, closed, open := size, [], 0, false, {};
      rest := Initial(size);
      new;
      for i := 0 to size
        invariant |available| == i && forall k | 0 <= k < i :: available[k] == k
        invariant open == Elements(available)
        invariant active == 0 && !closed && rest == Initial(size)
      {
        ghost var before := available;
        available := available + [i];
        open := open + {i};
        assert available[..i] == before;
        ElementsSnoc(available, i);
      }
      assert available == seq<nat>(size, k => k);
    }

    /** Take the connection returned last. Waiting is over when one is idle, the pool is closed, or time is up. */
    method Checkout() returns (r: Reply)
      modifies this
      ensures (View(), r) == Next(old(View()), Enter)
    {
      if closed {
        return Refused;
      }
      if size > 0 && available == [] {
        return TimedOut;
      }
      active := active + 1;
      if size > 0 {
        var c := available[|available| - 1];
        available := available[..|available| - 1];
        rest := rest.(leases := rest.leases[c := Using]);
        return Leased(c);
      }
      rest := rest.(opening := rest.opening + 1);
      return Admitted;
    }

    /** Give a lease up: back into the pool, closed, or closing the whole pool. */
    method Return(c: nat, reusable: bool, closes: nat)
      requires Inv(View()) && Returnable(View(), c) && reusable == View().leases[c].reusable
      modifies this
      ensures View() == Next(old(View()), GiveBack(c, closes)).0
    {
      active := active - 1;
      rest := rest.(leases := rest.leases - {c});
      if size > 0 && reusable && !closed {
        available := available + [c];
      } else if size > 0 && reusable {
        if closes > 0 {
          open := open - {c};
        } else {
          rest := rest.(leaked := rest.leaked + {c});
        }
      }
      if !reusable {
        CloseAvailable(closes);
      }
    }

    /** Close every idle connection; a failing close leaves the list as it is. */
    method CloseAvailable(closes: nat)
      modifies this
      ensures View() == CloseIdle(old(View()), closes)
    {
      closed := true;
      ghost var was := open;
      for i := 0 to |available|
        invariant closed && available == old(available) && active == old(active) && rest == old(rest)
        invariant i <= closes && open == was - Elements(available[..i])
      {
        if i == closes {
          rest := rest.(leaked := rest.leaked + Elements(available));
          return;
        }
        open := open - {available[i]};
        ElementsSnoc(available, i);
      }
      assert available[..|available|] == available;
      available := [];
    }

    method CloseOwner(closes: nat) returns (r: Reply)
      modifies this
      ensures (View(), r) == Next(old(View()), CloseAll(closes))
    {
      if active != 0 {
        return Refused;
      }
      CloseAvailable(closes);
      return Silent;
    }
  }
}
