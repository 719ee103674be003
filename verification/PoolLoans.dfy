/** Whole loans from the connection pool: who gets a connection, and what a loan leaves behind. */
module PoolLoans {
  import opened ConnectionPool

  /** A closed pool refuses. An open one admits everybody if it holds no connections, and otherwise hands one out exactly
      while fewer are lent, or lost to a failing close, than it holds. */
  lemma EntersExactly(s: Pool)
    requires Inv(s)
    ensures var r := Next(s, Enter).1;
            && (r.Refused? <==> s.closed)
            && (r.Admitted? <==> !s.closed && s.size == 0)
            && (r.Leased? <==> !s.closed && s.size > 0 && |s.leases| + s.stuck < s.size)
            && (r.TimedOut? <==> !s.closed && s.size > 0 && |s.leases| + s.stuck == s.size)
  {
    hide IdleHold, LeasesHold, NothingForgotten;
  }

  /** The connection that an open pool lends next: the one returned last. */
  function Lent(s: Pool): nat {
    if s.size > 0 && s.idle != [] then s.idle[|s.idle| - 1] else s.created
  }

  /** The steps of one loan of an idle connection, with a transaction that is committed or rolled back in the end. */
  function Loan(c: nat, commits: bool, rolledBack: bool, closes: nat): seq<Step> {
    [Enter, Begin(c)] + (if commits then [Commit(c)] else []) + [Finish(c, rolledBack), GiveBack(c, closes)]
  }

  lemma NoLease(leases: map<nat, Phase>, c: nat, phase: Phase)
    requires c !in leases
    ensures leases[c := phase] - {c} == leases
  {
  }

  lemma LentIsFree(s: Pool)
    requires Inv(s) && s.idle != []
    ensures s.size > 0 && s.idle == s.idle[..|s.idle| - 1] + [Lent(s)]
    ensures Lent(s) !in s.leases && s.busy + {Lent(s)} - {Lent(s)} == s.busy && Lent(s) !in s.idle[..|s.idle| - 1]
  {
    hide LeasesHold, NothingForgotten;
    assert s.idle[|s.idle| - 1] !in s.busy;
  }

  lemma AfterOne(s: Pool, steps: seq<Step>, n: nat)
    requires n < |steps|
    ensures After(s, steps, n + 1) == Next(After(s, steps, n), steps[n]).0
  {
  }

  /** The pool while its next connection is lent. */
  function Taken(s: Pool, phase: Phase): Pool {
    s.(idle := if s.idle == [] then [] else s.idle[..|s.idle| - 1], leases := s.leases[Lent(s) := phase], active := s.active + 1)
  }

  lemma TakenFirst(s: Pool)
    requires s.size > 0 && !s.closed && s.idle != []
    ensures Next(s, Enter).0 == Taken(s, Using)
    ensures Next(Taken(s, Using), Begin(Lent(s))).0 == Taken(s, Using).(busy := s.busy + {Lent(s)})
  {
    hide Elements;
  }

  lemma TakenFinishes(s: Pool, rolledBack: bool, commits: bool)
    requires s.busy + {Lent(s)} - {Lent(s)} == s.busy && Lent(s) !in s.busy
    ensures var (c, busy) := (Lent(s), Taken(s, Using).(busy := s.busy + {Lent(s)}));
            && Next(busy, Commit(c)).0 == Taken(s, Using)
            && Next(Taken(s, Using), Finish(c, rolledBack)).0 == Taken(s, Finished(true))
            && Next(busy, Finish(c, true)).0 == Taken(s, Finished(true))
            && Next(busy, Finish(c, false)).0 == Taken(s, Finished(false)).(busy := s.busy + {c})
  {
    hide Elements;
    assert Taken(s, Using).leases[Lent(s) := Finished(true)] == s.leases[Lent(s) := Finished(true)];
    assert Taken(s, Using).leases[Lent(s) := Finished(false)] == s.leases[Lent(s) := Finished(false)];
  }

  lemma TakenReturns(s: Pool, closes: nat)
    requires s.size > 0 && !s.closed && s.idle != [] && s.idle == s.idle[..|s.idle| - 1] + [Lent(s)] && Lent(s) !in s.leases
    ensures Next(Taken(s, Finished(true)), GiveBack(Lent(s), closes)).0 == s
  {
    hide Elements;
    NoLease(s.leases, Lent(s), Finished(true));
  }

  /** A loan whose transaction ends leaves the pool exactly as it was. */
  lemma LoanLeavesNoTrace(s: Pool, commits: bool, rolledBack: bool, closes: nat)
    requires Inv(s) && !s.closed && s.idle != [] && (commits || rolledBack)
    ensures var loan := Loan(Lent(s), commits, rolledBack, closes); After(s, loan, |loan|) == s
  {
    hide Inv, Next, Taken, Lent;
    var loan := Loan(Lent(s), commits, rolledBack, closes);
    LentIsFree(s);
    IdleIsNotBusy(s);
    TakenFirst(s);
    TakenFinishes(s, rolledBack, commits);
    TakenReturns(s, closes);
    AfterOne(s, loan, 0);
    AfterOne(s, loan, 1);
    AfterOne(s, loan, 2);
    AfterOne(s, loan, 3);
    if commits {
      AfterOne(s, loan, 4);
    }
  }

  lemma IdleIsNotBusy(s: Pool)
    requires Inv(s) && s.idle != []
    ensures Lent(s) !in s.busy
  {
    hide LeasesHold, NothingForgotten;
  }

  /** A loan whose rollback fails closes the pool with every idle connection, its own first. */
  lemma BrokenLoanCloses(s: Pool, closes: nat)
    requires Inv(s) && !s.closed && s.idle != [] && closes >= |s.idle|
    ensures var c := Lent(s);
            After(s, [Enter, Begin(c), Finish(c, false), Shutdown(c, true), GiveBack(c, closes)], 5)
            == s.(closed := true, idle := [], open := s.open - set i | 0 <= i < |s.idle| :: s.idle[i])
  {
    hide Inv, Next, Taken, Lent;
    var c := Lent(s);
    var loan := [Enter, Begin(c), Finish(c, false), Shutdown(c, true), GiveBack(c, closes)];
    LentIsFree(s);
    IdleIsNotBusy(s);
    TakenFirst(s);
    TakenFinishes(s, false, false);
    TakenBreaks(s, closes);
    AfterOne(s, loan, 0);
    AfterOne(s, loan, 1);
    AfterOne(s, loan, 2);
    AfterOne(s, loan, 3);
    AfterOne(s, loan, 4);
  }

  lemma TakenBreaks(s: Pool, closes: nat)
    requires s.size > 0 && !s.closed && s.idle != [] && s.idle == s.idle[..|s.idle| - 1] + [Lent(s)] && Lent(s) !in s.leases
    requires s.busy + {Lent(s)} - {Lent(s)} == s.busy && closes >= |s.idle|
    ensures var c := Lent(s);
            var broken := Taken(s, Finished(false)).(busy := s.busy + {c});
            Next(Next(broken, Shutdown(c, true)).0, GiveBack(c, closes)).0
            == s.(closed := true, idle := [], open := s.open - set i | 0 <= i < |s.idle| :: s.idle[i])
  {
    var c, rest := Lent(s), s.idle[..|s.idle| - 1];
    NoLease(s.leases, c, Shut(false));
    var broken := Taken(s, Finished(false)).(busy := s.busy + {c});
    assert broken.leases[c := Shut(false)] == s.leases[c := Shut(false)];
    assert (set i | 0 <= i < |s.idle| :: s.idle[i]) == Elements(rest) + {c} by {
      assert forall i | 0 <= i < |rest| :: s.idle[i] == rest[i];
      assert s.idle[|rest|] == c;
    }
    hide Elements;
    assert s.open - {c} - Elements(rest) == s.open - (Elements(rest) + {c});
  }

  /** Without a pool a loan opens a new connection and leaves it closed. */
  lemma OwnConnectionIsClosed(s: Pool, closes: nat)
    requires Inv(s) && !s.closed && s.size == 0
    ensures var c := s.created;
            After(s, [Enter, Opened(true), Begin(c), Finish(c, true), Shutdown(c, true), GiveBack(c, closes)], 6)
            == s.(created := s.created + 1)
  {
    hide Inv, Next;
    var c := s.created;
    var loan := [Enter, Opened(true), Begin(c), Finish(c, true), Shutdown(c, true), GiveBack(c, closes)];
    NeverCreated(s);
    OwnOpens(s);
    OwnFinishes(s, closes);
    AfterOne(s, loan, 0);
    AfterOne(s, loan, 1);
    AfterOne(s, loan, 2);
    AfterOne(s, loan, 3);
    AfterOne(s, loan, 4);
    AfterOne(s, loan, 5);
  }

  /** The pool while a borrower uses the connection it opened itself. */
  function Own(s: Pool, phase: Phase): Pool {
    s.(leases := s.leases[s.created := phase], active := s.active + 1, open := s.open + {s.created}, created := s.created + 1)
  }

  lemma OwnOpens(s: Pool)
    requires s.size == 0 && !s.closed
    ensures Next(Next(s, Enter).0, Opened(true)).0 == Own(s, Using)
  {
  }

  lemma OwnFinishes(s: Pool, closes: nat)
    requires s.size == 0 && !s.closed && s.created !in s.leases && s.created !in s.open && s.created !in s.busy
    ensures var c := s.created;
            var s3 := Next(Own(s, Using), Begin(c)).0;
            var s4 := Next(s3, Finish(c, true)).0;
            Next(Next(s4, Shutdown(c, true)).0, GiveBack(c, closes)).0 == s.(created := s.created + 1)
  {
    hide Elements, CloseIdle;
    var c := s.created;
    NoLease(s.leases, c, Shut(true));
    assert s.busy + {c} - {c} == s.busy && s.open + {c} - {c} == s.open;
    var s4 := Next(Next(Own(s, Using), Begin(c)).0, Finish(c, true)).0;
    assert s4 == Own(s, Finished(true)) by {
      assert Own(s, Using).leases[c := Finished(true)] == s.leases[c := Finished(true)];
    }
    assert s4.leases[c := Shut(true)] == s.leases[c := Shut(true)];
  }

  lemma NeverCreated(s: Pool)
    requires Inv(s)
    ensures s.created !in s.leases && s.created !in s.open && s.created !in s.busy
  {
    hide Counted;
    assert forall c | c in s.leases :: LeaseHolds(s, c, s.leases[c]);
  }

  /** A borrower that cannot open its connection leaves no trace. */
  lemma FailedOpeningLeavesNoTrace(s: Pool)
    requires Inv(s) && !s.closed && s.size == 0
    ensures After(s, [Enter, Opened(false)], 2) == s
  {
    var loan := [Enter, Opened(false)];
    assert After(s, loan, 1) == s.(opening := s.opening + 1, active := s.active + 1);
  }

  /** A connection that comes back to a closed pool is closed, or lost if that fails. */
  lemma LateReturnIsClosed(s: Pool, c: nat, closes: nat)
    requires Inv(s) && s.closed && s.size > 0 && c in s.leases && s.leases[c] == Finished(true)
    ensures var returned := s.(active := s.active - 1, leases := s.leases - {c});
            Next(s, GiveBack(c, closes)).0
            == if closes > 0 then returned.(open := s.open - {c}) else returned.(leaked := s.leaked + {c})
  {
  }

  /** Closing without leases closes the idle connections in order until one fails to; then it leaves the others open, the
      list as it is, and every connection in it lost. */
  lemma ClosesInOrder(s: Pool, closes: nat)
    requires Inv(s) && s.active == 0
    ensures var (s', r) := Next(s, CloseAll(closes));
            && r.Silent? && s'.closed
            && (forall c :: c in s'.open <==> c in s.open && forall i | 0 <= i < |s.idle| && i < closes :: s.idle[i] != c)
            && (closes >= |s.idle| ==> s'.idle == [] && s'.leaked == s.leaked)
            && (closes < |s.idle| ==>
                  s'.idle == s.idle && forall c :: c in s'.leaked <==> c in s.leaked || c in s.idle)
            && s' == s.(closed := true, open := s'.open, idle := s'.idle, leaked := s'.leaked)
  {
    hide Inv;
    var closed := if closes < |s.idle| then s.idle[..closes] else s.idle;
    forall c
      ensures c in Elements(closed) <==> exists i :: 0 <= i < |s.idle| && i < closes && s.idle[i] == c
    {
      if i :| 0 <= i < |s.idle| && i < closes && s.idle[i] == c {
        assert closed[i] == c;
      }
    }
  }
}
