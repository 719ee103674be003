/** Nested transactions over one connection: BEGIN and COMMIT outermost, savepoints inside. */
module Savepoints {

  /** What a connection sees, what is durable, and the states its open savepoints remember. */
  datatype Connection<T> = Connection(current: T, durable: T, stack: seq<T>, inTransaction: bool)

  predicate Resting<T(==)>(c: Connection<T>) {
    c.inTransaction || (c.stack == [] && c.current == c.durable)
  }

  // ----- Statements

  function Begin<T>(c: Connection<T>): Connection<T> {
    c.(inTransaction := true)
  }

  function Commit<T>(c: Connection<T>): Connection<T> {
    c.(durable := c.current, stack := [], inTransaction := false)
  }

  function Rollback<T>(c: Connection<T>): Connection<T> {
    c.(current := c.durable, stack := [], inTransaction := false)
  }

  function Savepoint<T>(c: Connection<T>): Connection<T> {
    c.(stack := c.stack + [c.current])
  }

  /** All savepoints share one name; it means the innermost. */
  function Release<T>(c: Connection<T>): Connection<T>
    requires c.stack != []
  {
    c.(stack := c.stack[..|c.stack| - 1])
  }

  /** Returning to a savepoint keeps it open. */
  function RollbackTo<T>(c: Connection<T>): Connection<T>
    requires c.stack != []
  {
    c.(current := c.stack[|c.stack| - 1])
  }

  // ----- Programs

  /** What callers compose: work that may fail half-way, sequences, decisions on what they read, failures caught and what is
      done then, and transactions. `commits` tells whether the database accepts the commit, should the transaction be the
      outermost one. */
  datatype Program<!T> =
    | Do(work: T -> (T, bool))
    | Then(first: Program<T>, second: Program<T>)
    | Branch(test: T -> bool, yes: Program<T>, no: Program<T>)
    | Try(body: Program<T>, caught: Program<T>)
    | Transaction(body: Program<T>, commits: bool)

  /** Outside a transaction a statement stands alone and commits itself. */
  function Statement<T>(c: Connection<T>, work: T -> (T, bool)): (Connection<T>, bool) {
    var (t, ok) := work(c.current);
    (if c.inTransaction then c.(current := t) else if ok then c.(current := t, durable := t) else c, ok)
  }

  function Run<T(==)>(c: Connection<T>, p: Program<T>): (r: (Connection<T>, bool))
    requires Resting(c)
    ensures r.0.inTransaction == c.inTransaction && r.0.stack == c.stack && Resting(r.0)
    decreases p
  {
    match p
    case Do(work) => Statement(c, work)
    case Then(first, second) =>
      var (c', ok) := Run(c, first);
      if ok then Run(c', second) else (c', false)
    case Branch(test, yes, no) => Run(c, if test(c.current) then yes else no)
    case Try(body, caught) =>
      var (c', ok) := Run(c, body);
      if ok then (c', true) else Run(c', caught)
    case Transaction(body, commits) =>
      if c.inTransaction then
        var (c', ok) := Run(Savepoint(c), body);
        if ok then (Release(c'), true) else (Release(RollbackTo(c')), false)
      else
        var (c', ok) := Run(Begin(c), body);
        if ok && commits then (Commit(c'), true) else (Rollback(c'), false)
  }

  // ----- What programs mean, without connections and savepoints

  /** Inside a transaction: a failing transaction has no effect at all. */
  function Nested<T>(t: T, p: Program<T>): (T, bool) {
    match p
    case Do(work) => work(t)
    case Then(first, second) =>
      var (t', ok) := Nested(t, first);
      if ok then Nested(t', second) else (t', false)
    case Branch(test, yes, no) => Nested(t, if test(t) then yes else no)
    case Try(body, caught) =>
      var (t', ok) := Nested(t, body);
      if ok then (t', true) else Nested(t', caught)
    case Transaction(body, _) =>
      var (t', ok) := Nested(t, body);
      (if ok then t' else t, ok)
  }

  /** Outside any transaction. */
  function Outermost<T>(t: T, p: Program<T>): (T, bool) {
    match p
    case Do(work) =>
      var (t', ok) := work(t);
      (if ok then t' else t, ok)
    case Then(first, second) =>
      var (t', ok) := Outermost(t, first);
      if ok then Outermost(t', second) else (t', false)
    case Branch(test, yes, no) => Outermost(t, if test(t) then yes else no)
    case Try(body, caught) =>
      var (t', ok) := Outermost(t, body);
      if ok then (t', true) else Outermost(t', caught)
    case Transaction(body, commits) =>
      var (t', ok) := Nested(t, body);
      (if ok && commits then t' else t, ok && commits)
  }

  /** The savepoint machine means what it should: inside a transaction only the current state moves, exactly as the
      nested meaning says; the durable state and every open savepoint stay. */
  lemma {:induction false} RunsNested<T>(c: Connection<T>, p: Program<T>)
    requires c.inTransaction
    ensures Run(c, p) == (c.(current := Nested(c.current, p).0), Nested(c.current, p).1)
    decreases p
  {
    match p
    case Do(_) =>
    case Then(first, second) =>
      RunsNested(c, first);
      RunsNested(c.(current := Nested(c.current, first).0), second);
    case Branch(test, yes, no) => RunsNested(c, if test(c.current) then yes else no);
    case Try(body, caught) =>
      RunsNested(c, body);
      RunsNested(c.(current := Nested(c.current, body).0), caught);
    case Transaction(body, _) =>
      RunsNested(Savepoint(c), body);
      assert Savepoint(c).stack[..|c.stack|] == c.stack;
  }

  lemma {:induction false} RunsOutermost<T>(c: Connection<T>, p: Program<T>)
    requires Resting(c) && !c.inTransaction
    ensures var (t, ok) := Outermost(c.durable, p);
            Run(c, p) == (c.(current := t, durable := t), ok)
    decreases p
  {
    match p
    case Do(_) =>
    case Then(first, second) =>
      RunsOutermost(c, first);
      RunsOutermost(Run(c, first).0, second);
    case Branch(test, yes, no) => RunsOutermost(c, if test(c.durable) then yes else no);
    case Try(body, caught) =>
      RunsOutermost(c, body);
      RunsOutermost(Run(c, body).0, caught);
    case Transaction(body, _) => RunsNested(Begin(c), body);
  }

  /** A failing transaction, at any depth and whatever it contains, restores exactly what it found on entry. */
  lemma FailureRestores<T>(c: Connection<T>, body: Program<T>, commits: bool)
    requires Resting(c) && !Run(c, Transaction(body, commits)).1
    ensures Run(c, Transaction(body, commits)).0 == c
  {
    if c.inTransaction {
      RunsNested(c, Transaction(body, commits));
    } else {
      RunsOutermost(c, Transaction(body, commits));
    }
  }

  /** Catching the failure changes nothing about that: what is done then, and after, starts from the state of entry. */
  lemma CaughtFailureRestores<T>(c: Connection<T>, body: Program<T>, commits: bool, caught: Program<T>, rest: Program<T>)
    requires Resting(c) && !Run(c, Transaction(body, commits)).1
    ensures Run(c, Then(Try(Transaction(body, commits), caught), rest)) == Run(c, Then(caught, rest))
  {
    FailureRestores(c, body, commits);
  }

  /** Nothing becomes durable before the outermost commit, and that makes all of it durable at once. */
  lemma DurableAtOnce<T>(c: Connection<T>, body: Program<T>)
    requires Resting(c)
    ensures c.inTransaction ==> Run(c, body).0.durable == c.durable
    ensures !c.inTransaction && Nested(c.durable, body).1 ==>
              Run(c, Transaction(body, true)).0.durable == Nested(c.durable, body).0
  {
    if c.inTransaction {
      RunsNested(c, body);
    } else {
      RunsOutermost(c, Transaction(body, true));
    }
  }

  // ----- Invariants of programs

  /** Successful runs of this program keep `inv`. */
  ghost predicate KeepsWhenOk<T(!new)>(p: Program<T>, inv: T -> bool) {
    match p
    case Do(work) => forall t | inv(t) && work(t).1 :: inv(work(t).0)
    case Then(first, second) => KeepsWhenOk(first, inv) && KeepsWhenOk(second, inv)
    case Branch(_, yes, no) => KeepsWhenOk(yes, inv) && KeepsWhenOk(no, inv)
    case Try(body, caught) => Keeps(body, inv) && KeepsWhenOk(caught, inv)
    case Transaction(body, _) => KeepsWhenOk(body, inv)
  }

  /** All runs of this program keep `inv`; for a transaction it is enough that the successful ones do. */
  ghost predicate Keeps<T(!new)>(p: Program<T>, inv: T -> bool) {
    match p
    case Do(work) => forall t | inv(t) :: inv(work(t).0)
    case Then(first, second) => Keeps(first, inv) && Keeps(second, inv)
    case Branch(_, yes, no) => Keeps(yes, inv) && Keeps(no, inv)
    case Try(body, caught) => Keeps(body, inv) && Keeps(caught, inv)
    case Transaction(body, _) => KeepsWhenOk(body, inv)
  }

  lemma {:induction false} NestedKeeps<T(!new)>(t: T, p: Program<T>, inv: T -> bool)
    requires inv(t)
    ensures KeepsWhenOk(p, inv) && Nested(t, p).1 ==> inv(Nested(t, p).0)
    ensures Keeps(p, inv) ==> inv(Nested(t, p).0)
  {
    match p
    case Do(_) =>
    case Then(first, second) =>
      NestedKeeps(t, first, inv);
      if Nested(t, first).1 && inv(Nested(t, first).0) {
        NestedKeeps(Nested(t, first).0, second, inv);
      }
    case Branch(test, yes, no) => NestedKeeps(t, if test(t) then yes else no, inv);
    case Try(body, caught) =>
      NestedKeeps(t, body, inv);
      if Keeps(body, inv) {
        NestedKeeps(Nested(t, body).0, caught, inv);
      }
    case Transaction(body, _) => NestedKeeps(t, body, inv);
  }

  lemma {:induction false} OutermostKeeps<T(!new)>(t: T, p: Program<T>, inv: T -> bool)
    requires inv(t) && Keeps(p, inv)
    ensures inv(Outermost(t, p).0)
  {
    match p
    case Do(_) =>
    case Then(first, second) =>
      OutermostKeeps(t, first, inv);
      if Outermost(t, first).1 {
        OutermostKeeps(Outermost(t, first).0, second, inv);
      }
    case Branch(test, yes, no) => OutermostKeeps(t, if test(t) then yes else no, inv);
    case Try(body, caught) =>
      OutermostKeeps(t, body, inv);
      OutermostKeeps(Outermost(t, body).0, caught, inv);
    case Transaction(body, _) => NestedKeeps(t, body, inv);
  }

  /** Whatever a caller composes of operations that keep an invariant when they succeed, each in its own transaction,
      the invariant holds of the durable state before, after, and of everything the connection sees outside them. */
  lemma ComposedKeeps<T(!new)>(c: Connection<T>, p: Program<T>, inv: T -> bool)
    requires Resting(c) && inv(c.durable) && inv(c.current) && Keeps(p, inv)
    ensures inv(Run(c, p).0.durable) && inv(Run(c, p).0.current)
  {
    if c.inTransaction {
      RunsNested(c, p);
      NestedKeeps(c.current, p, inv);
    } else {
      RunsOutermost(c, p);
      OutermostKeeps(c.durable, p, inv);
    }
  }
}
