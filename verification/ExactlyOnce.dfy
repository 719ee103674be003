/** Retries of the same request: at most one takes effect, and every accepting reply is the same. */
module ExactlyOnce {
  import opened Options
  import opened Identifiers
  import opened LedgerTables
  import opened HttpLedger
  import opened LedgerRuns
  import opened LedgerHistory

  /** The retryable operations, named as their tables name them. */
  datatype Operation = IssueOp(key: Key) | SpendOp(key: Key) | CancelOp(key: Key)

  /** What reaches the ledger: an operation, and the fingerprint of the body it comes with. */
  datatype Delivery = Delivery(op: Operation, fingerprint: Id)

  /** What a step delivers, if anything. Both transactions of an issuance do: the second carries the fingerprint of the
      order that was prepared. */
  function Delivers(c: Config, s: System, step: Step): Option<Delivery> {
    match step
    case PrepareStep(_, q, _, _) =>
      Some(Delivery(IssueOp((q.buyer, q.requestId)), c.digest(IssueBody(q.books, q.maxUnits, q.ttl))))
    case CommitStep(worker, _) =>
      if worker in s.pending && WellFormed(s.pending[worker]) then
        var p := s.pending[worker];
        Some(Delivery(IssueOp((p.buyer, p.requestId)), p.fingerprint))
      else None
    case SpendStep(q, _, _, _) => Some(Delivery(SpendOp((q.buyer, q.requestId)), SpendFingerprint(c, q)))
    case CancelManyStep(buyer, requestId, books) =>
      Some(Delivery(CancelOp((buyer, requestId)), CancelFingerprint(c, books)))
    case _ => None
  }

  predicate Accepting(r: Reply) {
    r.IssueReply? || r.SpendReply? || r.CancelManyReply?
  }

  /** The request passes the checks made before the ledger is looked at. */
  predicate Admissible(c: Config, step: Step) {
    match step
    case PrepareStep(_, q, _, _) => ValidIssue(c.catalog, q)
    case SpendStep(q, _, _, _) => ValidSpend(c.catalog, q)
    case CancelManyStep(buyer, requestId, books) => ValidCancel(buyer, requestId, books)
    case _ => true
  }

  /** What is on record of an operation. */
  datatype Record = Record(fingerprint: Id, reply: Reply)

  function Stored(t: Tables, op: Operation): Option<Record> {
    match op
    case IssueOp(key) =>
      if key in t.issues then Some(Record(t.issues[key].fingerprint, IssueReply(t.issues[key].response))) else None
    case SpendOp(key) =>
      if key in t.receipts then Some(Record(t.receipts[key].fingerprint, SpendReply(t.receipts[key].receipt))) else None
    case CancelOp(key) =>
      if key in t.cancellations
      then Some(Record(t.cancellations[key].fingerprint, CancelManyReply(t.cancellations[key].response))) else None
  }

  // ----- One step

  /** An accepted delivery leaves its fingerprint and its reply on record. */
  lemma AcceptedIsStored(c: Config, s: System, step: Step, d: Delivery)
    requires Delivers(c, s, step) == Some(d) && Accepting(Next(c, s, step).1)
    ensures Admissible(c, step)
    ensures Stored(Next(c, s, step).0.t, d.op) == Some(Record(d.fingerprint, Next(c, s, step).1))
  {
    hide BookAllows, BookSpendHolds, AddBooks, AddAllItems, Response, Manifests, CloseAll, Remaining, OwnsAll;
  }

  /** A delivery after the record exists changes no table, and the record alone decides its reply. */
  lemma StoredReplays(c: Config, s: System, step: Step, d: Delivery)
    requires Delivers(c, s, step) == Some(d) && Stored(s.t, d.op).Some?
    ensures Next(c, s, step).0.t == s.t
    ensures Next(c, s, step).1 == (if Admissible(c, step) && d.fingerprint == Stored(s.t, d.op).value.fingerprint
                                   then Stored(s.t, d.op).value.reply else Refused)
  {
    hide BookAllows, BookSpendHolds, AddBooks, AddAllItems, Response, Manifests, CloseAll, Remaining, OwnsAll;
  }

  /** Records are never changed or removed by any step. */
  lemma StoredStays(c: Config, s: System, step: Step, op: Operation)
    requires Stored(s.t, op).Some?
    ensures Stored(Next(c, s, step).0.t, op) == Stored(s.t, op)
  {
    hide BookAllows, BookSpendHolds, AddBooks, AddAllItems, Response, Manifests, CloseAll, Remaining, OwnsAll;
  }

  /** A record appears only by an accepted delivery of its operation. */
  lemma StoredAppears(c: Config, s: System, step: Step, op: Operation)
    requires Stored(s.t, op).None? && Stored(Next(c, s, step).0.t, op).Some?
    ensures Delivers(c, s, step).Some? && Delivers(c, s, step).value.op == op && Accepting(Next(c, s, step).1)
  {
    hide BookAllows, BookSpendHolds, AddBooks, AddAllItems, Response, Manifests, CloseAll, Remaining, OwnsAll;
  }

  /** Whatever is refused or fails changes no table, and neither does a delivery that is not accepted. */
  lemma RefusedChangesNothing(c: Config, s: System, step: Step)
    ensures var (s', reply) := Next(c, s, step);
            reply.Refused? || reply.Failed? || (Delivers(c, s, step).Some? && !Accepting(reply)) ==> s'.t == s.t
  {
    hide BookAllows, BookSpendHolds, AddBooks, AddAllItems, Response, Manifests, CloseAll, Remaining, OwnsAll;
  }

  // ----- Whole runs

  lemma {:induction false} StoredStaysLong(c: Config, s: System, steps: seq<Step>, i: nat, j: nat, op: Operation)
    requires i <= j <= |steps| && Stored(After(c, s, steps, i).t, op).Some?
    ensures Stored(After(c, s, steps, j).t, op) == Stored(After(c, s, steps, i).t, op)
    decreases j
  {
    hide Next, Stored;
    if i < j {
      StoredStaysLong(c, s, steps, i, j - 1, op);
      StoredStays(c, After(c, s, steps, j - 1), steps[j - 1], op);
    }
  }

  /** The delivery that step `i` of a run makes. */
  function DeliveryAt(c: Config, s: System, steps: seq<Step>, i: nat): Option<Delivery>
    requires i < |steps|
  {
    Delivers(c, After(c, s, steps, i), steps[i])
  }

  /** Over any run, once a delivery is accepted every later delivery of that operation leaves the tables alone, and is
      answered by the first one's reply exactly if it is admissible and carries the same fingerprint; any other is
      refused. Deliveries whose responses are lost count like all others. */
  lemma AcceptedOnce(c: Config, s: System, steps: seq<Step>, i: nat, j: nat, d: Delivery, e: Delivery)
    requires i < j < |steps| && e.op == d.op
    requires DeliveryAt(c, s, steps, i) == Some(d) && Accepting(ReplyAt(c, s, steps, i))
    requires DeliveryAt(c, s, steps, j) == Some(e)
    ensures After(c, s, steps, j + 1).t == After(c, s, steps, j).t
    ensures ReplyAt(c, s, steps, j) ==
            if Admissible(c, steps[j]) && e.fingerprint == d.fingerprint then ReplyAt(c, s, steps, i) else Refused
  {
    hide Next, Stored, Delivers, Admissible, Accepting;
    AcceptedIsStored(c, After(c, s, steps, i), steps[i], d);
    StoredStaysLong(c, s, steps, i + 1, j, d.op);
    StoredReplays(c, After(c, s, steps, j), steps[j], e);
  }

  /** Whatever is on record after a run was answered, with that reply and for that fingerprint, by a delivery in it. */
  lemma {:induction false} StoredWasAccepted(c: Config, steps: seq<Step>, n: nat, op: Operation) returns (i: nat)
    requires n <= |steps| && Stored(After(c, System(EMPTY, map[]), steps, n).t, op).Some?
    ensures i < n
    ensures var r := Stored(After(c, System(EMPTY, map[]), steps, n).t, op).value;
            && DeliveryAt(c, System(EMPTY, map[]), steps, i) == Some(Delivery(op, r.fingerprint))
            && ReplyAt(c, System(EMPTY, map[]), steps, i) == r.reply && Accepting(r.reply)
    decreases n
  {
    hide Next, Delivers, Admissible, Accepting;
    var start := System(EMPTY, map[]);
    assert n > 0;
    var s := After(c, start, steps, n - 1);
    if Stored(s.t, op).Some? {
      i := StoredWasAccepted(c, steps, n - 1, op);
      StoredStays(c, s, steps[n - 1], op);
    } else {
      i := n - 1;
      StoredAppears(c, s, steps[n - 1], op);
      AcceptedIsStored(c, s, steps[n - 1], Delivers(c, s, steps[n - 1]).value);
    }
  }

  // ----- Bodies

  /** The body a step was sent with; the second transaction of an issuance is sent with none. */
  function Asks(step: Step): Option<Body> {
    match step
    case PrepareStep(_, q, _, _) => Some(IssueBody(q.books, q.maxUnits, q.ttl))
    case SpendStep(q, _, _, _) => Some(SpendBody(q.book, q.resource, q.content, q.terms, q.maxUnits))
    case CancelManyStep(_, _, books) => Some(CancelBody(Sorted(books)))
    case _ => None
  }

  /** The fingerprint of a delivery is the digest of the body it was sent with: its own, or for the second transaction of
      an issuance that of the step which prepared it. */
  lemma FingerprintOfBody(c: Config, steps: seq<Step>, i: nat, d: Delivery) returns (p: nat)
    requires i < |steps| && DeliveryAt(c, System(EMPTY, map[]), steps, i) == Some(d)
    ensures p <= i && Asks(steps[p]).Some? && d.fingerprint == c.digest(Asks(steps[p]).value)
    ensures if steps[i].CommitStep? then steps[p].PrepareStep? && steps[p].worker == steps[i].worker else p == i
  {
    hide Next, After, Sorted;
    if steps[i].CommitStep? {
      p := EveryPreparationWasOrdered(c, steps, i, steps[i].worker);
    } else {
      p := i;
    }
  }

  /** A different body under an accepted id is refused and changes nothing, unless the digests of both bodies collide. The
      bodies are those the deliveries were sent with, for the second transaction of an issuance as above. */
  lemma OtherBodyRefused(c: Config, steps: seq<Step>, i: nat, j: nat, d: Delivery, e: Delivery) returns (p: nat, q: nat)
    requires i < j < |steps| && e.op == d.op
    requires var start := System(EMPTY, map[]);
             && DeliveryAt(c, start, steps, i) == Some(d) && Accepting(ReplyAt(c, start, steps, i))
             && DeliveryAt(c, start, steps, j) == Some(e)
    ensures p <= i && Asks(steps[p]).Some? && d.fingerprint == c.digest(Asks(steps[p]).value)
    ensures q <= j && Asks(steps[q]).Some? && e.fingerprint == c.digest(Asks(steps[q]).value)
    ensures if steps[i].CommitStep? then steps[p].PrepareStep? && steps[p].worker == steps[i].worker else p == i
    ensures if steps[j].CommitStep? then steps[q].PrepareStep? && steps[q].worker == steps[j].worker else q == j
    ensures After(c, System(EMPTY, map[]), steps, j + 1).t == After(c, System(EMPTY, map[]), steps, j).t
    ensures var b, b' := Asks(steps[p]).value, Asks(steps[q]).value;
            b != b' ==> ReplyAt(c, System(EMPTY, map[]), steps, j).Refused? || c.digest(b) == c.digest(b')
  {
    hide DeliveryAt, ReplyAt, After, Admissible, Accepting, Asks;
    p := FingerprintOfBody(c, steps, i, d);
    q := FingerprintOfBody(c, steps, j, e);
    AcceptedOnce(c, System(EMPTY, map[]), steps, i, j, d, e);
  }

  /** Bodies that differ are told apart exactly as far as the digest tells them apart, and the token is no part of the
      body: a retry that presents another token still recovers the recorded receipt. */
  lemma SpendRetryIgnoresToken(c: Config, t: Tables, q: SpendRequest, clock: int, committedAt: int, receiptId: Id,
                               token: Option<Id>, clock': int, committedAt': int, receiptId': Id)
    requires Spend(c, t, q, clock, committedAt, receiptId).1.Ok?
    ensures var (t', r) := Spend(c, t, q, clock, committedAt, receiptId);
            Spend(c, t', q.(token := token), clock', committedAt', receiptId') == (t', r)
  {
    hide BookAllows, BookSpendHolds;
  }

  lemma ValidCancelOrderFree(buyer: Id, requestId: Id, books: seq<Id>, books': seq<Id>)
    requires multiset(books) == multiset(books')
    ensures ValidCancel(buyer, requestId, books) == ValidCancel(buyer, requestId, books')
  {
    hide IsIdentifier, Sorted, NoDuplicates;
    SortedCanonical(books, books');
    assert |books| == |multiset(books)| == |multiset(books')| == |books'|;
    assert forall b :: b in books <==> b in multiset(books);
    assert forall b :: b in books' <==> b in multiset(books');
  }

  /** A batch cancellation depends only on which books it names, not on their order. */
  lemma CancelManyOrderFree(c: Config, t: Tables, buyer: Id, requestId: Id, books: seq<Id>, books': seq<Id>)
    requires multiset(books) == multiset(books')
    ensures CancelMany(c, t, buyer, requestId, books') == CancelMany(c, t, buyer, requestId, books)
  {
    hide CloseAll, Remaining, OwnsAll, ValidCancel, Sorted, AfterCancelMany;
    SortedCanonical(books, books');
    ValidCancelOrderFree(buyer, requestId, books, books');
  }
}
