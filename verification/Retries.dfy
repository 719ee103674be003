/** The bounded retry loop of the ledger's clients, against any run of the ledger with any number of other clients. */
module Retries {
  import opened Options
  import opened Identifiers
  import opened LedgerTables
  import opened HttpLedger
  import opened LedgerRuns
  import opened ExactlyOnce

  /** What a client sends, the same in every attempt. */
  datatype Request =
    | Issue(order: IssueRequest)
    | Buy(purchase: SpendRequest)
    | CancelAll(buyer: Id, requestId: Id, books: seq<Id>)

  function Sent(c: Config, r: Request): Delivery {
    match r
    case Issue(q) => Delivery(IssueOp((q.buyer, q.requestId)), c.digest(IssueBody(q.books, q.maxUnits, q.ttl)))
    case Buy(q) => Delivery(SpendOp((q.buyer, q.requestId)), SpendFingerprint(c, q))
    case CancelAll(buyer, requestId, books) => Delivery(CancelOp((buyer, requestId)), CancelFingerprint(c, books))
  }

  predicate Receives(step: Step, r: Request) {
    match r
    case Issue(q) => step.PrepareStep? && step.order == q
    case Buy(q) => step.SpendStep? && step.purchase == q
    case CancelAll(buyer, requestId, books) => step == CancelManyStep(buyer, requestId, books)
  }

  /** What becomes of one attempt: its request is lost, the service is too busy to serve it, or the ledger takes it in one
      step or, for an issuance, in two, and the response arrives or is lost. */
  datatype Attempt =
    | RequestLost
    | Unavailable
    | Delivered(first: nat, last: nat, answered: bool)

  /** A delivered attempt refers to steps of the run. */
  predicate Fits(steps: seq<Step>, a: Attempt) {
    a.Delivered? ==> a.first <= a.last < |steps|
  }

  predicate OfWorker(step: Step, worker: nat) {
    (step.PrepareStep? || step.CommitStep?) && step.worker == worker
  }

  /** Steps `first` and `last` of the run serve this request. Between the two transactions of an issuance its worker does
      nothing else, but everyone else may. */
  predicate Serves(c: Config, s: System, steps: seq<Step>, r: Request, a: Attempt)
    requires a.Delivered? && Fits(steps, a)
  {
    && Receives(steps[a.first], r)
    && (a.first < a.last ==>
          && r.Issue? && steps[a.last].CommitStep? && steps[a.last].worker == steps[a.first].worker
          && forall k | a.first < k < a.last :: !OfWorker(steps[k], steps[a.first].worker))
    && (a.answered && ReplyAt(c, s, steps, a.first).Done? ==> a.first < a.last)
  }

  /** The step that decides the attempt. */
  function Decides(c: Config, s: System, steps: seq<Step>, a: Attempt): nat
    requires a.Delivered? && Fits(steps, a)
  {
    if ReplyAt(c, s, steps, a.first).Done? then a.last else a.first
  }

  function ReplyTo(c: Config, s: System, steps: seq<Step>, a: Attempt): Reply
    requires a.Delivered? && Fits(steps, a)
  {
    ReplyAt(c, s, steps, Decides(c, s, steps, a))
  }

  // ----- Each attempt delivers the request

  lemma {:induction false} PendingKept(c: Config, s: System, steps: seq<Step>, i: nat, j: nat, worker: nat)
    requires i <= j <= |steps| && worker in After(c, s, steps, i).pending
    requires forall k | i <= k < j :: !OfWorker(steps[k], worker)
    ensures worker in After(c, s, steps, j).pending
    ensures After(c, s, steps, j).pending[worker] == After(c, s, steps, i).pending[worker]
    decreases j
  {
    hide PrepareIssue, CommitIssue, Spend, Cancel, CancelMany, Seed, Revoke;
    if i < j {
      PendingKept(c, s, steps, i, j - 1, worker);
    }
  }

  /** A first transaction that is not answered leaves its order pending. */
  lemma PreparedIsPending(c: Config, s: System, step: Step)
    requires step.PrepareStep? && Next(c, s, step).1.Done?
    ensures Next(c, s, step).0.t == s.t && step.worker in Next(c, s, step).0.pending
    ensures Admissible(c, step) && WellFormed(Next(c, s, step).0.pending[step.worker])
    ensures var q, p := step.order, Next(c, s, step).0.pending[step.worker];
            p.buyer == q.buyer && p.requestId == q.requestId && p.fingerprint == c.digest(IssueBody(q.books, q.maxUnits, q.ttl))
  {
  }

  /** A delivery is accepted, refused or failed, except for an order that now waits to be signed. */
  lemma DeliveryIsAnswered(c: Config, s: System, step: Step)
    requires Delivers(c, s, step).Some?
    ensures var reply := Next(c, s, step).1;
            if reply.Done? then step.PrepareStep? else Accepting(reply) || reply.Refused? || reply.Failed?
  {
    hide PrepareIssue, CommitIssue, Spend, CancelMany;
  }

  /** Both steps of an attempt deliver the same request, and an accepted one shows it admissible. */
  lemma ServedIsDelivered(c: Config, s: System, steps: seq<Step>, r: Request, a: Attempt)
    requires a.Delivered? && Fits(steps, a) && Serves(c, s, steps, r, a)
    ensures DeliveryAt(c, s, steps, a.first) == Some(Sent(c, r))
    ensures DeliveryAt(c, s, steps, Decides(c, s, steps, a)) == Some(Sent(c, r))
    ensures Accepting(ReplyTo(c, s, steps, a)) ==> Admissible(c, steps[a.first])
  {
    hide Next, Accepting, Admissible;
    var before := After(c, s, steps, a.first);
    DeliveryIsAnswered(c, before, steps[a.first]);
    if ReplyAt(c, s, steps, a.first).Done? {
      PreparedIsPending(c, before, steps[a.first]);
      if a.first < a.last {
        PendingKept(c, s, steps, a.first + 1, a.last, steps[a.first].worker);
      }
    } else if Accepting(ReplyTo(c, s, steps, a)) {
      AcceptedIsStored(c, before, steps[a.first], Sent(c, r));
    }
  }

  /** Of two attempts the one that is decided later repeats the reply of an accepted one, and changes nothing. */
  lemma LaterAttempt(c: Config, s: System, steps: seq<Step>, r: Request, a: Attempt, b: Attempt)
    requires a.Delivered? && Fits(steps, a) && Serves(c, s, steps, r, a) && b.Delivered? && Fits(steps, b) && Serves(c, s, steps, r, b)
    requires Decides(c, s, steps, a) < Decides(c, s, steps, b) && Accepting(ReplyTo(c, s, steps, a))
    ensures ReplyTo(c, s, steps, b) == ReplyTo(c, s, steps, a)
    ensures After(c, s, steps, Decides(c, s, steps, b) + 1).t == After(c, s, steps, Decides(c, s, steps, b)).t
  {
    hide After, ReplyAt, DeliveryAt, Accepting, Sent;
    ServedIsDelivered(c, s, steps, r, a);
    ServedIsDelivered(c, s, steps, r, b);
    AcceptedOnce(c, s, steps, Decides(c, s, steps, a), Decides(c, s, steps, b), Sent(c, r), Sent(c, r));
  }

  /** The step changes the tables. */
  predicate Effective(c: Config, s: System, steps: seq<Step>, k: nat)
    requires k < |steps|
  {
    After(c, s, steps, k + 1).t != After(c, s, steps, k).t
  }

  /** However many attempts of one request reach the ledger, at most one step of them all changes the tables. */
  lemma OneEffect(c: Config, s: System, steps: seq<Step>, r: Request, a: Attempt, b: Attempt, i: nat, j: nat)
    requires a.Delivered? && Fits(steps, a) && Serves(c, s, steps, r, a) && b.Delivered? && Fits(steps, b) && Serves(c, s, steps, r, b)
    requires i == a.first || i == Decides(c, s, steps, a)
    requires j == b.first || j == Decides(c, s, steps, b)
    requires i < j && Effective(c, s, steps, i)
    ensures !Effective(c, s, steps, j)
  {
    hide Next, Accepting, Sent, Delivers;
    ServedIsDelivered(c, s, steps, r, a);
    ServedIsDelivered(c, s, steps, r, b);
    RefusedChangesNothing(c, After(c, s, steps, i), steps[i]);
    AcceptedOnce(c, s, steps, i, j, Sent(c, r), Sent(c, r));
  }

  // ----- The loop

  datatype Outcome = Accepted(reply: Reply) | Rejected | NoConnection | Busy | Exhausted

  predicate Answers(a: Attempt) {
    a.Delivered? && a.answered
  }

  /** The client hears that the service could not serve the attempt: it is busy, or its transaction failed. */
  predicate HearsBusy(c: Config, s: System, steps: seq<Step>, a: Attempt)
    requires Fits(steps, a)
  {
    a.Unavailable? || (Answers(a) && ReplyTo(c, s, steps, a).Failed?)
  }

  /** The client hears nothing. */
  predicate HearsNothing(a: Attempt) {
    a.RequestLost? || (a.Delivered? && !a.answered)
  }

  /** Send the same request until it is answered for good or the attempts are used up. The outcome is that of the last
      attempt sent. An accepted reply is the one on record when the run ends, and that of every attempt that was accepted,
      heard or not; after a rejection nothing that was decided before it had been accepted. */
  method Rpc(c: Config, s: System, steps: seq<Step>, r: Request, attempts: seq<Attempt>)
    returns (outcome: Outcome, sent: nat)
    requires forall k | 0 <= k < |attempts| :: Fits(steps, attempts[k])
    requires forall k | 0 <= k < |attempts| && attempts[k].Delivered? :: Serves(c, s, steps, r, attempts[k])
    ensures sent <= |attempts| && (outcome.Exhausted? <==> attempts == []) && (sent == 0 <==> attempts == [])
    ensures forall k | 0 <= k < sent - 1 :: HearsBusy(c, s, steps, attempts[k]) || HearsNothing(attempts[k])
    ensures match outcome
            case Accepted(reply) =>
              Answers(attempts[sent - 1]) && reply == ReplyTo(c, s, steps, attempts[sent - 1]) && Accepting(reply)
            case Rejected => Answers(attempts[sent - 1]) && ReplyTo(c, s, steps, attempts[sent - 1]).Refused?
            case Busy => sent == |attempts| && HearsBusy(c, s, steps, attempts[sent - 1])
            case NoConnection => sent == |attempts| && HearsNothing(attempts[sent - 1])
            case Exhausted => true
    ensures outcome.Accepted? ==>
              && Stored(After(c, s, steps, |steps|).t, Sent(c, r).op) == Some(Record(Sent(c, r).fingerprint, outcome.reply))
              && forall k | 0 <= k < |attempts| && attempts[k].Delivered? && Accepting(ReplyTo(c, s, steps, attempts[k])) ::
                   ReplyTo(c, s, steps, attempts[k]) == outcome.reply
    ensures outcome.Rejected? ==>
              forall k | 0 <= k < |attempts| && attempts[k].Delivered? && Accepting(ReplyTo(c, s, steps, attempts[k])) ::
                Decides(c, s, steps, attempts[k]) > Decides(c, s, steps, attempts[sent - 1])
  {
    hide Serves, ReplyTo, Decides, Stored, After, Sent;
    sent := 0;
    while sent < |attempts|
      invariant sent <= |attempts| && (sent < |attempts| || attempts == [])
      invariant forall k | 0 <= k < sent :: HearsBusy(c, s, steps, attempts[k]) || HearsNothing(attempts[k])
    {
      var a := attempts[sent];
      sent := sent + 1;
      match a
      case RequestLost =>
        if sent == |attempts| {
          return NoConnection, sent;
        }
      case Unavailable =>
        if sent == |attempts| {
          return Busy, sent;
        }
      case Delivered(_, _, answered) =>
        if !answered {
          if sent == |attempts| {
            return NoConnection, sent;
          }
        } else {
          var reply := ReplyTo(c, s, steps, a);
          if !reply.Failed? {
            AnswerHolds(c, s, steps, r, attempts, sent - 1);
            return if Accepting(reply) then Accepted(reply) else Rejected, sent;
          }
          if sent == |attempts| {
            return Busy, sent;
          }
        }
    }
    return Exhausted, sent;
  }

  /** What one answer tells about all attempts. */
  lemma AnswerHolds(c: Config, s: System, steps: seq<Step>, r: Request, attempts: seq<Attempt>, i: nat)
    requires forall k | 0 <= k < |attempts| :: Fits(steps, attempts[k])
    requires forall k | 0 <= k < |attempts| && attempts[k].Delivered? :: Serves(c, s, steps, r, attempts[k])
    requires i < |attempts| && Answers(attempts[i]) && !ReplyTo(c, s, steps, attempts[i]).Failed?
    ensures var reply := ReplyTo(c, s, steps, attempts[i]);
            && (Accepting(reply) || reply.Refused?)
            && (forall k | 0 <= k < |attempts| && attempts[k].Delivered? && Accepting(ReplyTo(c, s, steps, attempts[k])) ::
                  if Accepting(reply) then ReplyTo(c, s, steps, attempts[k]) == reply
                  else Decides(c, s, steps, attempts[k]) > Decides(c, s, steps, attempts[i]))
            && (Accepting(reply) ==>
                  Stored(After(c, s, steps, |steps|).t, Sent(c, r).op) == Some(Record(Sent(c, r).fingerprint, reply)))
  {
    hide Next, Stored, Sent, Accepting, Delivers, Admissible;
    var a := attempts[i];
    var reply, at := ReplyTo(c, s, steps, a), Decides(c, s, steps, a);
    ServedIsDelivered(c, s, steps, r, a);
    DeliveryIsAnswered(c, After(c, s, steps, at), steps[at]);
    forall k | 0 <= k < |attempts| && attempts[k].Delivered? && Accepting(ReplyTo(c, s, steps, attempts[k]))
      ensures if Accepting(reply) then ReplyTo(c, s, steps, attempts[k]) == reply
              else Decides(c, s, steps, attempts[k]) > at
    {
      if Decides(c, s, steps, attempts[k]) < at {
        LaterAttempt(c, s, steps, r, attempts[k], a);
      } else if at < Decides(c, s, steps, attempts[k]) && Accepting(reply) {
        LaterAttempt(c, s, steps, r, a, attempts[k]);
      }
    }
    if Accepting(reply) {
      AcceptedIsStored(c, After(c, s, steps, at), steps[at], Sent(c, r));
      StoredStaysLong(c, s, steps, at + 1, |steps|, Sent(c, r).op);
    }
  }
}
