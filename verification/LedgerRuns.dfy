/** Whole runs of the online ledger: any interleaving of transactions, with preparations pending between the two
    transactions of an issuance. */
module LedgerRuns {
  import opened Options
  import opened Identifiers
  import opened LedgerTables
  import opened HttpLedger
  import opened FiniteSums
  import opened LedgerInvariant

  /** The database and the issuances that are being signed. */
  datatype System = System(t: Tables, pending: map<nat, Prepared>)

  datatype Step =
    | SeedStep(buyer: Id, units: int)
    | PrepareStep(worker: nat, order: IssueRequest, now: int, minted: Option<Minted>)
    | CommitStep(worker: nat, clock: int)
    | SpendStep(purchase: SpendRequest, clock: int, committedAt: int, receiptId: Id)
    | CancelStep(buyer: Id, book: Id)
    | CancelManyStep(buyer: Id, requestId: Id, books: seq<Id>)
    | RevokeStep(kid: Id)

  datatype Reply =
    | Done
    | Refused
    | Failed
    | IssueReply(issued: seq<Issued>)
    | SpendReply(receipt: Receipt)
    | CancelReply(units: int)
    | CancelManyReply(released: Released)

  function IssueAnswer(r: Result<seq<Issued>>): Reply {
    match r
    case Ok(issued) => IssueReply(issued)
    case Denied => Refused
    case Raised => Failed
  }

  function Next(c: Config, s: System, step: Step): (System, Reply) {
    match step
    case SeedStep(buyer, units) =>
      var (t, r) := Seed(s.t, buyer, units);
      (s.(t := t), if r.Ok? then Done else if r.Denied? then Refused else Failed)
    case PrepareStep(worker, q, now, minted) =>
      (match PrepareIssue(c, s.t, q, now, minted)
       case Ok(Replay(response)) => (s, IssueReply(response))
       case Ok(Ready(p)) => (s.(pending := s.pending[worker := p]), Done)
       case Denied => (s, Refused)
       case Raised => (s, Failed))
    case CommitStep(worker, clock) =>
      if worker !in s.pending || !WellFormed(s.pending[worker]) then (s, Done)
      else
        var (t, r) := CommitIssue(s.t, s.pending[worker], clock);
        (System(t, s.pending - {worker}), IssueAnswer(r))
    case SpendStep(q, clock, committedAt, receiptId) =>
      var (t, r) := Spend(c, s.t, q, clock, committedAt, receiptId);
      (s.(t := t), if r.Ok? then SpendReply(r.value) else if r.Denied? then Refused else Failed)
    case CancelStep(buyer, book) =>
      var (t, r) := Cancel(s.t, buyer, book);
      (s.(t := t), if r.Ok? then CancelReply(r.value) else if r.Denied? then Refused else Failed)
    case CancelManyStep(buyer, requestId, books) =>
      var (t, r) := CancelMany(c, s.t, buyer, requestId, books);
      (s.(t := t), if r.Ok? then CancelManyReply(r.value) else if r.Denied? then Refused else Failed)
    case RevokeStep(kid) =>
      (s.(t := Revoke(s.t, kid)), Done)
  }

  /** The system after the first `n` steps. */
  function After(c: Config, s: System, steps: seq<Step>, n: nat): System
    requires n <= |steps|
  {
    if n == 0 then s else Next(c, After(c, s, steps, n - 1), steps[n - 1]).0
  }

  function ReplyAt(c: Config, s: System, steps: seq<Step>, n: nat): Reply
    requires n < |steps|
  {
    Next(c, After(c, s, steps, n), steps[n]).1
  }

  // ----- Conservation over every run

  ghost predicate PendingHold(pending: map<nat, Prepared>) {
    forall w | w in pending :: PreparedHolds(pending[w])
  }

  ghost predicate SystemHolds(s: System) {
    Inv(s.t) && Indexed(s.t.receipts, s.t.redeemed) && PendingHold(s.pending)
  }

  lemma EmptyHolds()
    ensures SystemHolds(System(EMPTY, map[]))
  {
  }

  lemma IndexKept(c: Config, t: Tables, q: SpendRequest, clock: int, committedAt: int, receiptId: Id)
    requires Indexed(t.receipts, t.redeemed)
    ensures Indexed(Spend(c, t, q, clock, committedAt, receiptId).0.receipts, Spend(c, t, q, clock, committedAt, receiptId).0.redeemed)
  {
    var (t', r) := Spend(c, t, q, clock, committedAt, receiptId);
    var key := (q.buyer, q.requestId);
    hide Indexed;
    if key !in t.receipts && r.Ok? {
      var row := t'.receipts[key];
      IndexedInsert(t.receipts, t.redeemed, key, row);
      assert t'.redeemed == t.redeemed + IndexEntry(row.receipt);
    }
  }

  /** Every transaction, in whatever order it comes, keeps the books balanced. */
  lemma NextHolds(c: Config, s: System, step: Step)
    requires SystemHolds(s) && CatalogHolds(c)
    ensures SystemHolds(Next(c, s, step).0)
    ensures Next(c, s, step).1.Failed? ==>
              || step.SeedStep?
              || (step.PrepareStep? && PrepareIssue(c, s.t, step.order, step.now, step.minted).Raised?)
              || (step.CommitStep? && step.worker in s.pending && IdsClash(s.t, s.pending[step.worker]))
  {
    hide Inv, Indexed, Seed, Spend, Cancel, CancelMany, Revoke, CommitIssue, PrepareIssue, PreparedHolds, IdsClash;
    match step
    case SeedStep(buyer, units) =>
      SeedKeepsInv(s.t, buyer, units);
      SeedKeepsReceipts(s.t, buyer, units);
    case PrepareStep(worker, q, now, minted) =>
      PreparationHolds(c, s.t, q, now, minted);
    case CommitStep(worker, clock) =>
      if worker in s.pending && WellFormed(s.pending[worker]) {
        CommitIssueKeepsInv(s.t, s.pending[worker], clock);
        CommitKeepsReceipts(s.t, s.pending[worker], clock);
      }
    case SpendStep(q, clock, committedAt, receiptId) =>
      SpendKeepsInv(c, s.t, q, clock, committedAt, receiptId);
      IndexKept(c, s.t, q, clock, committedAt, receiptId);
    case CancelStep(buyer, book) =>
      CancelKeepsInv(s.t, buyer, book);
      CancelKeepsReceipts(s.t, buyer, book);
    case CancelManyStep(buyer, requestId, books) =>
      CancelManyKeepsInv(c, s.t, buyer, requestId, books);
      CancelManyKeepsReceipts(c, s.t, buyer, requestId, books);
    case RevokeStep(kid) =>
      RevokeKeepsInv(s.t, kid);
      RevokeKeepsReceipts(s.t, kid);
  }

  lemma SeedKeepsReceipts(t: Tables, buyer: Id, units: int)
    ensures Seed(t, buyer, units).0.receipts == t.receipts && Seed(t, buyer, units).0.redeemed == t.redeemed
  {
  }

  lemma CommitKeepsReceipts(t: Tables, p: Prepared, clock: int)
    requires WellFormed(p)
    ensures CommitIssue(t, p, clock).0.receipts == t.receipts && CommitIssue(t, p, clock).0.redeemed == t.redeemed
  {
  }

  lemma CancelKeepsReceipts(t: Tables, buyer: Id, book: Id)
    ensures Cancel(t, buyer, book).0.receipts == t.receipts && Cancel(t, buyer, book).0.redeemed == t.redeemed
  {
  }

  lemma CancelManyKeepsReceipts(c: Config, t: Tables, buyer: Id, requestId: Id, books: seq<Id>)
    ensures CancelMany(c, t, buyer, requestId, books).0.receipts == t.receipts
    ensures CancelMany(c, t, buyer, requestId, books).0.redeemed == t.redeemed
  {
  }

  lemma RevokeKeepsReceipts(t: Tables, kid: Id)
    ensures Revoke(t, kid).receipts == t.receipts && Revoke(t, kid).redeemed == t.redeemed
  {
  }

  /** In every reachable state the ledger conserves. */
  lemma {:induction false} RunsConserve(c: Config, s: System, steps: seq<Step>, n: nat)
    requires SystemHolds(s) && CatalogHolds(c) && n <= |steps|
    ensures SystemHolds(After(c, s, steps, n))
  {
    hide SystemHolds, Next;
    if n > 0 {
      RunsConserve(c, s, steps, n - 1);
      NextHolds(c, After(c, s, steps, n - 1), steps[n - 1]);
    }
  }

  // ----- The audit

  function SpentColumn(accounts: map<Id, Account>): Id -> int {
    b => if b in accounts then accounts[b].spent else 0
  }

  /** Everything the audit compares: each buyer's row against books and receipts, and the publisher against both. */
  ghost predicate AuditPasses(t: Tables) {
    && (forall b | b in t.accounts ::
          var a := t.accounts[b];
          a.reserved == Held(t.books, b) && a.spent == Spent(t.receipts, b)
          && a.initial == a.available + Held(t.books, b) + Spent(t.receipts, b))
    && t.accrued == AllReceipts(t.receipts)
    && Total(t.accounts.Keys, SpentColumn(t.accounts)) == AllReceipts(t.receipts)
  }

  function Buyer(k: Key): Id {
    k.0
  }

  lemma GroupIsSpent(receipts: map<Key, ReceiptRow>, b: Id)
    ensures GroupTotals(receipts.Keys, ReceiptUnits(receipts), Buyer)(b) == Spent(receipts, b)
  {
    TotalSame(receipts.Keys, InGroup(ReceiptUnits(receipts), Buyer, b), SpentBy(receipts, b));
  }

  lemma SpentByBuyer(accounts: map<Id, Account>, books: map<Id, Book>, receipts: map<Key, ReceiptRow>)
    requires AccountsHold(accounts, books, receipts) && forall k | k in receipts :: k.0 in accounts
    ensures Total(accounts.Keys, SpentColumn(accounts)) == AllReceipts(receipts)
  {
    hide Held, Spent, Total, GroupTotals;
    var totals := GroupTotals(receipts.Keys, ReceiptUnits(receipts), Buyer);
    TotalByGroup(receipts.Keys, ReceiptUnits(receipts), Buyer, accounts.Keys);
    forall b | b in accounts.Keys
      ensures totals(b) == SpentColumn(accounts)(b)
    {
      GroupIsSpent(receipts, b);
      assert accounts[b].spent == Spent(receipts, b);
    }
    TotalSame(accounts.Keys, totals, SpentColumn(accounts));
  }

  /** The audit of every reachable state passes. */
  lemma AuditNeverFails(c: Config, steps: seq<Step>)
    requires CatalogHolds(c)
    ensures AuditPasses(After(c, System(EMPTY, map[]), steps, |steps|).t)
  {
    hide Held, Spent, AllReceipts, Owed, BooksHold, Next, After;
    var s := System(EMPTY, map[]);
    EmptyHolds();
    RunsConserve(c, s, steps, |steps|);
    var t := After(c, s, steps, |steps|).t;
    SpentByBuyer(t.accounts, t.books, t.receipts);
  }

  /** No item of a book is ever paid for twice. */
  lemma EachItemPaidOnce(c: Config, steps: seq<Step>, k: Key, k': Key)
    requires CatalogHolds(c)
    requires var receipts := After(c, System(EMPTY, map[]), steps, |steps|).t.receipts;
             k in receipts && k' in receipts && SameItem(receipts[k].receipt, receipts[k'].receipt)
    ensures k == k'
  {
    hide Inv, Next, After;
    EmptyHolds();
    RunsConserve(c, System(EMPTY, map[]), steps, |steps|);
  }
}
