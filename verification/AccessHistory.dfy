/** Where the rows of the access-book engine come from: every admission was verified, every book goes back to an order. */
module AccessHistory {
  import opened Options
  import opened Identifiers
  import opened AccessBook
  import opened AccessInvariant
  import opened AccessRuns
  import L = LedgerTables
  import H = HttpLedger

  // ----- Admission

  /** Whatever book is admitted, its stored token verifies against its stored claims. */
  predicate AdmissionsVerified(c: Config, books: map<Id, Book>) {
    forall id | id in books && books[id].active :: c.verifies(books[id].token, books[id].claims)
  }

  lemma IssueVerifies(c: Config, t: Tables, q: Order, now: int, minted: Minted)
    requires AdmissionsVerified(c, t.books)
    ensures AdmissionsVerified(c, Issue(c, t, q, now, minted).0.books)
  {
    hide Issue, OnSale, L.Units, Lines, Deadlines, Earliest, L.AddItems, NoDuplicates, OrderHash, Sorted;
    IssueWrites(c, t, q, now, minted);
  }

  lemma ActivateVerifies(c: Config, t: Tables, q: Admission, now: int, verifiedAt: int)
    requires AdmissionsVerified(c, t.books)
    ensures AdmissionsVerified(c, Activate(c, t, q, now, verifiedAt).0.books)
  {
    hide IsName, Within;
  }

  lemma RedeemVerifies(c: Config, t: Tables, q: Use, now: int, receiptId: Id)
    requires AdmissionsVerified(c, t.books)
    ensures AdmissionsVerified(c, Redeem(c, t, q, now, receiptId).0.books)
  {
    hide ValidUse, UseFits;
  }

  lemma BuyVerifies(c: Config, t: Tables, q: Purchase, d: Draws)
    requires AdmissionsVerified(c, t.books)
    ensures AdmissionsVerified(c, Buy(c, t, q, d).0.books)
  {
    hide Issue, Activate, Redeem, AdmissionsVerified;
    var (t1, issued) := Issue(c, t, OrderOf(q), d.issuedAt, d.minted);
    IssueVerifies(c, t, OrderOf(q), d.issuedAt, d.minted);
    if issued.Ok? {
      var (book, token) := issued.value;
      ActivateVerifies(c, t1, Admission(book, token, q.buyer, q.publisher), d.admittedAt, d.verifiedAt);
      RedeemVerifies(c, Admit(c, t1, q, book, token, d).0, UseOf(q, book), d.redeemedAt, d.receiptId);
    }
  }

  lemma ReleaseVerifies(c: Config, t: Tables, book: Id, buyer: Id)
    requires AdmissionsVerified(c, t.books)
    ensures AdmissionsVerified(c, ReleaseBook(t, book, buyer).0.books)
  {
    hide IsName, H.ReleaseHolds, H.WithRelease;
  }

  lemma NextVerifies(c: Config, t: Tables, step: Step)
    requires AdmissionsVerified(c, t.books)
    ensures AdmissionsVerified(c, Next(c, t, step).0.books)
  {
    hide AdmissionsVerified, Issue, Activate, Redeem, ReleaseBook, Buy, IsName, ValidOffer;
    match step
    case IssueStep(q, now, minted) => IssueVerifies(c, t, q, now, minted);
    case ActivateStep(q, now, verifiedAt) => ActivateVerifies(c, t, q, now, verifiedAt);
    case RedeemStep(q, now, receiptId) => RedeemVerifies(c, t, q, now, receiptId);
    case ReleaseStep(book, buyer) => ReleaseVerifies(c, t, book, buyer);
    case BuyStep(q, d) => BuyVerifies(c, t, q, d);
    case _ =>
  }

  /** Over every run, an admitted book carries a token that verified against the stored claims. */
  lemma {:induction false} EveryAdmissionWasVerified(c: Config, steps: seq<Step>, n: nat)
    requires n <= |steps|
    ensures AdmissionsVerified(c, After(c, steps, n).books)
  {
    hide Next;
    if n > 0 {
      hide AdmissionsVerified;
      EveryAdmissionWasVerified(c, steps, n - 1);
      NextVerifies(c, After(c, steps, n - 1), steps[n - 1]);
    }
  }

  // ----- Orders

  /** The order a step carries, with its clock reading and what is minted for it. */
  function OrderIn(step: Step): Option<(Order, int, Minted)> {
    match step
    case IssueStep(q, now, minted) => Some((q, now, minted))
    case BuyStep(q, d) => Some((OrderOf(q), d.issuedAt, d.minted))
    case _ => None
  }

  /** The order may be filled now: key live, everything on sale, price within budget and balance. */
  predicate Fillable(t: Tables, q: Order, now: int, minted: Minted) {
    && ValidOrder(q) && !t.revoked && Reads(now) && OrderAccepted(t, q, now, minted)
    && L.Units(Lines(t.offers, q.publisher, Sorted(q.resources))) <= q.maxUnits
    && L.Units(Lines(t.offers, q.publisher, Sorted(q.resources))) <= t.accounts[q.buyer].available
  }

  lemma NewBookWasFillable(c: Config, t: Tables, q: Order, now: int, minted: Minted, id: Id)
    requires id !in t.books && id in Issue(c, t, q, now, minted).0.books
    ensures id == minted.book && Fillable(t, q, now, minted)
    ensures Issue(c, t, q, now, minted).0.books[id] == NewBook(c, t.offers, q, now, id, minted.token.value)
  {
    hide ValidOrder, L.Units, Lines, NoDuplicates, NewBook, L.AddItems;
    IssueWrites(c, t, q, now, minted);
  }

  lemma BoughtBookWasFillable(c: Config, t: Tables, q: Purchase, d: Draws, id: Id)
    requires id !in t.books && id in Buy(c, t, q, d).0.books
    ensures id == d.minted.book && Fillable(t, OrderOf(q), d.issuedAt, d.minted)
    ensures SameBook(NewBook(c, t.offers, OrderOf(q), d.issuedAt, id, d.minted.token.value), Buy(c, t, q, d).0.books[id])
  {
    hide Issue, Fillable, NewBook, SameBook, Redeem, Activate;
    var (t1, issued) := Issue(c, t, OrderOf(q), d.issuedAt, d.minted);
    assert issued.Ok?;
    var (book, token) := issued.value;
    SameKeys(c, t1, q, book, token, d);
    NewBookWasFillable(c, t, OrderOf(q), d.issuedAt, d.minted, id);
    AfterIssueExtends(c, t1, q, book, token, d);
  }

  /** The book that this order wrote, up to the columns that later operations move. */
  predicate Filled(c: Config, t: Tables, order: (Order, int, Minted), id: Id, b: Book) {
    var (q, now, minted) := order;
    id == minted.book && Fillable(t, q, now, minted) && SameBook(NewBook(c, t.offers, q, now, id, minted.token.value), b)
  }

  lemma NextFills(c: Config, t: Tables, step: Step, id: Id)
    requires id !in t.books && id in Next(c, t, step).0.books
    ensures OrderIn(step).Some? && Filled(c, t, OrderIn(step).value, id, Next(c, t, step).0.books[id])
  {
    hide Issue, Buy, Fillable, NewBook, IsName, ValidOffer, Within, ValidUse, UseFits;
    if step.IssueStep? {
      NewBookWasFillable(c, t, step.order, step.now, step.minted, id);
    } else if step.BuyStep? {
      BoughtBookWasFillable(c, t, step.purchase, step.draws, id);
    }
  }

  lemma FilledStays(c: Config, t: Tables, order: (Order, int, Minted), id: Id, b: Book, b': Book)
    requires Filled(c, t, order, id, b) && SameBook(b, b')
    ensures Filled(c, t, order, id, b')
  {
    hide Fillable, NewBook;
  }

  /** Every book of every run goes back to an order that could be filled when it was: buyer, publisher, request hash, claims,
      token and validity are still those written then. */
  lemma {:induction false} EveryBookWasOrdered(c: Config, steps: seq<Step>, n: nat, id: Id) returns (i: nat)
    requires n <= |steps| && id in After(c, steps, n).books
    ensures i < n && OrderIn(steps[i]).Some?
    ensures Filled(c, After(c, steps, i), OrderIn(steps[i]).value, id, After(c, steps, n).books[id])
    decreases n
  {
    hide Next, Inv, Filled, SameBook;
    assert n > 0;
    var t := After(c, steps, n - 1);
    RunsKeep(c, steps, n - 1);
    if id in t.books {
      i := EveryBookWasOrdered(c, steps, n - 1, id);
      NextExtends(c, t, steps[n - 1]);
      FilledStays(c, After(c, steps, i), OrderIn(steps[i]).value, id, t.books[id], After(c, steps, n).books[id]);
    } else {
      i := n - 1;
      NextFills(c, t, steps[n - 1], id);
    }
  }
}
