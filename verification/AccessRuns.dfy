/** Whole runs of the access-book engine: conservation, the offer behind every receipt, and exact retries. */
module AccessRuns {
  import opened Options
  import opened Identifiers
  import opened AccessBook
  import opened AccessInvariant
  import opened Savepoints
  import L = LedgerTables
  import H = HttpLedger
  import I = LedgerInvariant

  datatype Step =
    | SeedStep(buyer: Id, units: int)
    | SetOfferStep(publisher: Id, resource: Id, offer: Offer)
    | IssueStep(order: Order, now: int, minted: Minted)
    | ActivateStep(admission: Admission, now: int, verifiedAt: int)
    | RedeemStep(use: Use, now: int, receiptId: Id)
    | ReleaseStep(book: Id, buyer: Id)
    | RevokeStep
    | BuyStep(purchase: Purchase, draws: Draws)

  /** One operation, and whether it succeeds. */
  function Next(c: Config, t: Tables, step: Step): (Tables, bool) {
    match step
    case SeedStep(buyer, units) => var (t', r) := Seed(t, buyer, units); (t', r.Ok?)
    case SetOfferStep(publisher, resource, o) => var (t', r) := SetOffer(t, publisher, resource, o); (t', r.Ok?)
    case IssueStep(q, now, minted) => var (t', r) := Issue(c, t, q, now, minted); (t', r.Ok?)
    case ActivateStep(q, now, verifiedAt) => var (t', r) := Activate(c, t, q, now, verifiedAt); (t', r.Ok?)
    case RedeemStep(q, now, receiptId) => var (t', r) := Redeem(c, t, q, now, receiptId); (t', r.Ok?)
    case ReleaseStep(book, buyer) => var (t', r) := ReleaseBook(t, book, buyer); (t', r.Ok?)
    case RevokeStep => (RevokeKey(t), true)
    case BuyStep(q, d) => var (t', r) := Buy(c, t, q, d); (t', r.Ok?)
  }

  function After(c: Config, steps: seq<Step>, n: nat): Tables
    requires n <= |steps|
  {
    if n == 0 then EMPTY else Next(c, After(c, steps, n - 1), steps[n - 1]).0
  }

  lemma NextKeeps(c: Config, t: Tables, step: Step)
    requires Inv(t)
    ensures Inv(Next(c, t, step).0)
  {
    hide Inv, Seed, SetOffer, Issue, Activate, Redeem, ReleaseBook, RevokeKey, Buy;
    match step
    case SeedStep(buyer, units) => SeedKeeps(t, buyer, units);
    case SetOfferStep(publisher, resource, o) => SetOfferKeeps(t, publisher, resource, o);
    case IssueStep(q, now, minted) => IssueKeeps(c, t, q, now, minted);
    case ActivateStep(q, now, verifiedAt) => ActivateKeeps(c, t, q, now, verifiedAt);
    case RedeemStep(q, now, receiptId) => RedeemKeeps(c, t, q, now, receiptId);
    case ReleaseStep(book, buyer) => ReleaseKeeps(t, book, buyer);
    case RevokeStep => RevokeKeeps(t);
    case BuyStep(q, d) => BuyKeeps(c, t, q, d);
  }

  lemma {:induction false} RunsKeep(c: Config, steps: seq<Step>, n: nat)
    requires n <= |steps|
    ensures Inv(After(c, steps, n))
  {
    hide Inv, Next;
    if n == 0 {
      EmptyHolds();
    } else {
      RunsKeep(c, steps, n - 1);
      NextKeeps(c, After(c, steps, n - 1), steps[n - 1]);
    }
  }

  /** The audit of every reachable state passes. */
  lemma AuditNeverFails(c: Config, steps: seq<Step>)
    ensures AuditPasses(After(c, steps, |steps|))
  {
    RunsKeep(c, steps, |steps|);
    AuditSucceeds(After(c, steps, |steps|));
  }

  // ----- Compositions by callers

  /** What a caller makes of the operations: each with arguments that depend on what it reads, in sequence, by decision, with
      failures caught and answered, and in enclosing transactions. */
  datatype Client =
    | Perform(choose: Tables -> Step, commits: bool)
    | Sequence(first: Client, second: Client)
    | Decide(test: Tables -> bool, yes: Client, no: Client)
    | Catch(body: Client, caught: Client)
    | Enclose(body: Client, commits: bool)

  /** Seeding and revoking are single statements; every other operation opens a transaction of its own. */
  function Compile(c: Config, p: Client): Program<Tables> {
    match p
    case Perform(choose, commits) =>
      var work := Do(t => Next(c, t, choose(t)));
      Branch(t => choose(t).SeedStep? || choose(t).RevokeStep?, work, Transaction(work, commits))
    case Sequence(first, second) => Then(Compile(c, first), Compile(c, second))
    case Decide(test, yes, no) => Branch(test, Compile(c, yes), Compile(c, no))
    case Catch(body, caught) => Try(Compile(c, body), Compile(c, caught))
    case Enclose(body, commits) => Transaction(Compile(c, body), commits)
  }

  lemma {:induction false} ClientKeeps(c: Config, p: Client)
    ensures Keeps(Compile(c, p), t => Inv(t)) && KeepsWhenOk(Compile(c, p), t => Inv(t))
  {
    match p
    case Perform(choose, _) =>
      forall t | Inv(t)
        ensures Inv(Next(c, t, choose(t)).0)
      {
        NextKeeps(c, t, choose(t));
      }
    case Sequence(first, second) =>
      ClientKeeps(c, first);
      ClientKeeps(c, second);
    case Decide(_, yes, no) =>
      ClientKeeps(c, yes);
      ClientKeeps(c, no);
    case Catch(body, caught) =>
      ClientKeeps(c, body);
      ClientKeeps(c, caught);
    case Enclose(body, _) => ClientKeeps(c, body);
  }

  /** However deep the operations are nested, whichever fail and whichever failures are caught: what is durable conserves,
      and so does what the connection sees. */
  lemma ClientsConserve(c: Config, conn: Connection<Tables>, p: Client)
    requires Resting(conn) && Inv(conn.durable) && Inv(conn.current)
    ensures Inv(Run(conn, Compile(c, p)).0.durable) && Inv(Run(conn, Compile(c, p)).0.current)
  {
    hide Inv;
    ClientKeeps(c, p);
    ComposedKeeps(conn, Compile(c, p), t => Inv(t));
  }

  // ----- Nothing written is ever rewritten

  predicate SameBook(b: Book, b': Book) {
    && b'.buyer == b.buyer && b'.publisher == b.publisher && b'.requestHash == b.requestHash && b'.claims == b.claims
    && b'.token == b.token && b'.issued == b.issued && b'.expires == b.expires
    && (b.active ==> b'.active) && (b.closed ==> b'.closed)
  }

  predicate BooksExtend(books: map<Id, Book>, books': map<Id, Book>) {
    forall id | id in books :: id in books' && SameBook(books[id], books'[id])
  }

  /** Items keep their price, and an existing book gets no new ones. */
  predicate ItemsExtend(books: map<Id, Book>, items: map<Key, L.Item>, items': map<Key, L.Item>) {
    && (forall k | k in items :: k in items' && items'[k] == items[k])
    && forall k | k in items' && k.0 in books :: k in items
  }

  predicate Extends(t: Tables, t': Tables) {
    && BooksExtend(t.books, t'.books)
    && ItemsExtend(t.books, t.items, t'.items)
    && (forall k | k in t.requests :: k in t'.requests && t'.requests[k] == t.requests[k])
    && (forall k | k in t.redemptions :: k in t'.redemptions && t'.redemptions[k] == t.redemptions[k])
    && (t.revoked ==> t'.revoked)
  }

  lemma ExtendsTransitive(t: Tables, t': Tables, t'': Tables)
    requires Extends(t, t') && Extends(t', t'')
    ensures Extends(t, t'')
  {
  }

  lemma {:induction false} AddItemsFrame(items: map<Key, L.Item>, book: Id, lines: seq<L.Line>)
    ensures forall k: Key | k.0 != book :: (k in L.AddItems(items, book, lines) <==> k in items)
    ensures forall k | k in items && k.0 != book :: L.AddItems(items, book, lines)[k] == items[k]
  {
    if lines != [] {
      AddItemsFrame(items, book, lines[..|lines| - 1]);
    }
  }

  lemma ItemsHaveBooks(t: Tables)
    requires Inv(t)
    ensures forall k | k in t.items :: k.0 in t.books
  {
    hide I.BooksHold, I.AccountsHold, I.AllReceipts, I.Indexed, PublishersHold, BooksWritten, RequestsHold, RedemptionsHold;
  }

  lemma BookInsert(books: map<Id, Book>, id: Id, b: Book)
    requires id !in books
    ensures BooksExtend(books, books[id := b])
  {
  }

  lemma NewItems(books: map<Id, Book>, items: map<Key, L.Item>, id: Id, lines: seq<L.Line>)
    requires id !in books && forall k | k in items :: k.0 in books
    ensures ItemsExtend(books, items, L.AddItems(items, id, lines))
  {
    hide L.AddItems;
    AddItemsFrame(items, id, lines);
  }

  lemma IssueExtends(c: Config, t: Tables, q: Order, now: int, minted: Minted)
    requires Inv(t)
    ensures Extends(t, Issue(c, t, q, now, minted).0)
  {
    hide Issue, Inv, RequestsHold, L.AddItems, Lines, NewBook, L.Units, NoDuplicates, BooksExtend, ItemsExtend;
    Unchanged(t);
    IssueWrites(c, t, q, now, minted);
    ItemsHaveBooks(t);
    RequestsOf(t);
    if OrderAccepted(t, q, now, minted) {
      BookInsert(t.books, minted.book, NewBook(c, t.offers, q, now, minted.book, minted.token.value));
      NewItems(t.books, t.items, minted.book, Lines(t.offers, q.publisher, Sorted(q.resources)));
      PriorBookExact(t, (q.buyer, q.requestId));
    }
  }

  lemma RequestsOf(t: Tables)
    requires Inv(t)
    ensures RequestsHold(t.books, t.requests)
  {
    hide Conserves, I.Indexed, PublishersHold, BooksWritten, RequestsHold, RedemptionsHold;
  }

  lemma BookPut(books: map<Id, Book>, id: Id, b: Book)
    requires id in books && SameBook(books[id], b)
    ensures BooksExtend(books, books[id := b])
  {
  }

  lemma ActivateExtends(c: Config, t: Tables, q: Admission, now: int, verifiedAt: int)
    ensures Extends(t, Activate(c, t, q, now, verifiedAt).0)
  {
    hide IsName, BooksExtend, Within;
    Unchanged(t);
    if q.book in t.books {
      BookPut(t.books, q.book, t.books[q.book].(active := true));
    }
  }

  lemma RedeemExtends(c: Config, t: Tables, q: Use, now: int, receiptId: Id)
    ensures Extends(t, Redeem(c, t, q, now, receiptId).0)
  {
    hide ValidUse, BooksExtend, Within;
    Unchanged(t);
    if q.book in t.books && (q.book, q.resource) in t.items {
      BookPut(t.books, q.book, Draw(t.books[q.book], t.items[(q.book, q.resource)].units));
    }
  }

  lemma BuyExtends(c: Config, t: Tables, q: Purchase, d: Draws)
    requires Inv(t)
    ensures Extends(t, Buy(c, t, q, d).0)
  {
    hide Extends, Inv, Issue, Activate, Redeem;
    Unchanged(t);
    var (t1, issued) := Issue(c, t, OrderOf(q), d.issuedAt, d.minted);
    IssueExtends(c, t, OrderOf(q), d.issuedAt, d.minted);
    if issued.Ok? {
      var (book, token) := issued.value;
      AfterIssueExtends(c, t1, q, book, token, d);
      ExtendsTransitive(t, t1, Redeem(c, Admit(c, t1, q, book, token, d).0, UseOf(q, book), d.redeemedAt, d.receiptId).0);
    }
  }

  /** The rest of a purchase, once its book exists. */
  lemma AfterIssueExtends(c: Config, t1: Tables, q: Purchase, book: Id, token: Id, d: Draws)
    ensures Extends(t1, Admit(c, t1, q, book, token, d).0)
    ensures Extends(t1, Redeem(c, Admit(c, t1, q, book, token, d).0, UseOf(q, book), d.redeemedAt, d.receiptId).0)
  {
    hide Extends, Activate, Redeem;
    Unchanged(t1);
    ActivateExtends(c, t1, Admission(book, token, q.buyer, q.publisher), d.admittedAt, d.verifiedAt);
    var t2 := Admit(c, t1, q, book, token, d).0;
    RedeemExtends(c, t2, UseOf(q, book), d.redeemedAt, d.receiptId);
    ExtendsTransitive(t1, t2, Redeem(c, t2, UseOf(q, book), d.redeemedAt, d.receiptId).0);
  }

  lemma Unchanged(t: Tables)
    ensures Extends(t, t)
  {
  }

  lemma SeedExtends(t: Tables, buyer: Id, units: int)
    ensures Extends(t, Seed(t, buyer, units).0)
  {
    hide IsName, BooksExtend, ItemsExtend;
    Unchanged(t);
  }

  lemma SetOfferExtends(t: Tables, publisher: Id, resource: Id, o: Offer)
    ensures Extends(t, SetOffer(t, publisher, resource, o).0)
  {
    hide ValidOffer, BooksExtend, ItemsExtend;
    Unchanged(t);
  }

  lemma ReleaseExtends(t: Tables, book: Id, buyer: Id)
    ensures Extends(t, ReleaseBook(t, book, buyer).0)
  {
    hide IsName, H.ReleaseHolds, H.WithRelease, BooksExtend;
    Unchanged(t);
    if book in t.books {
      BookPut(t.books, book, Close(t.books[book]));
    }
  }

  lemma RevokeExtends(t: Tables)
    ensures Extends(t, RevokeKey(t))
  {
  }

  lemma NextExtends(c: Config, t: Tables, step: Step)
    requires Inv(t)
    ensures Extends(t, Next(c, t, step).0)
  {
    hide Extends, Inv, Seed, SetOffer, Issue, Activate, Redeem, ReleaseBook, RevokeKey, Buy;
    match step
    case SeedStep(buyer, units) => SeedExtends(t, buyer, units);
    case SetOfferStep(publisher, resource, offer) => SetOfferExtends(t, publisher, resource, offer);
    case IssueStep(q, now, minted) => IssueExtends(c, t, q, now, minted);
    case ActivateStep(q, now, verifiedAt) => ActivateExtends(c, t, q, now, verifiedAt);
    case RedeemStep(q, now, receiptId) => RedeemExtends(c, t, q, now, receiptId);
    case ReleaseStep(book, buyer) => ReleaseExtends(t, book, buyer);
    case RevokeStep => RevokeExtends(t);
    case BuyStep(q, d) => BuyExtends(c, t, q, d);
  }

  lemma {:induction false} RunExtends(c: Config, steps: seq<Step>, i: nat, j: nat)
    requires i <= j <= |steps|
    ensures Extends(After(c, steps, i), After(c, steps, j))
    decreases j
  {
    hide Extends, Inv, Next;
    if i == j {
      Unchanged(After(c, steps, i));
    } else {
      RunExtends(c, steps, i, j - 1);
      RunsKeep(c, steps, j - 1);
      NextExtends(c, After(c, steps, j - 1), steps[j - 1]);
      ExtendsTransitive(After(c, steps, i), After(c, steps, j - 1), After(c, steps, j));
    }
  }

  // ----- The offer behind every item

  /** The item repeats the offer, and its book expires no later than the offer. */
  predicate Priced(o: Offer, item: L.Item, expires: int) {
    item == L.Item(o.content, o.terms, o.units) && expires <= o.validUntil
  }

  /** Each item of this book repeats an offer that was in the catalog when the book did not exist yet. */
  predicate Sold(offers: map<Key, Offer>, books: map<Id, Book>, items: map<Key, L.Item>, id: Id)
    requires id in books
  {
    forall k | k in items && k.0 == id ::
      (books[id].publisher, k.1) in offers && Priced(offers[(books[id].publisher, k.1)], items[k], books[id].expires)
  }

  lemma {:induction false} AddItemsFrom(items: map<Key, L.Item>, book: Id, lines: seq<L.Line>, k: Key) returns (j: nat)
    requires k.0 == book && k !in items && k in L.AddItems(items, book, lines)
    ensures j < |lines| && lines[j].resource == k.1
    ensures L.AddItems(items, book, lines)[k] == L.Item(lines[j].content, lines[j].terms, lines[j].units)
  {
    if lines[|lines| - 1].resource == k.1 {
      j := |lines| - 1;
    } else {
      j := AddItemsFrom(items, book, lines[..|lines| - 1], k);
    }
  }

  lemma NewBookSold(c: Config, t: Tables, q: Order, now: int, minted: Minted)
    requires OrderAccepted(t, q, now, minted) && forall k | k in t.items :: k.0 in t.books
    ensures var t' := AfterIssue(c, t, q, now, minted.book, minted.token.value);
            Sold(t.offers, t'.books, t'.items, minted.book)
  {
    hide L.AddItems, L.Units, NoDuplicates, OrderHash;
    var names, id := Sorted(q.resources), minted.book;
    var lines, deadlines := Lines(t.offers, q.publisher, names), Deadlines(t.offers, q.publisher, names);
    var items' := L.AddItems(t.items, id, lines);
    forall k | k in items' && k.0 == id
      ensures (q.publisher, k.1) in t.offers
      ensures Priced(t.offers[(q.publisher, k.1)], items'[k], Earliest(now + q.ttl, deadlines))
    {
      var j := AddItemsFrom(t.items, id, lines, k);
      assert names[j] in names && deadlines[j] in deadlines;
    }
  }

  lemma SoldStays(offers: map<Key, Offer>, t: Tables, t': Tables, id: Id)
    requires id in t.books && Sold(offers, t.books, t.items, id) && Extends(t, t')
    ensures id in t'.books && Sold(offers, t'.books, t'.items, id)
  {
    assert SameBook(t.books[id], t'.books[id]);
  }

  lemma IssueSells(c: Config, t: Tables, q: Order, now: int, minted: Minted, id: Id)
    requires Inv(t) && id !in t.books && id in Issue(c, t, q, now, minted).0.books
    ensures Sold(t.offers, Issue(c, t, q, now, minted).0.books, Issue(c, t, q, now, minted).0.items, id)
  {
    hide Inv, Issue, OrderAccepted, Sold, L.AddItems;
    IssueWrites(c, t, q, now, minted);
    ItemsHaveBooks(t);
    assert OrderAccepted(t, q, now, minted);
    NewBookSold(c, t, q, now, minted);
  }

  lemma BuySells(c: Config, t: Tables, q: Purchase, d: Draws, id: Id)
    requires Inv(t) && id !in t.books && id in Buy(c, t, q, d).0.books
    ensures Sold(t.offers, Buy(c, t, q, d).0.books, Buy(c, t, q, d).0.items, id)
  {
    hide Inv, Issue, Sold, Extends;
    var (t1, issued) := Issue(c, t, OrderOf(q), d.issuedAt, d.minted);
    var (book, token) := issued.value;
    assert id in t1.books by {
      SameKeys(c, t1, q, book, token, d);
    }
    IssueSells(c, t, OrderOf(q), d.issuedAt, d.minted, id);
    hide Activate, Redeem;
    AfterIssueExtends(c, t1, q, book, token, d);
    SoldStays(t.offers, t1, Buy(c, t, q, d).0, id);
  }

  lemma SameKeys(c: Config, t1: Tables, q: Purchase, book: Id, token: Id, d: Draws)
    ensures Redeem(c, Admit(c, t1, q, book, token, d).0, UseOf(q, book), d.redeemedAt, d.receiptId).0.books.Keys == t1.books.Keys
  {
    hide Activate, Redeem;
    ActivateKeys(c, t1, Admission(book, token, q.buyer, q.publisher), d.admittedAt, d.verifiedAt);
    RedeemKeys(c, Admit(c, t1, q, book, token, d).0, UseOf(q, book), d.redeemedAt, d.receiptId);
  }

  lemma ActivateKeys(c: Config, t: Tables, q: Admission, now: int, verifiedAt: int)
    ensures Activate(c, t, q, now, verifiedAt).0.books.Keys == t.books.Keys
  {
    hide IsName, Within;
  }

  lemma RedeemKeys(c: Config, t: Tables, q: Use, now: int, receiptId: Id)
    ensures Redeem(c, t, q, now, receiptId).0.books.Keys == t.books.Keys
  {
    hide ValidUse, UseFits;
  }

  lemma NextSells(c: Config, t: Tables, step: Step, id: Id)
    requires Inv(t) && id !in t.books && id in Next(c, t, step).0.books
    ensures Sold(t.offers, Next(c, t, step).0.books, Next(c, t, step).0.items, id)
  {
    hide Inv, Sold, Issue, Buy;
    if step.IssueStep? {
      IssueSells(c, t, step.order, step.now, step.minted, id);
    } else if step.BuyStep? {
      BuySells(c, t, step.purchase, step.draws, id);
    }
  }

  /** For every book there is the moment it was issued: its items repeat the offers of that moment. */
  lemma {:induction false} EveryBookWasSold(c: Config, steps: seq<Step>, n: nat, id: Id) returns (i: nat)
    requires n <= |steps| && id in After(c, steps, n).books
    ensures i < n && id !in After(c, steps, i).books && id in After(c, steps, i + 1).books
    ensures Sold(After(c, steps, i).offers, After(c, steps, n).books, After(c, steps, n).items, id)
    decreases n
  {
    hide Next, Inv, Sold, Extends;
    assert n > 0;
    var t := After(c, steps, n - 1);
    RunsKeep(c, steps, n - 1);
    if id in t.books {
      i := EveryBookWasSold(c, steps, n - 1, id);
      NextExtends(c, t, steps[n - 1]);
      SoldStays(After(c, steps, i).offers, t, After(c, steps, n), id);
    } else {
      i := n - 1;
      NextSells(c, t, steps[n - 1], id);
    }
  }

  predicate SameItem(r: Receipt, r': Receipt) {
    r.book == r'.book && r.resource == r'.resource
  }

  lemma ReceiptsAreJustified(t: Tables, k: Key)
    requires Inv(t) && k in t.redemptions
    ensures var r := t.redemptions[k].receipt;
            && Admitted(t.books, k, r)
            && (r.book, r.resource) in t.items && t.items[(r.book, r.resource)] == L.Item(r.content, r.terms, r.units)
            && forall k' | k' in t.redemptions && SameItem(t.redemptions[k'].receipt, r) :: k' == k
  {
    hide I.BooksHold, I.AccountsHold, I.AllReceipts, PublishersHold, BooksWritten, RequestsHold;
    var receipts := SharedReceipts(t.redemptions);
    assert I.ReceiptMatches(t.items, receipts[k].receipt);
    forall k' | k' in t.redemptions && SameItem(t.redemptions[k'].receipt, t.redemptions[k].receipt)
      ensures k' == k
    {
      assert I.SameItem(receipts[k].receipt, receipts[k'].receipt);
    }
  }

  /** Every receipt of every run is justified: its book was admitted and valid when it was committed, no other receipt is
      for the same item, and content, terms and price are those of an offer on sale when the book was issued, which had
      not ended when the receipt was committed. */
  lemma EveryReceiptIsJustified(c: Config, steps: seq<Step>, k: Key) returns (i: nat)
    requires k in After(c, steps, |steps|).redemptions
    ensures i < |steps|
    ensures var (t, r) := (After(c, steps, |steps|), After(c, steps, |steps|).redemptions[k].receipt);
            && Admitted(t.books, k, r) && r.book !in After(c, steps, i).books && r.book in After(c, steps, i + 1).books
            && (r.publisher, r.resource) in After(c, steps, i).offers
            && var o := After(c, steps, i).offers[(r.publisher, r.resource)];
            && r.content == o.content && r.terms == o.terms && r.units == o.units && r.committedAt < o.validUntil
    ensures var (t, r) := (After(c, steps, |steps|), After(c, steps, |steps|).redemptions[k].receipt);
            forall k' | k' in t.redemptions && SameItem(t.redemptions[k'].receipt, r) :: k' == k
  {
    hide Inv, After;
    var t := After(c, steps, |steps|);
    RunsKeep(c, steps, |steps|);
    ReceiptsAreJustified(t, k);
    i := EveryBookWasSold(c, steps, |steps|, t.redemptions[k].receipt.book);
  }

  // ----- Purchases and retries

  /** A purchase leaves its order and its redemption on record. */
  predicate Recorded(c: Config, t: Tables, q: Purchase, b: Bought) {
    var key := (q.buyer, q.requestId);
    && ValidOrder(OrderOf(q)) && ValidUse(UseOf(q, b.book))
    && key in t.requests && t.requests[key] == b.book && b.book in t.books
    && t.books[b.book].requestHash == OrderHash(c, OrderOf(q)) && t.books[b.book].token == b.token
    && key in t.redemptions && t.redemptions[key] == Redemption(UseHash(c, UseOf(q, b.book)), b.receipt)
  }

  lemma IssueRecords(c: Config, t: Tables, q: Order, now: int, minted: Minted)
    requires Issue(c, t, q, now, minted).1.Ok?
    ensures var (t', r) := Issue(c, t, q, now, minted);
            && ValidOrder(q) && (q.buyer, q.requestId) in t'.requests
            && t'.requests[(q.buyer, q.requestId)] == r.value.0 && r.value.0 in t'.books
            && t'.books[r.value.0].requestHash == OrderHash(c, q) && t'.books[r.value.0].token == r.value.1
  {
    hide ValidOrder, OnSale, Lines, Deadlines, L.Units, L.AddItems, OrderHash, Earliest;
  }

  lemma RedeemRecords(c: Config, t: Tables, q: Use, now: int, receiptId: Id)
    requires Redeem(c, t, q, now, receiptId).1.Ok?
    ensures var (t', r) := Redeem(c, t, q, now, receiptId);
            && ValidUse(q) && (q.buyer, q.requestId) in t'.redemptions
            && t'.redemptions[(q.buyer, q.requestId)] == Redemption(UseHash(c, q), r.value)
  {
    hide ValidUse, UseAllowed, UseFits, UseHash;
  }

  lemma BuyRecords(c: Config, t: Tables, q: Purchase, d: Draws)
    requires Inv(t) && Buy(c, t, q, d).1.Ok?
    ensures Recorded(c, Buy(c, t, q, d).0, q, Buy(c, t, q, d).1.value)
  {
    hide Inv, Issue, Redeem, Activate, ValidOrder, ValidUse, OrderHash, UseHash;
    var (t1, issued) := Issue(c, t, OrderOf(q), d.issuedAt, d.minted);
    var (book, token) := issued.value;
    IssueRecords(c, t, OrderOf(q), d.issuedAt, d.minted);
    AfterIssueExtends(c, t1, q, book, token, d);
    RedeemRecords(c, Admit(c, t1, q, book, token, d).0, UseOf(q, book), d.redeemedAt, d.receiptId);
  }

  lemma RecordedStays(c: Config, t: Tables, t': Tables, q: Purchase, b: Bought)
    requires Recorded(c, t, q, b) && Extends(t, t')
    ensures Recorded(c, t', q, b)
  {
    hide ValidOrder, ValidUse, OrderHash, UseHash;
  }

  lemma RecordedReplays(c: Config, t: Tables, q: Purchase, b: Bought, d: Draws)
    requires Recorded(c, t, q, b)
    ensures Buy(c, t, q, d) == (t, if t.revoked then L.Denied else L.Ok(b))
  {
    hide ValidOrder, ValidUse, OrderHash, UseHash;
  }

  /** Repeating a committed purchase returns the same book, token and receipt and changes nothing, at any time and after
      any other operations, exactly as long as the key is live; afterwards it is denied. */
  lemma BuyAgain(c: Config, steps: seq<Step>, i: nat, j: nat, d: Draws)
    requires i < j <= |steps| && steps[i].BuyStep?
    requires Buy(c, After(c, steps, i), steps[i].purchase, steps[i].draws).1.Ok?
    ensures var (t, q) := (After(c, steps, j), steps[i].purchase);
            Buy(c, t, q, d) == (t, if t.revoked then L.Denied
                                   else Buy(c, After(c, steps, i), q, steps[i].draws).1)
  {
    hide Inv, Extends, Recorded, Buy;
    var q := steps[i].purchase;
    RunsKeep(c, steps, i);
    BuyRecords(c, After(c, steps, i), q, steps[i].draws);
    RunExtends(c, steps, i + 1, j);
    var b := Buy(c, After(c, steps, i), q, steps[i].draws).1.value;
    assert Recorded(c, After(c, steps, i + 1), q, b);
    RecordedStays(c, After(c, steps, i + 1), After(c, steps, j), q, b);
    RecordedReplays(c, After(c, steps, j), q, b, d);
  }

  /** A receipt alone can be recovered even after the key is revoked. */
  lemma RedeemAgain(c: Config, steps: seq<Step>, i: nat, j: nat, now: int, receiptId: Id)
    requires i < j <= |steps| && steps[i].RedeemStep?
    requires Redeem(c, After(c, steps, i), steps[i].use, steps[i].now, steps[i].receiptId).1.Ok?
    ensures Redeem(c, After(c, steps, j), steps[i].use, now, receiptId)
         == (After(c, steps, j), Redeem(c, After(c, steps, i), steps[i].use, steps[i].now, steps[i].receiptId).1)
  {
    hide Inv, UseAllowed, UseFits, ValidUse, UseHash, BooksExtend, ItemsExtend, AfterUse, NewReceipt;
    RedeemRecords(c, After(c, steps, i), steps[i].use, steps[i].now, steps[i].receiptId);
    RunExtends(c, steps, i + 1, j);
    assert After(c, steps, i + 1) == Redeem(c, After(c, steps, i), steps[i].use, steps[i].now, steps[i].receiptId).0;
  }

  lemma OneLine(offers: map<Key, Offer>, publisher: Id, r: Id)
    requires (publisher, r) in offers
    ensures L.Units(Lines(offers, publisher, [r])) == offers[(publisher, r)].units
  {
    var lines := Lines(offers, publisher, [r]);
    assert lines[..0] == [];
  }

  /** The rows a first purchase under this request id writes: the price leaves the available balance for good, nothing
      stays reserved, and the publisher accrues exactly it. */
  function Purchased(c: Config, t: Tables, q: Purchase, d: Draws, receipt: Receipt): Tables
    requires q.buyer in t.accounts && (q.publisher, q.resource) in t.offers && q.publisher in t.publishers
    requires d.minted.token.Some? && forall r | r in Sorted([q.resource]) :: (q.publisher, r) in t.offers
  {
    var o, key, id := t.offers[(q.publisher, q.resource)], (q.buyer, q.requestId), d.minted.book;
    var b := NewBook(c, t.offers, OrderOf(q), d.issuedAt, id, d.minted.token.value);
    t.(accounts := t.accounts[q.buyer := L.SpendAvailable(t.accounts[q.buyer], o.units)],
       books := t.books[id := b.(remaining := 0, active := true)],
       requests := t.requests[key := id],
       items := t.items[(id, q.resource) := L.Item(o.content, o.terms, o.units)],
       redemptions := t.redemptions[key := Redemption(UseHash(c, UseOf(q, id)), receipt)],
       redeemed := t.redeemed + {(id, q.resource)},
       publishers := t.publishers[q.publisher := t.publishers[q.publisher] + o.units])
  }

  /** The book of a purchase when it is new: one item at the offered price. */
  lemma IssueOne(c: Config, t: Tables, q: Purchase, d: Draws)
    requires Inv(t) && (q.buyer, q.requestId) !in t.requests && Issue(c, t, OrderOf(q), d.issuedAt, d.minted).1.Ok?
    ensures OrderAccepted(t, OrderOf(q), d.issuedAt, d.minted)
    ensures (q.publisher, q.resource) in t.offers && q.publisher in t.publishers && Sorted([q.resource]) == [q.resource]
    ensures var (t1, r) := Issue(c, t, OrderOf(q), d.issuedAt, d.minted);
            var (o, id) := (t.offers[(q.publisher, q.resource)], d.minted.book);
            && r.value == (id, d.minted.token.value)
            && t1 == t.(accounts := t.accounts[q.buyer := L.Reserve(t.accounts[q.buyer], o.units)],
                        books := t.books[id := NewBook(c, t.offers, OrderOf(q), d.issuedAt, id, d.minted.token.value)],
                        requests := t.requests[(q.buyer, q.requestId) := id],
                        items := t.items[(id, q.resource) := L.Item(o.content, o.terms, o.units)])
            && t1.books[id].remaining == o.units
  {
    hide Inv, OrderHash, ValidOrder, Earliest, Deadlines, Sorted;
    RequestsOf(t);
    PriorBookExact(t, (q.buyer, q.requestId));
    SortedOne(q.resource);
    assert q.resource in [q.resource];
    OneLine(t.offers, q.publisher, q.resource);
    AddOneLine(t.items, d.minted.book, Lines(t.offers, q.publisher, [q.resource]));
    OfferHasPublisher(t, q.publisher, q.resource);
    hide L.Units, L.AddItems;
  }

  lemma SortedOne(r: Id)
    ensures Sorted([r]) == [r]
  {
    assert Sorted([r][1..]) == [];
  }

  lemma AddOneLine(items: map<Key, L.Item>, book: Id, lines: seq<L.Line>)
    requires |lines| == 1
    ensures L.AddItems(items, book, lines)
         == items[(book, lines[0].resource) := L.Item(lines[0].content, lines[0].terms, lines[0].units)]
  {
    assert lines[..0] == [];
  }

  lemma OfferHasPublisher(t: Tables, publisher: Id, resource: Id)
    requires Inv(t) && (publisher, resource) in t.offers
    ensures publisher in t.publishers
  {
    hide Conserves, I.Indexed, BooksWritten, RequestsHold, RedemptionsHold, Accrued;
  }

  /** Admitting and redeeming a book that is not admitted yet. */
  lemma AdmitAndRedeem(c: Config, t: Tables, q: Purchase, book: Id, token: Id, d: Draws)
    requires (q.buyer, q.requestId) !in t.redemptions && book in t.books && !t.books[book].active
    requires Admit(c, t, q, book, token, d).1.Ok?
    requires Redeem(c, Admit(c, t, q, book, token, d).0, UseOf(q, book), d.redeemedAt, d.receiptId).1.Ok?
    ensures q.buyer in t.accounts && (book, q.resource) in t.items
    ensures var (t', r) := Redeem(c, Admit(c, t, q, book, token, d).0, UseOf(q, book), d.redeemedAt, d.receiptId);
            var units := t.items[(book, q.resource)].units;
            t' == t.(accounts := t.accounts[q.buyer := L.SpendReserved(t.accounts[q.buyer], units)],
                     books := t.books[book := t.books[book].(remaining := t.books[book].remaining - units, active := true)],
                     publishers := WithAccrual(t.publishers, q.publisher, units),
                     redemptions := t.redemptions[(q.buyer, q.requestId) := Redemption(UseHash(c, UseOf(q, book)), r.value)],
                     redeemed := t.redeemed + {(book, q.resource)})
  {
    hide UseHash, ValidUse, IsName, Within, L.AccountHolds, L.SpendReserved, WithAccrual;
  }

  /** A first purchase that succeeds has the combined effect of issuing, admitting and redeeming. */
  lemma BuyEffect(c: Config, t: Tables, q: Purchase, d: Draws)
    requires Inv(t) && (q.buyer, q.requestId) !in t.requests && (q.buyer, q.requestId) !in t.redemptions
    requires Buy(c, t, q, d).1.Ok?
    ensures OrderAccepted(t, OrderOf(q), d.issuedAt, d.minted)
    ensures (q.publisher, q.resource) in t.offers && q.publisher in t.publishers && Sorted([q.resource]) == [q.resource]
    ensures Buy(c, t, q, d).0 == Purchased(c, t, q, d, Buy(c, t, q, d).1.value.receipt)
  {
    hide Inv, Issue, OrderHash, UseHash, Sorted, NewBook, Redeem, Admit, L.AccountHolds, NoDuplicates;
    IssueOne(c, t, q, d);
    var t1 := Issue(c, t, OrderOf(q), d.issuedAt, d.minted).0;
    NewBookOpens(c, t.offers, OrderOf(q), d.issuedAt, d.minted.book, d.minted.token.value);
    AdmitAndRedeem(c, t1, q, d.minted.book, d.minted.token.value, d);
  }

  lemma NewBookOpens(c: Config, offers: map<Key, Offer>, q: Order, now: int, id: Id, token: Id)
    requires forall r | r in Sorted(q.resources) :: (q.publisher, r) in offers
    ensures !NewBook(c, offers, q, now, id, token).active
  {
  }
}
