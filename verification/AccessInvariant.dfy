/** Conservation and justification in the access-book engine. Accounts, books and receipts conserve as in the online
    ledger, seen through the columns they share; publishers, offers and admissions come on top. */
module AccessInvariant {
  import opened Options
  import opened Identifiers
  import opened AccessBook
  import opened FiniteSums
  import L = LedgerTables
  import H = HttpLedger
  import I = LedgerInvariant

  // ----- The columns shared with the online ledger

  function SharedBook(b: Book): L.Book {
    L.Book(b.buyer, b.requestHash, b.token, b.issued, b.expires, b.remaining, b.closed)
  }

  function SharedBooks(books: map<Id, Book>): map<Id, L.Book> {
    map id | id in books :: SharedBook(books[id])
  }

  function SharedRow(r: Redemption): L.ReceiptRow {
    var e := r.receipt;
    L.ReceiptRow(r.requestHash, L.Receipt(e.id, e.buyer, Some(e.book), e.resource, e.content, e.terms, e.units, e.committedAt))
  }

  function SharedReceipts(redemptions: map<Key, Redemption>): map<Key, L.ReceiptRow> {
    map k | k in redemptions :: SharedRow(redemptions[k])
  }

  ghost function Shared(t: Tables): L.Tables {
    var receipts := SharedReceipts(t.redemptions);
    L.Tables(t.accounts, SharedBooks(t.books), t.items, map[], receipts, t.redeemed, map[], {}, I.AllReceipts(receipts))
  }

  lemma SharedPut(books: map<Id, Book>, id: Id, b: Book)
    ensures SharedBooks(books[id := b]) == SharedBooks(books)[id := SharedBook(b)]
  {
  }

  lemma SharedInsert(redemptions: map<Key, Redemption>, k: Key, r: Redemption)
    ensures SharedReceipts(redemptions[k := r]) == SharedReceipts(redemptions)[k := SharedRow(r)]
  {
  }

  // ----- What is new here

  function AccruedBy(redemptions: map<Key, Redemption>, publisher: Id): Key -> int {
    k => if k in redemptions && redemptions[k].receipt.publisher == publisher then redemptions[k].receipt.units else 0
  }

  ghost function Accrued(redemptions: map<Key, Redemption>, publisher: Id): int {
    Total(redemptions.Keys, AccruedBy(redemptions, publisher))
  }

  /** Every publisher with an offer has a row, and each row is the sum of the publisher's receipts. */
  ghost predicate PublishersHold(offers: map<Key, Offer>, publishers: map<Id, int>, redemptions: map<Key, Redemption>) {
    && (forall k | k in offers :: k.0 in publishers && offers[k].units >= 1)
    && forall p | p in publishers :: publishers[p] == Accrued(redemptions, p)
  }

  ghost predicate BooksWritten(books: map<Id, Book>, publishers: map<Id, int>) {
    forall id | id in books ::
      var b := books[id];
      && b.publisher in publishers
      && b.claims.book == id && b.claims.buyer == b.buyer && b.claims.publisher == b.publisher
      && b.claims.issued == b.issued && b.claims.expires == b.expires
  }

  /** The unique index on (buyer, request id): each key names a book of that buyer, no book has two, none has none. */
  ghost predicate RequestsHold(books: map<Id, Book>, requests: map<Key, Id>) {
    && (forall k | k in requests :: requests[k] in books && books[requests[k]].buyer == k.0)
    && (forall k, k' | k in requests && k' in requests && requests[k] == requests[k'] :: k == k')
    && forall id | id in books :: exists k :: k in requests && requests[k] == id
  }

  /** The receipt belongs to an admitted book of its buyer and publisher and was committed while the book was valid. */
  predicate Admitted(books: map<Id, Book>, k: Key, r: Receipt) {
    && r.buyer == k.0 && r.book in books
    && var b := books[r.book];
    && b.buyer == r.buyer && b.publisher == r.publisher && b.active && b.issued <= r.committedAt < b.expires
  }

  ghost predicate RedemptionsHold(books: map<Id, Book>, redemptions: map<Key, Redemption>) {
    forall k | k in redemptions :: Admitted(books, k, redemptions[k].receipt)
  }

  ghost predicate Conserves(accounts: map<Id, L.Account>, books: map<Id, Book>, items: map<Key, L.Item>,
                            redemptions: map<Key, Redemption>, redeemed: set<Key>)
  {
    var receipts := SharedReceipts(redemptions);
    I.Conserved(accounts, SharedBooks(books), items, receipts, redeemed, I.AllReceipts(receipts))
  }

  lemma SharedHolds(t: Tables)
    ensures Conserves(t.accounts, t.books, t.items, t.redemptions, t.redeemed) <==> I.Inv(Shared(t))
  {
    hide I.Conserved, I.AllReceipts, SharedBooks, SharedReceipts;
  }

  ghost predicate Inv(t: Tables) {
    && Conserves(t.accounts, t.books, t.items, t.redemptions, t.redeemed)
    && I.Indexed(SharedReceipts(t.redemptions), t.redeemed)
    && PublishersHold(t.offers, t.publishers, t.redemptions)
    && BooksWritten(t.books, t.publishers)
    && RequestsHold(t.books, t.requests)
    && RedemptionsHold(t.books, t.redemptions)
  }

  lemma EmptyHolds()
    ensures Inv(EMPTY)
  {
    assert SharedBooks(map[]) == map[] && SharedReceipts(map[]) == map[];
  }

  // ----- Seeding, offers, revocation

  lemma SeedKeeps(t: Tables, buyer: Id, units: int)
    requires Inv(t)
    ensures Inv(Seed(t, buyer, units).0)
  {
    hide PublishersHold, BooksWritten, RequestsHold, RedemptionsHold, I.Indexed, I.Held, I.Spent, I.AllReceipts, I.BooksHold;
    if Seed(t, buyer, units).1.Ok? {
      I.NewAccountHolds(t.accounts, SharedBooks(t.books), SharedReceipts(t.redemptions), buyer, units);
    }
  }

  lemma NothingAccrued(redemptions: map<Key, Redemption>, publisher: Id)
    requires forall k | k in redemptions :: redemptions[k].receipt.publisher != publisher
    ensures Accrued(redemptions, publisher) == 0
  {
    TotalZero(redemptions.Keys, AccruedBy(redemptions, publisher));
  }

  lemma NewOfferHolds(offers: map<Key, Offer>, publishers: map<Id, int>, books: map<Id, Book>,
                      redemptions: map<Key, Redemption>, publisher: Id, resource: Id, o: Offer)
    requires PublishersHold(offers, publishers, redemptions) && BooksWritten(books, publishers)
    requires RedemptionsHold(books, redemptions) && o.units >= 1
    ensures var publishers' := if publisher in publishers then publishers else publishers[publisher := 0];
            PublishersHold(offers[(publisher, resource) := o], publishers', redemptions) && BooksWritten(books, publishers')
  {
    hide Accrued;
    if publisher !in publishers {
      assert forall k | k in redemptions :: Admitted(books, k, redemptions[k].receipt);
      NothingAccrued(redemptions, publisher);
    }
  }

  lemma SetOfferKeeps(t: Tables, publisher: Id, resource: Id, o: Offer)
    requires Inv(t)
    ensures Inv(SetOffer(t, publisher, resource, o).0)
  {
    hide Conserves, RequestsHold, I.Indexed, PublishersHold, BooksWritten, RedemptionsHold, IsName, IsSha256;
    if ValidOffer(publisher, resource, o) {
      NewOfferHolds(t.offers, t.publishers, t.books, t.redemptions, publisher, resource, o);
    }
  }

  lemma RevokeKeeps(t: Tables)
    requires Inv(t)
    ensures Inv(RevokeKey(t))
  {
    hide Conserves, PublishersHold, BooksWritten, RequestsHold, RedemptionsHold, I.Indexed;
  }

  // ----- Issuing

  lemma LinesAreDistinct(offers: map<Key, Offer>, publisher: Id, names: seq<Id>)
    requires NoDuplicates(names) && forall r | r in names :: (publisher, r) in offers
    requires forall k | k in offers :: offers[k].units >= 1
    ensures I.LinesHold(Lines(offers, publisher, names))
    ensures L.Units(Lines(offers, publisher, names)) >= 0
  {
    var lines := Lines(offers, publisher, names);
    forall l | l in lines
      ensures l.units >= 0
    {
      var i :| 0 <= i < |lines| && lines[i] == l;
      assert names[i] in names;
    }
    UnitsNonnegative(lines);
  }

  lemma {:induction false} UnitsNonnegative(lines: seq<L.Line>)
    requires forall l | l in lines :: l.units >= 0
    ensures L.Units(lines) >= 0
  {
    if lines != [] {
      UnitsNonnegative(lines[..|lines| - 1]);
    }
  }

  lemma IssueConserves(t: Tables, q: Order, id: Id, b: Book, lines: seq<L.Line>)
    requires Conserves(t.accounts, t.books, t.items, t.redemptions, t.redeemed) && I.LinesHold(lines)
    requires id !in t.books && q.buyer in t.accounts
    requires b.buyer == q.buyer && !b.closed && b.remaining == L.Units(lines)
    requires L.AccountHolds(L.Reserve(t.accounts[q.buyer], L.Units(lines)))
    ensures Conserves(t.accounts[q.buyer := L.Reserve(t.accounts[q.buyer], L.Units(lines))], t.books[id := b],
                      L.AddItems(t.items, id, lines), t.redemptions, t.redeemed)
  {
    hide I.Held, I.Spent, I.AllReceipts, I.Owed, I.References, I.BooksHold, I.AccountsHold, I.LinesHold, L.Units, L.AddItems;
    var books, receipts := SharedBooks(t.books), SharedReceipts(t.redemptions);
    SharedPut(t.books, id, b);
    I.AddBookHolds(t.accounts, books, t.items, receipts, t.redeemed, id, SharedBook(b), lines);
    I.ReserveAccounts(t.accounts, books, books[id := SharedBook(b)], receipts, q.buyer, L.Units(lines));
    SameAccounts(t.accounts, q.buyer, L.Reserve(t.accounts[q.buyer], L.Units(lines)), books[id := SharedBook(b)],
                 L.AddItems(t.items, id, lines), receipts);
  }

  /** Changing an existing account's amounts breaks no reference to it. */
  lemma SameAccounts(accounts: map<Id, L.Account>, buyer: Id, a: L.Account, books: map<Id, L.Book>,
                     items: map<Key, L.Item>, receipts: map<Key, L.ReceiptRow>)
    requires I.References(accounts, books, items, receipts) && buyer in accounts
    ensures I.References(accounts[buyer := a], books, items, receipts)
  {
  }

  lemma IssueRequests(books: map<Id, Book>, requests: map<Key, Id>, key: Key, id: Id, b: Book)
    requires RequestsHold(books, requests) && id !in books && key !in requests && b.buyer == key.0
    ensures RequestsHold(books[id := b], requests[key := id])
  {
    var requests' := requests[key := id];
    forall i {:trigger books[i]} | i in books[id := b]
      ensures exists k :: k in requests' && requests'[k] == i
    {
      if i == id {
        assert requests'[key] == i;
      } else {
        var k :| k in requests && requests[k] == i;
        assert requests'[k] == i;
      }
    }
  }

  lemma IssueWritten(books: map<Id, Book>, publishers: map<Id, int>, redemptions: map<Key, Redemption>, id: Id, b: Book)
    requires BooksWritten(books, publishers) && RedemptionsHold(books, redemptions) && id !in books
    requires BooksWritten(map[id := b], publishers)
    ensures BooksWritten(books[id := b], publishers) && RedemptionsHold(books[id := b], redemptions)
  {
    assert map[id := b][id] == b;
  }

  lemma PriorBookExact(t: Tables, key: Key)
    requires RequestsHold(t.books, t.requests)
    ensures PriorBook(t, key).Some? <==> key in t.requests
  {
  }

  /** What an order that writes has passed. */
  predicate OrderAccepted(t: Tables, q: Order, now: int, minted: Minted) {
    var names := Sorted(q.resources);
    && names != [] && NoDuplicates(names) && OnSale(t.offers, q.publisher, names, now)
    && q.buyer in t.accounts && minted.token.Some? && minted.book !in t.books
    && PriorBook(t, (q.buyer, q.requestId)).None?
    && L.AccountHolds(L.Reserve(t.accounts[q.buyer], L.Units(Lines(t.offers, q.publisher, names))))
  }

  lemma IssueWrites(c: Config, t: Tables, q: Order, now: int, minted: Minted)
    ensures Issue(c, t, q, now, minted).0 == t ||
              (OrderAccepted(t, q, now, minted)
               && Issue(c, t, q, now, minted).0 == AfterIssue(c, t, q, now, minted.book, minted.token.value))
  {
    hide L.Units, Lines, NoDuplicates, NewBook, L.AddItems;
  }

  lemma AcceptedKeeps(c: Config, t: Tables, q: Order, now: int, minted: Minted)
    requires Inv(t) && OrderAccepted(t, q, now, minted)
    ensures Inv(AfterIssue(c, t, q, now, minted.book, minted.token.value))
  {
    hide Conserves, I.Indexed, PublishersHold, BooksWritten, RedemptionsHold, Accrued, L.AddItems, L.Units, I.LinesHold;
    hide Lines, Deadlines, Earliest, RequestsHold;
    var names, key, id := Sorted(q.resources), (q.buyer, q.requestId), minted.book;
    var lines, b := Lines(t.offers, q.publisher, names), NewBook(c, t.offers, q, now, id, minted.token.value);
    OffersHold(t.offers, t.publishers, t.redemptions, q.publisher, names[0]);
    LinesAreDistinct(t.offers, q.publisher, names);
    IssueConserves(t, q, id, b, lines);
    PriorBookExact(t, key);
    IssueRequests(t.books, t.requests, key, id, b);
    NewBookWritten(c, t.offers, t.publishers, q, now, id, minted.token.value);
    IssueWritten(t.books, t.publishers, t.redemptions, id, b);
  }

  lemma NewBookWritten(c: Config, offers: map<Key, Offer>, publishers: map<Id, int>, q: Order, now: int, id: Id, token: Id)
    requires q.publisher in publishers && forall r | r in Sorted(q.resources) :: (q.publisher, r) in offers
    ensures BooksWritten(map[id := NewBook(c, offers, q, now, id, token)], publishers)
  {
    hide Lines, Deadlines, Earliest, L.Units, Sorted;
  }

  lemma OffersHold(offers: map<Key, Offer>, publishers: map<Id, int>, redemptions: map<Key, Redemption>, publisher: Id, r: Id)
    requires PublishersHold(offers, publishers, redemptions) && (publisher, r) in offers
    ensures publisher in publishers && forall k | k in offers :: offers[k].units >= 1
  {
  }

  lemma IssueKeeps(c: Config, t: Tables, q: Order, now: int, minted: Minted)
    requires Inv(t)
    ensures Inv(Issue(c, t, q, now, minted).0)
  {
    hide Inv, OrderAccepted, Issue, AfterIssue;
    IssueWrites(c, t, q, now, minted);
    if OrderAccepted(t, q, now, minted) {
      AcceptedKeeps(c, t, q, now, minted);
    }
  }

  // ----- Activating

  /** Admitting a book only sets its flag. */
  lemma AdmissionKeeps(t: Tables, id: Id)
    requires Inv(t) && id in t.books
    ensures Inv(t.(books := t.books[id := t.books[id].(active := true)]))
  {
    hide I.Conserved, I.Indexed, PublishersHold, SharedReceipts, RequestsHold;
    var b := t.books[id].(active := true);
    SharedPut(t.books, id, b);
    assert SharedBooks(t.books[id := b]) == SharedBooks(t.books);
    SameRequests(t.books, t.requests, id, b);
  }

  lemma ActivateKeeps(c: Config, t: Tables, q: Admission, now: int, verifiedAt: int)
    requires Inv(t)
    ensures Inv(Activate(c, t, q, now, verifiedAt).0)
  {
    hide Inv, IsName;
    if q.book in t.books {
      AdmissionKeeps(t, q.book);
    }
  }

  lemma SameRequests(books: map<Id, Book>, requests: map<Key, Id>, id: Id, b: Book)
    requires RequestsHold(books, requests) && id in books && b.buyer == books[id].buyer
    ensures RequestsHold(books[id := b], requests)
  {
  }

  // ----- Redeeming

  lemma AccruedInsert(redemptions: map<Key, Redemption>, k: Key, r: Redemption, publisher: Id)
    requires k !in redemptions
    ensures Accrued(redemptions[k := r], publisher)
         == Accrued(redemptions, publisher) + if r.receipt.publisher == publisher then r.receipt.units else 0
  {
    assert redemptions[k := r].Keys == redemptions.Keys + {k};
    TotalInsert(redemptions.Keys, AccruedBy(redemptions, publisher), AccruedBy(redemptions[k := r], publisher), k);
  }

  lemma UsePublishers(offers: map<Key, Offer>, publishers: map<Id, int>, redemptions: map<Key, Redemption>, k: Key, r: Redemption)
    requires PublishersHold(offers, publishers, redemptions) && k !in redemptions && r.receipt.publisher in publishers
    ensures PublishersHold(offers, WithAccrual(publishers, r.receipt.publisher, r.receipt.units), redemptions[k := r])
  {
    hide Accrued;
    forall p | p in publishers
      ensures Accrued(redemptions[k := r], p)
           == Accrued(redemptions, p) + if r.receipt.publisher == p then r.receipt.units else 0
    {
      AccruedInsert(redemptions, k, r, p);
    }
  }

  lemma AccruedNonnegative(redemptions: map<Key, Redemption>, publisher: Id)
    requires forall k | k in redemptions :: redemptions[k].receipt.units >= 0
    ensures Accrued(redemptions, publisher) >= 0
  {
    TotalNonnegative(redemptions.Keys, AccruedBy(redemptions, publisher));
  }

  lemma UnitsOfReceipts(t: Tables)
    requires Conserves(t.accounts, t.books, t.items, t.redemptions, t.redeemed)
    ensures forall k | k in t.redemptions :: t.redemptions[k].receipt.units >= 0
  {
    hide I.BooksHold, I.AccountsHold, I.AllReceipts;
    forall k | k in t.redemptions
      ensures t.redemptions[k].receipt.units >= 0
    {
      assert I.ReceiptMatches(t.items, SharedReceipts(t.redemptions)[k].receipt);
    }
  }

  lemma OpenBookOwes(t: Tables, k: Key)
    requires Conserves(t.accounts, t.books, t.items, t.redemptions, t.redeemed) && k in t.items
    requires k !in t.redeemed && k.0 in t.books && !t.books[k.0].closed
    ensures 0 <= t.items[k].units <= t.books[k.0].remaining
  {
    hide I.Held, I.Spent, I.AllReceipts, I.Owed, I.AccountsHold;
    I.OwedNonnegative(t.items, t.redeemed, k.0);
    assert SharedBooks(t.books)[k.0].remaining == t.books[k.0].remaining;
  }

  lemma BookIsCovered(t: Tables, id: Id)
    requires Conserves(t.accounts, t.books, t.items, t.redemptions, t.redeemed) && id in t.books
    ensures t.books[id].buyer in t.accounts && L.AccountHolds(t.accounts[t.books[id].buyer])
    ensures 0 <= t.books[id].remaining <= t.accounts[t.books[id].buyer].reserved
  {
    hide Conserves, I.Inv;
    SharedHolds(t);
    I.RemainingIsReserved(Shared(t), id);
    I.AccountRowHolds(Shared(t), t.books[id].buyer);
  }

  /** An allowed redemption is covered by the book, the reservation and the publisher's row: no constraint stops it. */
  lemma AllowedFits(t: Tables, q: Use, now: int)
    requires Inv(t) && UseAllowed(t, q, now)
    ensures q.publisher in t.publishers && UseFits(t, q, t.items[(q.book, q.resource)].units)
    ensures t.items[(q.book, q.resource)].units >= 0
  {
    hide Conserves, I.Indexed, RequestsHold, RedemptionsHold, Accrued, IsName, IsSha256;
    OpenBookOwes(t, (q.book, q.resource));
    BookIsCovered(t, q.book);
    UnitsOfReceipts(t);
    AccruedNonnegative(t.redemptions, q.publisher);
  }

  lemma UseConserves(t: Tables, q: Use, row: Redemption, units: int)
    requires Conserves(t.accounts, t.books, t.items, t.redemptions, t.redeemed)
    requires I.Indexed(SharedReceipts(t.redemptions), t.redeemed)
    requires (q.buyer, q.requestId) !in t.redemptions && q.buyer in t.accounts
    requires q.book in t.books && t.books[q.book].buyer == q.buyer && !t.books[q.book].closed
    requires (q.book, q.resource) in t.items && (q.book, q.resource) !in t.redeemed
    requires t.items[(q.book, q.resource)] == L.Item(q.content, q.terms, units) && units >= 0
    requires L.AccountHolds(L.SpendReserved(t.accounts[q.buyer], units))
    requires row.receipt.book == q.book && row.receipt.resource == q.resource && row.receipt.buyer == q.buyer
    requires row.receipt.content == q.content && row.receipt.terms == q.terms && row.receipt.units == units
    ensures Conserves(t.accounts[q.buyer := L.SpendReserved(t.accounts[q.buyer], units)],
                      t.books[q.book := Draw(t.books[q.book], units)], t.items,
                      t.redemptions[(q.buyer, q.requestId) := row], t.redeemed + {(q.book, q.resource)})
    ensures I.Indexed(SharedReceipts(t.redemptions[(q.buyer, q.requestId) := row]), t.redeemed + {(q.book, q.resource)})
  {
    hide I.Held, I.Spent, I.AllReceipts, I.Owed, I.References, I.BooksHold, I.AccountsHold, I.Indexed;
    var key, receipts := (q.buyer, q.requestId), SharedReceipts(t.redemptions);
    SharedPut(t.books, q.book, Draw(t.books[q.book], units));
    SharedInsert(t.redemptions, key, row);
    I.BookSpendConserves(t.accounts, SharedBooks(t.books), t.items, receipts, t.redeemed, I.AllReceipts(receipts),
                         key, SharedRow(row), q.book, units);
    I.SpentInsert(receipts, key, SharedRow(row), q.buyer);
    I.IndexedInsert(receipts, t.redeemed, key, SharedRow(row));
  }

  lemma DrawWritten(books: map<Id, Book>, publishers: map<Id, int>, id: Id, units: int, publisher: Id)
    requires BooksWritten(books, publishers) && id in books
    ensures BooksWritten(books[id := Draw(books[id], units)], WithAccrual(publishers, publisher, units))
  {
  }

  lemma UseRedemptions(books: map<Id, Book>, redemptions: map<Key, Redemption>, id: Id, units: int, k: Key, r: Redemption)
    requires RedemptionsHold(books, redemptions) && id in books && Admitted(books, k, r.receipt)
    ensures RedemptionsHold(books[id := Draw(books[id], units)], redemptions[k := r])
  {
  }

  /** Every redemption conserves, and none runs into a constraint. */
  lemma RedeemKeeps(c: Config, t: Tables, q: Use, now: int, receiptId: Id)
    requires Inv(t)
    ensures Inv(Redeem(c, t, q, now, receiptId).0) && !Redeem(c, t, q, now, receiptId).1.Raised?
  {
    hide Inv, UseFits, UseAllowed, AfterUse, ValidUse;
    if ValidUse(q) && (q.buyer, q.requestId) !in t.redemptions && UseAllowed(t, q, now) {
      AllowedFits(t, q, now);
      UseKeeps(c, t, q, now, receiptId);
    }
  }

  lemma UseKeeps(c: Config, t: Tables, q: Use, now: int, receiptId: Id)
    requires Inv(t) && UseAllowed(t, q, now) && (q.buyer, q.requestId) !in t.redemptions
    requires q.publisher in t.publishers && t.items[(q.book, q.resource)].units >= 0
    requires UseFits(t, q, t.items[(q.book, q.resource)].units)
    ensures Inv(AfterUse(c, t, q, t.items[(q.book, q.resource)].units, NewReceipt(t, q, now, receiptId)))
  {
    hide Conserves, I.Indexed, PublishersHold, RequestsHold, RedemptionsHold, BooksWritten, SharedReceipts;
    var receipt := NewReceipt(t, q, now, receiptId);
    var units, row, key := receipt.units, Redemption(UseHash(c, q), receipt), (q.buyer, q.requestId);
    var t' := AfterUse(c, t, q, units, receipt);
    UseConserves(t, q, row, units);
    UsePublishers(t.offers, t.publishers, t.redemptions, key, row);
    SameRequests(t.books, t.requests, q.book, t'.books[q.book]);
    UseRedemptions(t.books, t.redemptions, q.book, units, key, row);
    DrawWritten(t.books, t.publishers, q.book, units, q.publisher);
  }

  // ----- Releasing

  lemma ReleaseKeeps(t: Tables, book: Id, buyer: Id)
    requires Inv(t)
    ensures Inv(ReleaseBook(t, book, buyer).0) && !ReleaseBook(t, book, buyer).1.Raised?
  {
    hide I.Inv, I.Indexed, PublishersHold, Accrued, I.Held, I.Spent, I.AllReceipts, I.References, I.BooksHold, I.AccountsHold;
    if book in t.books && t.books[book].buyer == buyer && !t.books[book].closed {
      SharedHolds(t);
      I.CancelConserves(Shared(t), buyer, book);
      SharedPut(t.books, book, Close(t.books[book]));
      SameRequests(t.books, t.requests, book, Close(t.books[book]));
      CloseWritten(t.books, t.publishers, t.redemptions, book);
      hide RequestsHold, RedemptionsHold, BooksWritten, SharedBooks, SharedReceipts;
    }
  }

  lemma CloseWritten(books: map<Id, Book>, publishers: map<Id, int>, redemptions: map<Key, Redemption>, id: Id)
    requires BooksWritten(books, publishers) && RedemptionsHold(books, redemptions) && id in books
    ensures BooksWritten(books[id := Close(books[id])], publishers) && RedemptionsHold(books[id := Close(books[id])], redemptions)
  {
  }

  // ----- Purchasing

  lemma BuyKeeps(c: Config, t: Tables, q: Purchase, d: Draws)
    requires Inv(t)
    ensures Inv(Buy(c, t, q, d).0)
  {
    hide Inv, Issue, Activate, Redeem;
    var (t1, issued) := Issue(c, t, OrderOf(q), d.issuedAt, d.minted);
    IssueKeeps(c, t, OrderOf(q), d.issuedAt, d.minted);
    if issued.Ok? {
      var (book, token) := issued.value;
      ActivateKeeps(c, t1, Admission(book, token, q.buyer, q.publisher), d.admittedAt, d.verifiedAt);
      RedeemKeeps(c, Admit(c, t1, q, book, token, d).0, UseOf(q, book), d.redeemedAt, d.receiptId);
    }
  }

  // ----- The audit

  /** Everything the audit compares. */
  ghost predicate AuditPasses(t: Tables) {
    && (forall b | b in t.accounts ::
          var a := t.accounts[b];
          var reserved, redeemed := I.Held(SharedBooks(t.books), b), I.Spent(SharedReceipts(t.redemptions), b);
          a.initial == a.available + reserved + redeemed && a.reserved == reserved && a.spent == redeemed)
    && forall p | p in t.publishers :: t.publishers[p] == Accrued(t.redemptions, p)
  }

  lemma AuditSucceeds(t: Tables)
    requires Inv(t)
    ensures AuditPasses(t)
  {
    hide I.Held, I.Spent, I.AllReceipts, I.References, I.BooksHold, I.Indexed, Accrued;
  }
}
