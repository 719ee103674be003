/** Conservation in the online ledger: per buyer, per book and for the publisher. */
module LedgerInvariant {
  import opened Options
  import opened Identifiers
  import opened LedgerTables
  import opened HttpLedger
  import opened FiniteSums

  // ----- Weights

  function HeldBy(books: map<Id, Book>, buyer: Id): Id -> int {
    id => if id in books && books[id].buyer == buyer then books[id].remaining else 0
  }

  function SpentBy(receipts: map<Key, ReceiptRow>, buyer: Id): Key -> int {
    k => if k in receipts && k.0 == buyer then receipts[k].receipt.units else 0
  }

  function ReceiptUnits(receipts: map<Key, ReceiptRow>): Key -> int {
    k => if k in receipts then receipts[k].receipt.units else 0
  }

  function Unredeemed(items: map<Key, Item>, redeemed: set<Key>, book: Id): Key -> int {
    k => if k in items && k.0 == book && k !in redeemed then items[k].units else 0
  }

  ghost function Held(books: map<Id, Book>, buyer: Id): int {
    Total(books.Keys, HeldBy(books, buyer))
  }

  ghost function Spent(receipts: map<Key, ReceiptRow>, buyer: Id): int {
    Total(receipts.Keys, SpentBy(receipts, buyer))
  }

  ghost function AllReceipts(receipts: map<Key, ReceiptRow>): int {
    Total(receipts.Keys, ReceiptUnits(receipts))
  }

  /** The units of a book's items without a receipt. */
  ghost function Owed(items: map<Key, Item>, redeemed: set<Key>, book: Id): int {
    Total(items.Keys, Unredeemed(items, redeemed, book))
  }

  // ----- The invariant

  ghost predicate References(accounts: map<Id, Account>, books: map<Id, Book>, items: map<Key, Item>,
                             receipts: map<Key, ReceiptRow>)
  {
    && (forall b {:trigger books[b]} | b in books :: books[b].buyer in accounts)
    && (forall k {:trigger items[k]} | k in items :: k.0 in books && items[k].units >= 0)
    && (forall k {:trigger receipts[k]} | k in receipts :: k.0 in accounts && ReceiptMatches(items, receipts[k].receipt))
  }

  /** The index holds exactly the items that receipts name, and no item has two receipts. */
  ghost predicate Indexed(receipts: map<Key, ReceiptRow>, redeemed: set<Key>) {
    && (forall k | k in receipts :: IndexEntry(receipts[k].receipt) <= redeemed)
    && (forall p | p in redeemed :: exists k :: k in receipts && IndexEntry(receipts[k].receipt) == {p})
    && (forall k, k' | k in receipts && k' in receipts :: SameItem(receipts[k].receipt, receipts[k'].receipt) ==> k == k')
  }

  /** A receipt from a book is for one of its items, at the price of that item. */
  predicate ReceiptMatches(items: map<Key, Item>, r: Receipt) {
    r.units >= 0 && (r.book.Some? ==>
      (r.book.value, r.resource) in items && items[(r.book.value, r.resource)] == Item(r.content, r.terms, r.units))
  }

  predicate SameItem(r: Receipt, r': Receipt) {
    r.book.Some? && r.book == r'.book && r.resource == r'.resource
  }

  /** An open book still owes exactly its unredeemed items; a closed one owes nothing. */
  ghost predicate BooksHold(books: map<Id, Book>, items: map<Key, Item>, redeemed: set<Key>) {
    forall id {:trigger books[id]} | id in books :: books[id].remaining == if books[id].closed then 0 else Owed(items, redeemed, id)
  }

  ghost predicate AccountsHold(accounts: map<Id, Account>, books: map<Id, Book>, receipts: map<Key, ReceiptRow>) {
    forall b {:trigger accounts[b]} | b in accounts ::
      AccountHolds(accounts[b]) && accounts[b].reserved == Held(books, b) && accounts[b].spent == Spent(receipts, b)
  }

  ghost predicate Conserved(accounts: map<Id, Account>, books: map<Id, Book>, items: map<Key, Item>,
                            receipts: map<Key, ReceiptRow>, redeemed: set<Key>, accrued: int)
  {
    && References(accounts, books, items, receipts)
    && (forall k | k in redeemed :: k in items)
    && BooksHold(books, items, redeemed)
    && AccountsHold(accounts, books, receipts)
    && accrued == AllReceipts(receipts)
  }

  ghost predicate Inv(t: Tables) {
    Conserved(t.accounts, t.books, t.items, t.receipts, t.redeemed, t.accrued)
  }

  // ----- How single changes move the sums

  lemma HeldPut(books: map<Id, Book>, id: Id, b: Book, buyer: Id)
    requires id in books
    ensures Held(books[id := b], buyer) == Held(books, buyer) - HeldBy(books, buyer)(id) + HeldBy(books[id := b], buyer)(id)
  {
    assert books[id := b].Keys == books.Keys;
    TotalUpdate(books.Keys, HeldBy(books, buyer), HeldBy(books[id := b], buyer), id);
  }

  lemma HeldInsert(books: map<Id, Book>, id: Id, b: Book, buyer: Id)
    requires id !in books
    ensures Held(books[id := b], buyer) == Held(books, buyer) + HeldBy(books[id := b], buyer)(id)
  {
    assert books[id := b].Keys == books.Keys + {id};
    TotalInsert(books.Keys, HeldBy(books, buyer), HeldBy(books[id := b], buyer), id);
  }

  lemma SpentInsert(receipts: map<Key, ReceiptRow>, k: Key, row: ReceiptRow, buyer: Id)
    requires k !in receipts
    ensures Spent(receipts[k := row], buyer) == Spent(receipts, buyer) + if k.0 == buyer then row.receipt.units else 0
    ensures AllReceipts(receipts[k := row]) == AllReceipts(receipts) + row.receipt.units
  {
    assert receipts[k := row].Keys == receipts.Keys + {k};
    TotalInsert(receipts.Keys, SpentBy(receipts, buyer), SpentBy(receipts[k := row], buyer), k);
    TotalInsert(receipts.Keys, ReceiptUnits(receipts), ReceiptUnits(receipts[k := row]), k);
  }

  lemma OwedRedeem(items: map<Key, Item>, redeemed: set<Key>, k: Key, book: Id)
    requires k in items && k !in redeemed
    ensures Owed(items, redeemed + {k}, book) == Owed(items, redeemed, book) - if k.0 == book then items[k].units else 0
  {
    TotalUpdate(items.Keys, Unredeemed(items, redeemed, book), Unredeemed(items, redeemed + {k}, book), k);
  }

  lemma OwedInsert(items: map<Key, Item>, redeemed: set<Key>, k: Key, item: Item, book: Id)
    requires k !in items && k !in redeemed
    ensures Owed(items[k := item], redeemed, book) == Owed(items, redeemed, book) + if k.0 == book then item.units else 0
  {
    assert items[k := item].Keys == items.Keys + {k};
    TotalInsert(items.Keys, Unredeemed(items, redeemed, book), Unredeemed(items[k := item], redeemed, book), k);
  }

  lemma OwedNonnegative(items: map<Key, Item>, redeemed: set<Key>, book: Id)
    requires forall k | k in items :: items[k].units >= 0
    ensures Owed(items, redeemed, book) >= 0
    ensures forall k | k in items && k.0 == book && k !in redeemed :: items[k].units <= Owed(items, redeemed, book)
  {
    var w := Unredeemed(items, redeemed, book);
    TotalNonnegative(items.Keys, w);
    forall k | k in items && k.0 == book && k !in redeemed
      ensures items[k].units <= Total(items.Keys, w)
    {
      TotalAtLeast(items.Keys, w, k);
    }
  }

  ghost predicate AllNonnegative(books: map<Id, Book>) {
    forall b | b in books :: books[b].remaining >= 0
  }

  lemma RemainingNonnegative(books: map<Id, Book>, items: map<Key, Item>, redeemed: set<Key>)
    requires BooksHold(books, items, redeemed) && forall k | k in items :: items[k].units >= 0
    ensures AllNonnegative(books)
  {
    forall b | b in books
      ensures books[b].remaining >= 0
    {
      OwedNonnegative(items, redeemed, b);
    }
  }

  lemma HeldAtLeast(books: map<Id, Book>, id: Id)
    requires AllNonnegative(books) && id in books
    ensures books[id].remaining <= Held(books, books[id].buyer)
  {
    TotalAtLeast(books.Keys, HeldBy(books, books[id].buyer), id);
  }

  /** In a conserving state every book's remaining is nonnegative and within its buyer's reservation. */
  lemma RemainingIsReserved(t: Tables, id: Id)
    requires Inv(t) && id in t.books
    ensures t.books[id].buyer in t.accounts
    ensures 0 <= t.books[id].remaining <= t.accounts[t.books[id].buyer].reserved
  {
    RemainingNonnegative(t.books, t.items, t.redeemed);
    HeldAtLeast(t.books, id);
  }

  lemma IndexedInsert(receipts: map<Key, ReceiptRow>, redeemed: set<Key>, key: Key, row: ReceiptRow)
    requires Indexed(receipts, redeemed) && key !in receipts && IndexEntry(row.receipt) !! redeemed
    ensures Indexed(receipts[key := row], redeemed + IndexEntry(row.receipt))
  {
    var receipts' := receipts[key := row];
    forall k, k' | k in receipts' && k' in receipts' && SameItem(receipts'[k].receipt, receipts'[k'].receipt)
      ensures k == k'
    {
      assert IndexEntry(receipts'[k].receipt) == IndexEntry(receipts'[k'].receipt) != {};
    }
    forall p | p in redeemed + IndexEntry(row.receipt)
      ensures exists k :: k in receipts' && IndexEntry(receipts'[k].receipt) == {p}
    {
      if p in redeemed {
        var k :| k in receipts && IndexEntry(receipts[k].receipt) == {p};
        assert k in receipts' && receipts'[k] == receipts[k];
      } else {
        assert key in receipts' && IndexEntry(receipts'[key].receipt) == {p};
      }
    }
  }

  // ----- Seeding and revoking

  lemma NewAccountHolds(accounts: map<Id, Account>, books: map<Id, Book>, receipts: map<Key, ReceiptRow>, buyer: Id, units: int)
    requires AccountsHold(accounts, books, receipts) && buyer !in accounts && units >= 0
    requires forall b | b in books :: books[b].buyer in accounts
    requires forall k | k in receipts :: k.0 in accounts
    ensures AccountsHold(accounts[buyer := Account(units, units, 0, 0)], books, receipts)
  {
    NothingHeldOrSpent(books, receipts, buyer);
    hide Held, Spent;
  }

  lemma NothingHeldOrSpent(books: map<Id, Book>, receipts: map<Key, ReceiptRow>, buyer: Id)
    requires forall b | b in books :: books[b].buyer != buyer
    requires forall k | k in receipts :: k.0 != buyer
    ensures Held(books, buyer) == 0 && Spent(receipts, buyer) == 0
  {
    TotalZero(books.Keys, HeldBy(books, buyer));
    TotalZero(receipts.Keys, SpentBy(receipts, buyer));
  }

  lemma SeedKeepsInv(t: Tables, buyer: Id, units: int)
    requires Inv(t)
    ensures Inv(Seed(t, buyer, units).0)
  {
    if Seed(t, buyer, units).1.Ok? {
      NewAccountHolds(t.accounts, t.books, t.receipts, buyer, units);
    }
  }

  lemma RevokeKeepsInv(t: Tables, kid: Id)
    requires Inv(t)
    ensures Inv(Revoke(t, kid))
  {
  }

  // ----- Spending

  /** The accounts after one receipt: `held` units leave the buyer's books, the receipt's units are spent. */
  lemma SpendAccounts(accounts: map<Id, Account>, books: map<Id, Book>, books': map<Id, Book>, receipts: map<Key, ReceiptRow>,
                      buyer: Id, a: Account, key: Key, row: ReceiptRow, held: int)
    requires AccountsHold(accounts, books, receipts) && buyer in accounts && key !in receipts && key.0 == buyer
    requires Held(books', buyer) == Held(books, buyer) - held
    requires forall b | b != buyer :: Held(books', b) == Held(books, b)
    requires AccountHolds(a) && a.reserved == accounts[buyer].reserved - held
    requires a.spent == accounts[buyer].spent + row.receipt.units
    ensures AccountsHold(accounts[buyer := a], books', receipts[key := row])
  {
    hide Held, Spent, AllReceipts;
    forall b | b in accounts[buyer := a]
      ensures Spent(receipts[key := row], b) == Spent(receipts, b) + if b == buyer then row.receipt.units else 0
    {
      SpentInsert(receipts, key, row, b);
    }
  }

  lemma HeldAfterPut(books: map<Id, Book>, id: Id, b: Book)
    requires id in books && b.buyer == books[id].buyer
    ensures forall buyer :: Held(books[id := b], buyer)
              == Held(books, buyer) - if buyer == b.buyer then books[id].remaining - b.remaining else 0
  {
    forall buyer
      ensures Held(books[id := b], buyer)
           == Held(books, buyer) - if buyer == b.buyer then books[id].remaining - b.remaining else 0
    {
      HeldPut(books, id, b, buyer);
    }
  }

  lemma RedeemBooks(books: map<Id, Book>, items: map<Key, Item>, redeemed: set<Key>, k: Key, b': Book, units: int)
    requires BooksHold(books, items, redeemed) && k in items && k !in redeemed && k.0 in books && !books[k.0].closed
    requires b' == books[k.0].(remaining := books[k.0].remaining - units) && units == items[k].units
    ensures BooksHold(books[k.0 := b'], items, redeemed + {k})
  {
    forall id | id in books[k.0 := b']
      ensures Owed(items, redeemed + {k}, id) == Owed(items, redeemed, id) - if k.0 == id then units else 0
    {
      OwedRedeem(items, redeemed, k, id);
    }
  }

  ghost predicate CatalogHolds(c: Config) {
    forall r | r in c.catalog :: c.catalog[r].units >= 0
  }

  /** One redemption from a book moves the same units out of the book, the reservation and into the receipts. */
  lemma BookSpendConserves(accounts: map<Id, Account>, books: map<Id, Book>, items: map<Key, Item>,
                           receipts: map<Key, ReceiptRow>, redeemed: set<Key>, accrued: int,
                           key: Key, row: ReceiptRow, id: Id, units: int)
    requires Conserved(accounts, books, items, receipts, redeemed, accrued)
    requires key !in receipts && row.receipt.units == units && ReceiptMatches(items, row.receipt)
    requires row.receipt.book == Some(id) && id in books && books[id].buyer == key.0 && !books[id].closed
    requires (id, row.receipt.resource) !in redeemed
    requires key.0 in accounts && AccountHolds(SpendReserved(accounts[key.0], units))
    ensures Conserved(accounts[key.0 := SpendReserved(accounts[key.0], units)], books[id := Draw(books[id], units)], items,
                      receipts[key := row], redeemed + {(id, row.receipt.resource)}, accrued + units)
  {
    hide Held, Spent, AllReceipts, Owed;
    SpentInsert(receipts, key, row, key.0);
    HeldAfterPut(books, id, Draw(books[id], units));
    SpendAccounts(accounts, books, books[id := Draw(books[id], units)], receipts, key.0,
                  SpendReserved(accounts[key.0], units), key, row, units);
    RedeemBooks(books, items, redeemed, (id, row.receipt.resource), Draw(books[id], units), units);
  }

  lemma DirectSpendConserves(accounts: map<Id, Account>, books: map<Id, Book>, items: map<Key, Item>,
                             receipts: map<Key, ReceiptRow>, redeemed: set<Key>, accrued: int,
                             key: Key, row: ReceiptRow, units: int)
    requires Conserved(accounts, books, items, receipts, redeemed, accrued)
    requires key !in receipts && row.receipt.units == units >= 0 && row.receipt.book.None?
    requires key.0 in accounts && AccountHolds(SpendAvailable(accounts[key.0], units))
    ensures Conserved(accounts[key.0 := SpendAvailable(accounts[key.0], units)], books, items,
                      receipts[key := row], redeemed, accrued + units)
  {
    hide Held, Spent, AllReceipts, Owed;
    SpentInsert(receipts, key, row, key.0);
    SpendAccounts(accounts, books, books, receipts, key.0, SpendAvailable(accounts[key.0], units), key, row, 0);
  }

  lemma AccountRowHolds(t: Tables, buyer: Id)
    requires Inv(t) && buyer in t.accounts
    ensures AccountHolds(t.accounts[buyer])
  {
    hide Held, Spent;
  }

  lemma ReceiptsNonnegative(t: Tables)
    requires Inv(t)
    ensures t.accrued >= 0
  {
    TotalNonnegative(t.receipts.Keys, ReceiptUnits(t.receipts));
  }

  /** An allowed purchase from a book is covered by the book and by the buyer's reservation: no constraint stops it. */
  lemma BookSpendFits(t: Tables, q: SpendRequest, units: int, clock: int)
    requires Inv(t) && q.book.Some? && BookAllows(t, q, units, clock)
    ensures q.buyer in t.accounts && BookSpendHolds(t, q, units)
  {
    hide Held, Spent, AllReceipts, Owed;
    OwedNonnegative(t.items, t.redeemed, q.book.value);
    RemainingIsReserved(t, q.book.value);
    ReceiptsNonnegative(t);
  }

  /** Every purchase conserves, and none runs into a constraint. */
  lemma SpendKeepsInv(c: Config, t: Tables, q: SpendRequest, clock: int, committedAt: int, receiptId: Id)
    requires Inv(t) && CatalogHolds(c)
    ensures Inv(Spend(c, t, q, clock, committedAt, receiptId).0)
    ensures !Spend(c, t, q, clock, committedAt, receiptId).1.Raised?
  {
    hide Held, Spent, AllReceipts, Owed, References, BooksHold, AccountsHold;
    var key := (q.buyer, q.requestId);
    if ValidSpend(c.catalog, q) && key !in t.receipts {
      var units := c.catalog[q.resource].units;
      var receipt := Receipt(receiptId, q.buyer, q.book, q.resource, q.content, q.terms, units, committedAt);
      var row := ReceiptRow(SpendFingerprint(c, q), receipt);
      ReceiptsNonnegative(t);
      if q.book.Some? {
        if BookAllows(t, q, units, clock) {
          BookSpendFits(t, q, units, clock);
          BookSpendConserves(t.accounts, t.books, t.items, t.receipts, t.redeemed, t.accrued, key, row, q.book.value, units);
        }
      } else if q.buyer in t.accounts && t.accounts[q.buyer].available >= units {
        AccountRowHolds(t, q.buyer);
        DirectSpendConserves(t.accounts, t.books, t.items, t.receipts, t.redeemed, t.accrued, key, row, units);
      }
    }
  }

  // ----- Cancelling

  /** The accounts after a release: `held` units leave the buyer's books and become available again. */
  lemma ReleaseAccounts(accounts: map<Id, Account>, books: map<Id, Book>, books': map<Id, Book>,
                        receipts: map<Key, ReceiptRow>, buyer: Id, held: int)
    requires AccountsHold(accounts, books, receipts)
    requires forall b :: Held(books', b) == Held(books, b) - if b == buyer then held else 0
    requires ReleaseHolds(accounts, buyer, held)
    ensures AccountsHold(WithRelease(accounts, buyer, held), books', receipts)
  {
    hide Held, Spent;
  }

  lemma CloseBook(books: map<Id, Book>, items: map<Key, Item>, redeemed: set<Key>, id: Id)
    requires BooksHold(books, items, redeemed) && id in books
    ensures BooksHold(books[id := Close(books[id])], items, redeemed)
  {
    hide Owed;
  }

  /** Closing one book releases its remaining units to the buyer who holds it. */
  lemma CancelConserves(t: Tables, buyer: Id, book: Id)
    requires Inv(t) && book in t.books && t.books[book].buyer == buyer
    ensures buyer in t.accounts && ReleaseHolds(t.accounts, buyer, t.books[book].remaining)
    ensures Conserved(WithRelease(t.accounts, buyer, t.books[book].remaining), t.books[book := Close(t.books[book])],
                      t.items, t.receipts, t.redeemed, t.accrued)
  {
    hide Held, Spent, AllReceipts, Owed;
    RemainingIsReserved(t, book);
    AccountRowHolds(t, buyer);
    HeldAfterPut(t.books, book, Close(t.books[book]));
    ReleaseAccounts(t.accounts, t.books, t.books[book := Close(t.books[book])], t.receipts, buyer, t.books[book].remaining);
    CloseBook(t.books, t.items, t.redeemed, book);
  }

  lemma CancelKeepsInv(t: Tables, buyer: Id, book: Id)
    requires Inv(t)
    ensures Inv(Cancel(t, buyer, book).0) && !Cancel(t, buyer, book).1.Raised?
  {
    hide Held, Spent, AllReceipts, Owed, References, BooksHold, AccountsHold;
    if book in t.books && t.books[book].buyer == buyer {
      CancelConserves(t, buyer, book);
    }
  }

  /** Closing different books of one buyer releases exactly what they held together. This needs the list to be free of
      duplicates: a repeated book would be counted twice but closed once. */
  lemma {:induction false} CloseAllHeld(books: map<Id, Book>, items: map<Key, Item>, redeemed: set<Key>, buyer: Id, ids: seq<Id>)
    requires BooksHold(books, items, redeemed) && NoDuplicates(ids)
    requires forall b | b in ids :: b in books && books[b].buyer == buyer
    ensures forall b :: Held(CloseAll(books, ids), b) == Held(books, b) - if b == buyer then Remaining(books, ids) else 0
    ensures BooksHold(CloseAll(books, ids), items, redeemed)
    ensures forall b | b in books && b !in ids :: CloseAll(books, ids)[b] == books[b]
    ensures forall b | b in books :: CloseAll(books, ids)[b].buyer == books[b].buyer
  {
    hide Held, Owed;
    if ids != [] {
      var init, last := ids[..|ids| - 1], ids[|ids| - 1];
      assert ids == init + [last];
      CloseAllHeld(books, items, redeemed, buyer, init);
      var closed := CloseAll(books, init);
      assert last !in init;
      HeldAfterPut(closed, last, Close(closed[last]));
      CloseBook(closed, items, redeemed, last);
    }
  }

  lemma {:induction false} RemainingNonnegativeSum(books: map<Id, Book>, ids: seq<Id>)
    requires AllNonnegative(books) && forall b | b in ids :: b in books
    ensures Remaining(books, ids) >= 0
  {
    if ids != [] {
      RemainingNonnegativeSum(books, ids[..|ids| - 1]);
    }
  }

  lemma HeldNonnegative(books: map<Id, Book>, buyer: Id)
    requires AllNonnegative(books)
    ensures Held(books, buyer) >= 0
  {
    TotalNonnegative(books.Keys, HeldBy(books, buyer));
  }

  /** A batch of different books of one buyer holds between nothing and the buyer's whole reservation. */
  lemma CancelManyFits(t: Tables, buyer: Id, ids: seq<Id>)
    requires Inv(t) && OwnsAll(t, buyer, ids) && NoDuplicates(ids)
    ensures ReleaseHolds(t.accounts, buyer, Remaining(t.books, ids))
  {
    hide Held, Spent, AllReceipts, Owed;
    RemainingNonnegative(t.books, t.items, t.redeemed);
    RemainingNonnegativeSum(t.books, ids);
    CloseAllHeld(t.books, t.items, t.redeemed, buyer, ids);
    RemainingNonnegative(CloseAll(t.books, ids), t.items, t.redeemed);
    HeldNonnegative(CloseAll(t.books, ids), buyer);
  }

  lemma CancelManyConserves(t: Tables, buyer: Id, ids: seq<Id>)
    requires Inv(t) && OwnsAll(t, buyer, ids) && NoDuplicates(ids)
    ensures ReleaseHolds(t.accounts, buyer, Remaining(t.books, ids))
    ensures Conserved(WithRelease(t.accounts, buyer, Remaining(t.books, ids)), CloseAll(t.books, ids),
                      t.items, t.receipts, t.redeemed, t.accrued)
  {
    hide Held, Spent, AllReceipts, Owed;
    CancelManyFits(t, buyer, ids);
    CloseAllHeld(t.books, t.items, t.redeemed, buyer, ids);
    ReleaseAccounts(t.accounts, t.books, CloseAll(t.books, ids), t.receipts, buyer, Remaining(t.books, ids));
  }

  lemma CancelManyKeepsInv(c: Config, t: Tables, buyer: Id, requestId: Id, books: seq<Id>)
    requires Inv(t)
    ensures Inv(CancelMany(c, t, buyer, requestId, books).0) && !CancelMany(c, t, buyer, requestId, books).1.Raised?
  {
    hide Held, Spent, AllReceipts, Owed, References, BooksHold, AccountsHold;
    if OwnsAll(t, buyer, Sorted(books)) && NoDuplicates(Sorted(books)) {
      CancelManyConserves(t, buyer, Sorted(books));
    }
  }

  // ----- Issuing

  predicate Lists(lines: seq<Line>, resource: Id) {
    exists j :: 0 <= j < |lines| && lines[j].resource == resource
  }

  predicate LinesHold(lines: seq<Line>) {
    DistinctLines(lines) && forall l | l in lines :: l.units >= 0
  }

  lemma {:induction false} AddItemsKeys(items: map<Key, Item>, book: Id, lines: seq<Line>)
    ensures forall k :: k in AddItems(items, book, lines) <==> k in items || (k.0 == book && Lists(lines, k.1))
  {
    if lines != [] {
      var init, last := lines[..|lines| - 1], lines[|lines| - 1];
      AddItemsKeys(items, book, init);
      forall r
        ensures Lists(lines, r) <==> Lists(init, r) || r == last.resource
      {
        if Lists(init, r) {
          var j :| 0 <= j < |init| && init[j].resource == r;
          assert lines[j].resource == r;
        }
        assert lines[|lines| - 1] == last;
      }
    }
  }

  /** Listing a new book's lines as items makes it owe exactly their units, and no other book more. */
  lemma {:induction false} AddItemsOwed(items: map<Key, Item>, redeemed: set<Key>, book: Id, lines: seq<Line>)
    requires LinesHold(lines) && (forall k | k in items :: k.0 != book) && forall k | k in redeemed :: k in items
    ensures forall b :: Owed(AddItems(items, book, lines), redeemed, b)
                     == Owed(items, redeemed, b) + if b == book then Units(lines) else 0
    ensures forall k | k in AddItems(items, book, lines) ::
              if k in items then AddItems(items, book, lines)[k] == items[k]
              else k.0 == book && AddItems(items, book, lines)[k].units >= 0
  {
    hide Owed;
    if lines != [] {
      var init, last := lines[..|lines| - 1], lines[|lines| - 1];
      assert LinesHold(init);
      AddItemsOwed(items, redeemed, book, init);
      AddItemsKeys(items, book, init);
      var k := (book, last.resource);
      assert !Lists(init, last.resource);
      var added := AddItems(items, book, init);
      forall b
        ensures Owed(added[k := Item(last.content, last.terms, last.units)], redeemed, b)
             == Owed(added, redeemed, b) + if b == book then last.units else 0
      {
        OwedInsert(added, redeemed, k, Item(last.content, last.terms, last.units), b);
      }
    }
  }

  lemma OwedByNone(items: map<Key, Item>, redeemed: set<Key>, book: Id)
    requires forall k | k in items :: k.0 != book
    ensures Owed(items, redeemed, book) == 0
  {
    TotalZero(items.Keys, Unredeemed(items, redeemed, book));
  }

  /** One more book with its items. */
  lemma AddBookHolds(accounts: map<Id, Account>, books: map<Id, Book>, items: map<Key, Item>, receipts: map<Key, ReceiptRow>,
                     redeemed: set<Key>, id: Id, b: Book, lines: seq<Line>)
    requires References(accounts, books, items, receipts) && BooksHold(books, items, redeemed)
    requires forall k | k in redeemed :: k in items
    requires id !in books && b.buyer in accounts && !b.closed && b.remaining == Units(lines) && LinesHold(lines)
    ensures References(accounts, books[id := b], AddItems(items, id, lines), receipts)
    ensures BooksHold(books[id := b], AddItems(items, id, lines), redeemed)
    ensures forall k | k in redeemed :: k in AddItems(items, id, lines)
    ensures forall buyer :: Held(books[id := b], buyer) == Held(books, buyer) + if buyer == b.buyer then Units(lines) else 0
  {
    hide Held, Owed, AddItems, Units;
    AddItemsOwed(items, redeemed, id, lines);
    AddItemsKeys(items, id, lines);
    OwedByNone(items, redeemed, id);
    forall buyer
      ensures Held(books[id := b], buyer) == Held(books, buyer) + if buyer == b.buyer then b.remaining else 0
    {
      HeldInsert(books, id, b, buyer);
    }
  }

  /** The preparations that can reach the second transaction: no negative price, no resource twice in one book. */
  ghost predicate PreparedHolds(p: Prepared) {
    WellFormed(p) && forall m | m in p.manifests :: LinesHold(m)
  }

  lemma {:induction false} AddBooksHold(accounts: map<Id, Account>, books: map<Id, Book>, items: map<Key, Item>,
                                        receipts: map<Key, ReceiptRow>, redeemed: set<Key>, p: Prepared, n: nat)
    requires References(accounts, books, items, receipts) && BooksHold(books, items, redeemed)
    requires forall k | k in redeemed :: k in items
    requires PreparedHolds(p) && p.buyer in accounts && n <= |p.ids| && Insertable(books, p)
    ensures References(accounts, AddBooks(books, p, n), AddAllItems(items, p, n), receipts)
    ensures BooksHold(AddBooks(books, p, n), AddAllItems(items, p, n), redeemed)
    ensures forall k | k in redeemed :: k in AddAllItems(items, p, n)
    ensures forall b | b in AddBooks(books, p, n) :: b in books || b in p.ids[..n]
    ensures forall buyer :: Held(AddBooks(books, p, n), buyer)
              == Held(books, buyer) + if buyer == p.buyer then UnitsOfAll(p.manifests[..n]) else 0
  {
    hide Held, Owed, References, BooksHold, AddItems, Units, LinesHold;
    if n > 0 {
      AddBooksHold(accounts, books, items, receipts, redeemed, p, n - 1);
      assert p.manifests[..n][..n - 1] == p.manifests[..n - 1];
      var id, lines := p.ids[n - 1], p.manifests[n - 1];
      assert lines in p.manifests;
      assert id !in p.ids[..n - 1];
      AddBookHolds(accounts, AddBooks(books, p, n - 1), AddAllItems(items, p, n - 1), receipts, redeemed, id,
                   NewBook(p, n - 1), lines);
      assert forall b | b in p.ids[..n - 1] :: b in p.ids[..n];
      assert p.ids[..n][n - 1] == id;
    }
  }

  /** The accounts after a reservation. */
  lemma ReserveAccounts(accounts: map<Id, Account>, books: map<Id, Book>, books': map<Id, Book>,
                        receipts: map<Key, ReceiptRow>, buyer: Id, units: int)
    requires AccountsHold(accounts, books, receipts) && buyer in accounts && AccountHolds(Reserve(accounts[buyer], units))
    requires forall b :: Held(books', b) == Held(books, b) + if b == buyer then units else 0
    ensures AccountsHold(accounts[buyer := Reserve(accounts[buyer], units)], books', receipts)
  {
    hide Held, Spent;
  }

  lemma IssueConserves(t: Tables, p: Prepared)
    requires Inv(t) && PreparedHolds(p) && p.buyer in t.accounts && Insertable(t.books, p)
    requires AccountHolds(Reserve(t.accounts[p.buyer], UnitsOfAll(p.manifests)))
    ensures Inv(AfterIssue(t, p))
  {
    hide Held, Spent, AllReceipts, Owed, AddBooks, AddAllItems;
    AddBooksHold(t.accounts, t.books, t.items, t.receipts, t.redeemed, p, |p.ids|);
    assert p.manifests[..|p.ids|] == p.manifests;
    ReserveAccounts(t.accounts, t.books, AddBooks(t.books, p, |p.ids|), t.receipts, p.buyer, UnitsOfAll(p.manifests));
    ReferencesReserve(t, p);
  }

  lemma ReferencesReserve(t: Tables, p: Prepared)
    requires WellFormed(p) && p.buyer in t.accounts
    requires References(t.accounts, AddBooks(t.books, p, |p.ids|), AddAllItems(t.items, p, |p.ids|), t.receipts)
    ensures References(t.accounts[p.buyer := Reserve(t.accounts[p.buyer], UnitsOfAll(p.manifests))],
                       AddBooks(t.books, p, |p.ids|), AddAllItems(t.items, p, |p.ids|), t.receipts)
  {
    hide AddBooks, AddAllItems;
  }

  lemma {:induction false} UnitsNonnegative(lines: seq<Line>)
    requires forall l | l in lines :: l.units >= 0
    ensures Units(lines) >= 0
  {
    if lines != [] {
      UnitsNonnegative(lines[..|lines| - 1]);
    }
  }

  lemma {:induction false} AllUnitsNonnegative(manifests: seq<seq<Line>>)
    requires forall m | m in manifests :: LinesHold(m)
    ensures UnitsOfAll(manifests) >= 0
  {
    if manifests != [] {
      var last := manifests[|manifests| - 1];
      assert last in manifests;
      AllUnitsNonnegative(manifests[..|manifests| - 1]);
      UnitsNonnegative(last);
    }
  }

  /** Some new id repeats, or is already a book. */
  predicate IdsClash(t: Tables, p: Prepared) {
    !NoDuplicates(p.ids) || exists i :: 0 <= i < |p.ids| && p.ids[i] in t.books
  }

  /** Committing an issuance conserves whatever happened since its preparation; only a clash of new ids stops it. */
  lemma CommitIssueKeepsInv(t: Tables, p: Prepared, clock: int)
    requires Inv(t) && PreparedHolds(p)
    ensures Inv(CommitIssue(t, p, clock).0)
    ensures CommitIssue(t, p, clock).1.Raised? ==> IdsClash(t, p)
  {
    hide Held, Spent, AllReceipts, Owed, References, BooksHold, AccountsHold, AfterIssue;
    AllUnitsNonnegative(p.manifests);
    if p.buyer in t.accounts && t.accounts[p.buyer].available >= UnitsOfAll(p.manifests) {
      AccountRowHolds(t, p.buyer);
      forall i | 0 <= i < |p.ids|
        ensures Units(p.manifests[i]) >= 0 && DistinctLines(p.manifests[i])
      {
        assert p.manifests[i] in p.manifests;
        UnitsNonnegative(p.manifests[i]);
      }
      if Insertable(t.books, p) {
        IssueConserves(t, p);
      }
    }
  }

  // ----- Preparing

  lemma {:induction false} ManifestsHold(c: Config, books: seq<seq<Id>>)
    requires CatalogHolds(c) && forall g | g in books :: ValidGroup(c.catalog, g)
    ensures forall m | m in Manifests(c.catalog, books) :: LinesHold(m)
  {
    if books != [] {
      var init, last := books[..|books| - 1], books[|books| - 1];
      ManifestsHold(c, init);
      SortedMembers(last);
      assert ValidGroup(c.catalog, last);
      assert LinesHold(Manifest(c.catalog, Sorted(last)));
    }
  }

  /** Every preparation can be committed without breaking a row constraint. */
  lemma PreparationHolds(c: Config, t: Tables, q: IssueRequest, now: int, minted: Option<Minted>)
    requires CatalogHolds(c)
    ensures PrepareIssue(c, t, q, now, minted).Ok? && PrepareIssue(c, t, q, now, minted).value.Ready? ==>
              PreparedHolds(PrepareIssue(c, t, q, now, minted).value.prepared)
  {
    hide LinesHold;
    if ValidIssue(c.catalog, q) {
      ManifestsHold(c, q.books);
    }
  }
}
