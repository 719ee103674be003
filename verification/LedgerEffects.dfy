/** When each operation of the online ledger succeeds, and what it then changes, in terms of the request and the rows. */
module LedgerEffects {
  import opened Options
  import opened Identifiers
  import opened LedgerTables
  import opened HttpLedger
  import opened LedgerInvariant

  // ----- Names, groups and prices

  /** Between 1 and 96 letters, digits, dots, underscores and hyphens. */
  predicate Named(id: Id) {
    && 1 <= |id.text| <= 96
    && forall i | 0 <= i < |id.text| ::
         var c := id.text[i];
         'a' <= c <= 'z' || 'A' <= c <= 'Z' || '0' <= c <= '9' || c == '.' || c == '_' || c == '-'
  }

  lemma NamedExactly(id: Id)
    ensures IsIdentifier(id) <==> Named(id)
  {
    if Named(id) {
      forall c | c in id.text
        ensures IsNameChar(c)
      {
        var i :| 0 <= i < |id.text| && id.text[i] == c;
      }
    }
    if IsIdentifier(id) {
      forall i | 0 <= i < |id.text|
        ensures IsNameChar(id.text[i])
      {
        assert id.text[i] in id.text;
      }
    }
  }

  /** Every entry differs from every other. */
  predicate Different(s: seq<Id>) {
    forall i, j | 0 <= i < j < |s| :: s[i] != s[j]
  }

  lemma {:induction false} DifferentCounts(s: seq<Id>)
    ensures Different(s) <==> forall x | x in s :: multiset(s)[x] == 1
  {
    if s != [] {
      var rest := s[1..];
      DifferentCounts(rest);
      assert s == [s[0]] + rest;
      if Different(s) {
        assert s[0] !in rest;
        forall x | x in s
          ensures multiset(s)[x] == 1
        {
          if x != s[0] {
            assert x in rest && multiset(rest)[x] == 1;
          }
        }
      }
      if forall x | x in s :: multiset(s)[x] == 1 {
        assert multiset(s)[s[0]] == 1;
        assert s[0] !in multiset(rest) && s[0] !in rest;
        forall x | x in rest
          ensures multiset(rest)[x] == 1
        {
          assert x in s && x != s[0];
        }
        forall i, j | 0 <= i < j < |s|
          ensures s[i] != s[j]
        {
          assert s[j] == rest[j - 1];
          if i > 0 {
            assert s[i] == rest[i - 1];
          }
        }
      }
    }
  }

  lemma SortedDifferent(s: seq<Id>)
    ensures NoDuplicates(Sorted(s)) <==> Different(s)
  {
    DifferentCounts(s);
    DifferentCounts(Sorted(s));
    SortedMembers(s);
    assert NoDuplicates(Sorted(s)) <==> Different(Sorted(s));
  }

  /** What the resources of a group cost together. */
  function Price(catalog: Catalog, group: seq<Id>): int
    requires forall r | r in group :: r in catalog
  {
    if group == [] then 0 else catalog[group[0]].units + Price(catalog, group[1..])
  }

  lemma {:induction false} InsertPrice(catalog: Catalog, x: Id, s: seq<Id>)
    requires x in catalog && forall r | r in s :: r in catalog
    ensures forall r | r in Insert(x, s) :: r in catalog
    ensures Price(catalog, Insert(x, s)) == catalog[x].units + Price(catalog, s)
  {
    forall r | r in Insert(x, s)
      ensures r in catalog
    {
      assert r in multiset(Insert(x, s));
    }
    if s != [] && !AtMost(x.text, s[0].text) {
      InsertPrice(catalog, x, s[1..]);
      assert Insert(x, s) == [s[0]] + Insert(x, s[1..]);
      assert Insert(x, s)[1..] == Insert(x, s[1..]);
    } else {
      assert Insert(x, s) == [x] + s;
      assert Insert(x, s)[1..] == s;
    }
  }

  lemma {:induction false} SortedPrice(catalog: Catalog, s: seq<Id>)
    requires forall r | r in s :: r in catalog
    ensures (forall r | r in Sorted(s) :: r in catalog) && Price(catalog, Sorted(s)) == Price(catalog, s)
  {
    if s != [] {
      SortedPrice(catalog, s[1..]);
      InsertPrice(catalog, s[0], Sorted(s[1..]));
    }
  }

  lemma {:induction false} PriceSnoc(catalog: Catalog, s: seq<Id>)
    requires s != [] && forall r | r in s :: r in catalog
    ensures Price(catalog, s) == Price(catalog, s[..|s| - 1]) + catalog[s[|s| - 1]].units
    decreases |s|
  {
    if |s| > 1 {
      PriceSnoc(catalog, s[1..]);
      assert s[1..][..|s| - 2] == s[..|s| - 1][1..];
    }
  }

  lemma {:induction false} ManifestPrice(catalog: Catalog, names: seq<Id>)
    requires forall r | r in names :: r in catalog
    ensures Units(Manifest(catalog, names)) == Price(catalog, names)
    decreases |names|
  {
    if names != [] {
      var init := names[..|names| - 1];
      ManifestPrice(catalog, init);
      PriceSnoc(catalog, names);
      assert Manifest(catalog, names)[..|names| - 1] == Manifest(catalog, init);
    }
  }

  predicate InCatalog(catalog: Catalog, books: seq<seq<Id>>) {
    forall i | 0 <= i < |books| :: forall r | r in books[i] :: r in catalog
  }

  /** What an order costs. */
  function OrderPrice(catalog: Catalog, books: seq<seq<Id>>): int
    requires InCatalog(catalog, books)
  {
    if books == [] then 0
    else
      var last := |books| - 1;
      OrderPrice(catalog, books[..last]) + Price(catalog, books[last])
  }

  lemma {:induction false} ManifestsPrice(catalog: Catalog, books: seq<seq<Id>>)
    requires forall g | g in books :: ValidGroup(catalog, g)
    ensures InCatalog(catalog, books) && UnitsOfAll(Manifests(catalog, books)) == OrderPrice(catalog, books)
    decreases |books|
  {
    assert InCatalog(catalog, books) by {
      assert forall i | 0 <= i < |books| :: books[i] in books;
    }
    if books != [] {
      var init, last := books[..|books| - 1], books[|books| - 1];
      ManifestsPrice(catalog, init);
      SortedPrice(catalog, last);
      ManifestPrice(catalog, Sorted(last));
      assert Manifests(catalog, books) == Manifests(catalog, init) + [Manifest(catalog, Sorted(last))];
      assert Manifests(catalog, books)[..|books| - 1] == Manifests(catalog, init);
    }
  }

  // ----- Accounts, cell by cell

  predicate OnlyAccount(before: map<Id, Account>, after: map<Id, Account>, buyer: Id, available: int, reserved: int, spent: int)
    requires buyer in before
  {
    after == before[buyer := Account(before[buyer].initial, available, reserved, spent)]
  }

  /** Seeding opens a new account with the whole amount available. */
  lemma SeedExactly(t: Tables, buyer: Id, units: int)
    ensures var (t', r) := Seed(t, buyer, units);
            && (r.Ok? <==> Named(buyer) && 1 <= units <= 1000000000000 && buyer !in t.accounts)
            && (r.Denied? <==> !(Named(buyer) && 1 <= units <= 1000000000000))
            && t' == if r.Ok? then t.(accounts := t.accounts[buyer := Account(units, units, 0, 0)]) else t
  {
    NamedExactly(buyer);
  }

  // ----- Spending

  /** The request names a resource with its content and terms as the catalog has them, and a budget. */
  predicate AsksFor(c: Config, q: SpendRequest) {
    && Named(q.buyer) && Named(q.requestId) && Named(q.resource) && (q.book.Some? ==> Named(q.book.value))
    && 1 <= q.maxUnits <= 1000000000000
    && q.resource in c.catalog && q.content == c.catalog[q.resource].content && q.terms == c.catalog[q.resource].terms
  }

  /** The buyer may now buy it: within the budget, and from the available balance, or from an open and current book of its
      own under a live key that lists it at this price and has not been used for it. */
  predicate CanBuy(c: Config, t: Tables, q: SpendRequest, clock: int)
    requires q.resource in c.catalog
  {
    var price := c.catalog[q.resource].units;
    && price <= q.maxUnits
    && match q.book
       case None => q.buyer in t.accounts && t.accounts[q.buyer].available >= price
       case Some(id) =>
         && id in t.books
         && var b := t.books[id];
         && b.buyer == q.buyer && q.token == Some(b.token) && !b.closed && clock >= b.issued && clock < b.expires
         && b.kid !in t.revoked
         && (id, q.resource) in t.items
         && var item := t.items[(id, q.resource)];
         && item.content == q.content && item.terms == q.terms && item.units == price
         && Unused(t.receipts, id, q.resource)
  }

  /** No receipt is for this item of this book. */
  predicate Unused(receipts: map<Key, ReceiptRow>, book: Id, resource: Id) {
    forall k | k in receipts :: receipts[k].receipt.book != Some(book) || receipts[k].receipt.resource != resource
  }

  lemma UnusedExactly(receipts: map<Key, ReceiptRow>, redeemed: set<Key>, book: Id, resource: Id)
    requires Indexed(receipts, redeemed)
    ensures (book, resource) !in redeemed <==> Unused(receipts, book, resource)
  {
    if (book, resource) in redeemed {
      var k := Redeems(receipts, redeemed, (book, resource));
    } else {
      forall k | k in receipts
        ensures receipts[k].receipt.book != Some(book) || receipts[k].receipt.resource != resource
      {
        EntryIsIndexed(receipts, redeemed, k);
      }
    }
  }

  lemma Redeems(receipts: map<Key, ReceiptRow>, redeemed: set<Key>, item: Key) returns (k: Key)
    requires Indexed(receipts, redeemed) && item in redeemed
    ensures k in receipts && receipts[k].receipt.book == Some(item.0) && receipts[k].receipt.resource == item.1
  {
    hide SameItem, IndexEntry;
    k :| k in receipts && IndexEntry(receipts[k].receipt) == {item};
    OneEntry(receipts[k].receipt, item);
  }

  lemma OneEntry(r: Receipt, item: Key)
    requires IndexEntry(r) == {item}
    ensures r.book == Some(item.0) && r.resource == item.1
  {
    assert item in IndexEntry(r);
  }

  lemma EntryIsIndexed(receipts: map<Key, ReceiptRow>, redeemed: set<Key>, k: Key)
    requires Indexed(receipts, redeemed) && k in receipts
    ensures IndexEntry(receipts[k].receipt) <= redeemed
  {
  }

  lemma AsksExactly(c: Config, q: SpendRequest)
    ensures ValidSpend(c.catalog, q) <==> AsksFor(c, q)
  {
    NamedExactly(q.buyer);
    NamedExactly(q.requestId);
    NamedExactly(q.resource);
    if q.book.Some? {
      NamedExactly(q.book.value);
    }
  }

  lemma AllowsExactly(c: Config, t: Tables, q: SpendRequest, clock: int)
    requires Indexed(t.receipts, t.redeemed) && AsksFor(c, q) && q.book.Some?
    ensures c.catalog[q.resource].units <= q.maxUnits && BookAllows(t, q, c.catalog[q.resource].units, clock)
            <==> CanBuy(c, t, q, clock)
  {
    UnusedExactly(t.receipts, t.redeemed, q.book.value, q.resource);
    hide Indexed, Named, Unused;
  }

  /** In a balanced ledger a purchase that is not on record succeeds if and only if it asks for something it can buy, and is
      denied otherwise. */
  lemma SpendExactly(c: Config, t: Tables, q: SpendRequest, clock: int, committedAt: int, receiptId: Id)
    requires Inv(t) && Indexed(t.receipts, t.redeemed) && CatalogHolds(c) && (q.buyer, q.requestId) !in t.receipts
    ensures var (t', r) := Spend(c, t, q, clock, committedAt, receiptId);
            if AsksFor(c, q) && CanBuy(c, t, q, clock) then r.Ok? && Bought(c, t, t', q, r.value, committedAt, receiptId)
            else r == Denied && t' == t
  {
    hide Held, Inv, Indexed, BookAllows, Named;
    SpendKeepsInv(c, t, q, clock, committedAt, receiptId);
    AsksExactly(c, q);
    if AsksFor(c, q) {
      if q.book.Some? {
        AllowsExactly(c, t, q, clock);
        if BookAllows(t, q, c.catalog[q.resource].units, clock) {
          BookSpendFits(t, q, c.catalog[q.resource].units, clock);
          AllowedHasBook(t, q, c.catalog[q.resource].units, clock);
        }
      } else {
        assert t.redeemed + {} == t.redeemed;
      }
    }
  }

  lemma AllowedHasBook(t: Tables, q: SpendRequest, units: int, clock: int)
    requires q.book.Some? && BookAllows(t, q, units, clock)
    ensures q.book.value in t.books
  {
  }

  /** A purchase moves its price from where it was held to what is spent and to the publisher, and writes its receipt. */
  predicate Bought(c: Config, t: Tables, t': Tables, q: SpendRequest, r: Receipt, committedAt: int, receiptId: Id) {
    && q.resource in c.catalog && q.buyer in t.accounts
    && var (a, price) := (t.accounts[q.buyer], c.catalog[q.resource].units);
    && r == Receipt(receiptId, q.buyer, q.book, q.resource, q.content, q.terms, price, committedAt)
    && t'.receipts == t.receipts[(q.buyer, q.requestId) :=
         ReceiptRow(c.digest(SpendBody(q.book, q.resource, q.content, q.terms, q.maxUnits)), r)]
    && t'.accrued == t.accrued + price
    && t'.items == t.items && t'.issues == t.issues && t'.cancellations == t.cancellations && t'.revoked == t.revoked
    && match q.book
       case None =>
         && t'.books == t.books && t'.redeemed == t.redeemed
         && OnlyAccount(t.accounts, t'.accounts, q.buyer, a.available - price, a.reserved, a.spent + price)
       case Some(id) =>
         && id in t.books && t'.redeemed == t.redeemed + {(id, q.resource)}
         && t'.books == t.books[id := t.books[id].(remaining := t.books[id].remaining - price)]
         && OnlyAccount(t.accounts, t'.accounts, q.buyer, a.available, a.reserved - price, a.spent + price)
  }

  // ----- Cancelling

  /** A cancellation succeeds if and only if the book is the buyer's. It answers the open units, which become available
      again, and closes the book; repeated, it answers zero. */
  lemma CancelExactly(t: Tables, buyer: Id, book: Id)
    requires Inv(t)
    ensures var (t', r) := Cancel(t, buyer, book);
            if Named(book) && book in t.books && t.books[book].buyer == buyer then
              && buyer in t.accounts
              && var (a, open) := (t.accounts[buyer], t.books[book].remaining);
              && r == Ok(open)
              && t' == t.(accounts := t'.accounts, books := t.books[book := t.books[book].(remaining := 0, closed := true)])
              && OnlyAccount(t.accounts, t'.accounts, buyer, a.available + open, a.reserved - open, a.spent)
            else r == Denied && t' == t
  {
    hide Inv, Named, IsIdentifier;
    NamedExactly(book);
    CancelKeepsInv(t, buyer, book);
    if book in t.books && t.books[book].buyer == buyer {
      BuyerHasAccount(t, book);
    }
  }

  lemma BuyerHasAccount(t: Tables, book: Id)
    requires Inv(t) && book in t.books
    ensures t.books[book].buyer in t.accounts
  {
    hide Held, Spent, AllReceipts, Owed;
    assert t.books[book].buyer in t.accounts;
  }

  /** The open units of the named books together. */
  function OpenUnits(books: map<Id, Book>, ids: seq<Id>): int
    requires forall b | b in ids :: b in books
  {
    if ids == [] then 0 else books[ids[0]].remaining + OpenUnits(books, ids[1..])
  }

  lemma {:induction false} InsertOpen(books: map<Id, Book>, x: Id, s: seq<Id>)
    requires x in books && forall b | b in s :: b in books
    ensures forall b | b in Insert(x, s) :: b in books
    ensures OpenUnits(books, Insert(x, s)) == books[x].remaining + OpenUnits(books, s)
  {
    forall b | b in Insert(x, s)
      ensures b in books
    {
      assert b in multiset(Insert(x, s));
    }
    if s != [] && !AtMost(x.text, s[0].text) {
      InsertOpen(books, x, s[1..]);
      assert Insert(x, s) == [s[0]] + Insert(x, s[1..]);
      assert Insert(x, s)[1..] == Insert(x, s[1..]);
    } else {
      assert Insert(x, s) == [x] + s;
      assert Insert(x, s)[1..] == s;
    }
  }

  lemma {:induction false} SortedOpen(books: map<Id, Book>, s: seq<Id>)
    requires forall b | b in s :: b in books
    ensures (forall b | b in Sorted(s) :: b in books) && OpenUnits(books, Sorted(s)) == OpenUnits(books, s)
  {
    if s != [] {
      SortedOpen(books, s[1..]);
      InsertOpen(books, s[0], Sorted(s[1..]));
    }
  }

  lemma {:induction false} OpenSnoc(books: map<Id, Book>, s: seq<Id>)
    requires s != [] && forall b | b in s :: b in books
    ensures OpenUnits(books, s) == OpenUnits(books, s[..|s| - 1]) + books[s[|s| - 1]].remaining
    decreases |s|
  {
    if |s| > 1 {
      OpenSnoc(books, s[1..]);
      assert s[1..][..|s| - 2] == s[..|s| - 1][1..];
    }
  }

  lemma {:induction false} RemainingIsOpen(books: map<Id, Book>, s: seq<Id>)
    requires forall b | b in s :: b in books
    ensures Remaining(books, s) == OpenUnits(books, s)
    decreases |s|
  {
    if s != [] {
      RemainingIsOpen(books, s[..|s| - 1]);
      OpenSnoc(books, s);
    }
  }

  lemma {:induction false} AllClosed(books: map<Id, Book>, ids: seq<Id>)
    requires forall b | b in ids :: b in books
    ensures CloseAll(books, ids).Keys == books.Keys
    ensures forall b | b in books :: CloseAll(books, ids)[b] == if b in ids then books[b].(remaining := 0, closed := true) else books[b]
    decreases |ids|
  {
    if ids != [] {
      var init, last := ids[..|ids| - 1], ids[|ids| - 1];
      AllClosed(books, init);
      assert ids == init + [last];
    }
  }

  /** The request names between 1 and 256 different books. */
  predicate NamesBooks(buyer: Id, requestId: Id, books: seq<Id>) {
    Named(buyer) && Named(requestId) && 1 <= |books| <= 256 && Different(books) && forall i | 0 <= i < |books| :: Named(books[i])
  }

  lemma NamesExactly(buyer: Id, requestId: Id, books: seq<Id>)
    ensures ValidCancel(buyer, requestId, books) <==> NamesBooks(buyer, requestId, books)
  {
    NamedExactly(buyer);
    NamedExactly(requestId);
    SortedDifferent(books);
    hide Named, Different, NoDuplicates, Sorted;
    forall b | b in books
      ensures IsIdentifier(b) <==> Named(b)
    {
      NamedExactly(b);
    }
  }

  lemma OwnsExactly(t: Tables, buyer: Id, books: seq<Id>)
    ensures OwnsAll(t, buyer, Sorted(books)) <==> forall i | 0 <= i < |books| :: books[i] in t.books && t.books[books[i]].buyer == buyer
  {
    SortedMembers(books);
    hide Sorted;
    if OwnsAll(t, buyer, Sorted(books)) {
      forall i | 0 <= i < |books|
        ensures books[i] in t.books && t.books[books[i]].buyer == buyer
      {
        assert books[i] in books;
      }
    }
    if forall i | 0 <= i < |books| :: books[i] in t.books && t.books[books[i]].buyer == buyer {
      forall b | b in Sorted(books)
        ensures b in t.books && t.books[b].buyer == buyer
      {
        assert b in books;
      }
    }
  }

  /** What a batch cancellation leaves: all open units of the named books are available again, these books are closed, and the
      answer is on record. */
  predicate AllReleased(c: Config, t: Tables, t': Tables, buyer: Id, requestId: Id, books: seq<Id>, r: Released)
    requires buyer in t.accounts && forall b | b in books :: b in t.books
  {
    var (a, open) := (t.accounts[buyer], OpenUnits(t.books, books));
    && r == Released(open, |books|)
    && t' == t.(accounts := t'.accounts, books := t'.books, cancellations := t'.cancellations)
    && OnlyAccount(t.accounts, t'.accounts, buyer, a.available + open, a.reserved - open, a.spent)
    && t'.books.Keys == t.books.Keys
    && (forall b | b in t.books :: t'.books[b] == if b in books then t.books[b].(remaining := 0, closed := true) else t.books[b])
    && t'.cancellations == t.cancellations[(buyer, requestId) := CancelRow(c.digest(CancelBody(Sorted(books))), r)]
  }

  /** A batch cancellation that is not on record succeeds if and only if it names different books that are all the buyer's. */
  lemma CancelManyExactly(c: Config, t: Tables, buyer: Id, requestId: Id, books: seq<Id>)
    requires Inv(t) && (buyer, requestId) !in t.cancellations
    ensures var (t', r) := CancelMany(c, t, buyer, requestId, books);
            if NamesBooks(buyer, requestId, books)
               && forall i | 0 <= i < |books| :: books[i] in t.books && t.books[books[i]].buyer == buyer then
              && r.Ok? && buyer in t.accounts && (forall b | b in books :: b in t.books)
              && AllReleased(c, t, t', buyer, requestId, books, r.value)
            else r == Denied && t' == t
  {
    hide Inv, NamesBooks, ValidCancel, OwnsAll, Sorted, AllReleased;
    NamesExactly(buyer, requestId, books);
    OwnsExactly(t, buyer, books);
    CancelManyKeepsInv(c, t, buyer, requestId, books);
    if ValidCancel(buyer, requestId, books) && OwnsAll(t, buyer, Sorted(books)) {
      SomeAccount(t, buyer, requestId, books);
      ReleasesAll(c, t, buyer, requestId, books);
    }
  }

  lemma SomeAccount(t: Tables, buyer: Id, requestId: Id, books: seq<Id>)
    requires Inv(t) && ValidCancel(buyer, requestId, books) && OwnsAll(t, buyer, Sorted(books))
    ensures buyer in t.accounts && forall b | b in books :: b in t.books
  {
    hide Inv, Sorted, IsIdentifier;
    SortedMembers(books);
    assert books[0] in books;
    BuyerHasAccount(t, books[0]);
  }

  lemma ReleasesAll(c: Config, t: Tables, buyer: Id, requestId: Id, books: seq<Id>)
    requires buyer in t.accounts && (forall b | b in books :: b in t.books) && OwnsAll(t, buyer, Sorted(books))
    requires ReleaseHolds(t.accounts, buyer, Remaining(t.books, Sorted(books)))
    requires ValidCancel(buyer, requestId, books) && (buyer, requestId) !in t.cancellations
    ensures var (t', r) := CancelMany(c, t, buyer, requestId, books);
            r.Ok? && AllReleased(c, t, t', buyer, requestId, books, r.value)
  {
    hide Sorted, IsIdentifier, ReleaseHolds, ValidCancel, CloseAll, Remaining, OpenUnits;
    var ids := Sorted(books);
    SortedMembers(books);
    SortedOpen(t.books, books);
    RemainingIsOpen(t.books, ids);
    AllClosed(t.books, ids);
  }
}
