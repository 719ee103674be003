/** Issuing on the online ledger from the outside: which orders succeed, what they reserve, and what every reply to one means
    in the tables; and where the amount of every account comes from. */
module LedgerOrders {
  import opened Options
  import opened Identifiers
  import opened LedgerTables
  import opened HttpLedger
  import opened LedgerInvariant
  import opened LedgerRuns
  import opened ExactlyOnce
  import opened LedgerHistory
  import opened LedgerEffects

  // ----- Orders

  function Entries(books: seq<seq<Id>>): nat {
    if books == [] then 0 else |books[0]| + Entries(books[1..])
  }

  lemma {:induction false} EntriesSnoc(books: seq<seq<Id>>)
    requires books != []
    ensures Entries(books) == Entries(books[..|books| - 1]) + |books[|books| - 1]|
    decreases |books|
  {
    if |books| > 1 {
      EntriesSnoc(books[1..]);
      assert books[1..][..|books| - 2] == books[..|books| - 1][1..];
    }
  }

  lemma {:induction false} CountIsEntries(books: seq<seq<Id>>)
    ensures ItemCount(books) == Entries(books)
    decreases |books|
  {
    if books != [] {
      CountIsEntries(books[..|books| - 1]);
      EntriesSnoc(books);
    }
  }

  /** A book may list between 1 and 32 different resources of the catalog. */
  predicate Listable(catalog: Catalog, group: seq<Id>) {
    1 <= |group| <= 32 && Different(group) && forall i | 0 <= i < |group| :: Named(group[i]) && group[i] in catalog
  }

  lemma ListableExactly(catalog: Catalog, group: seq<Id>)
    ensures ValidGroup(catalog, group) <==> Listable(catalog, group)
  {
    SortedDifferent(group);
    hide Sorted, Different, NoDuplicates, Named, IsIdentifier;
    forall r | r in group
      ensures IsIdentifier(r) <==> Named(r)
    {
      NamedExactly(r);
    }
    if ValidGroup(catalog, group) {
      forall i | 0 <= i < |group|
        ensures Named(group[i]) && group[i] in catalog
      {
        assert group[i] in group;
      }
    }
  }

  /** An order is for between 1 and 256 such books with at most 2048 entries, within the bounds on budget and time. */
  predicate Orderable(catalog: Catalog, q: IssueRequest) {
    && Named(q.buyer) && Named(q.requestId) && 1 <= q.maxUnits <= 1000000000000 && 1 <= q.ttl <= 300
    && 1 <= |q.books| <= 256 && Entries(q.books) <= 2048
    && forall i | 0 <= i < |q.books| :: Listable(catalog, q.books[i])
  }

  lemma OrderableExactly(catalog: Catalog, q: IssueRequest)
    ensures ValidIssue(catalog, q) <==> Orderable(catalog, q)
    ensures Orderable(catalog, q) ==> InCatalog(catalog, q.books)
  {
    NamedExactly(q.buyer);
    NamedExactly(q.requestId);
    CountIsEntries(q.books);
    hide Named, IsIdentifier, ItemCount, Entries;
    forall g | g in q.books
      ensures ValidGroup(catalog, g) <==> Listable(catalog, g)
    {
      ListableExactly(catalog, g);
    }
    if ValidIssue(catalog, q) {
      forall i | 0 <= i < |q.books|
        ensures Listable(catalog, q.books[i])
      {
        assert q.books[i] in q.books;
      }
    }
    if Orderable(catalog, q) {
      forall i | 0 <= i < |q.books|
        ensures forall r | r in q.books[i] :: r in catalog
      {
        assert Listable(catalog, q.books[i]);
      }
    }
  }

  function Resources(lines: seq<Line>): seq<Id> {
    seq(|lines|, i requires 0 <= i < |lines| => lines[i].resource)
  }

  /** The lines are the resources of the group in ascending order, each with what the catalog says of it. */
  predicate Lists(catalog: Catalog, lines: seq<Line>, group: seq<Id>) {
    && Identifiers.Ordered(Resources(lines)) && multiset(Resources(lines)) == multiset(group)
    && forall i | 0 <= i < |lines| ::
         var l := lines[i];
         l.resource in catalog
         && l.content == catalog[l.resource].content && l.terms == catalog[l.resource].terms && l.units == catalog[l.resource].units
  }

  lemma ManifestLists(catalog: Catalog, group: seq<Id>)
    requires forall r | r in Sorted(group) :: r in catalog
    ensures Lists(catalog, Manifest(catalog, Sorted(group)), group)
  {
    var names := Sorted(group);
    SortedOrdered(group);
    hide Sorted;
    assert Resources(Manifest(catalog, names)) == names;
    forall i | 0 <= i < |names|
      ensures names[i] in catalog
    {
      assert names[i] in names;
    }
  }

  predicate AllListed(catalog: Catalog, manifests: seq<seq<Line>>, books: seq<seq<Id>>) {
    |manifests| == |books| && forall x | 0 <= x < |books| :: Lists(catalog, manifests[x], books[x])
  }

  lemma ManifestsList(catalog: Catalog, books: seq<seq<Id>>)
    requires forall g | g in books :: ValidGroup(catalog, g)
    ensures AllListed(catalog, Manifests(catalog, books), books)
  {
    hide ValidGroup, Manifest, Lists, Sorted;
    forall x | 0 <= x < |books|
      ensures Lists(catalog, Manifests(catalog, books)[x], books[x])
    {
      ManifestOfBook(catalog, books, x);
      ManifestLists(catalog, books[x]);
    }
  }

  // ----- The items of a book

  /** The items of the book are exactly these lines. */
  predicate ItemsAre(items: map<Key, Item>, id: Id, lines: seq<Line>) {
    && (forall i | 0 <= i < |lines| ::
          && (id, lines[i].resource) in items
          && items[(id, lines[i].resource)] == Item(lines[i].content, lines[i].terms, lines[i].units))
    && forall k | k in items && k.0 == id :: exists i :: 0 <= i < |lines| && lines[i].resource == k.1
  }

  lemma {:induction false} AddedAre(id: Id, lines: seq<Line>)
    requires DistinctLines(lines)
    ensures ItemsAre(AddItems(map[], id, lines), id, lines)
    decreases |lines|
  {
    if lines != [] {
      var init, last := lines[..|lines| - 1], lines[|lines| - 1];
      AddedAre(id, init);
      var items, more := AddItems(map[], id, init), AddItems(map[], id, lines);
      forall k | k in more && k.0 == id
        ensures exists i :: 0 <= i < |lines| && lines[i].resource == k.1
      {
        if k == (id, last.resource) {
          assert lines[|lines| - 1].resource == k.1;
        } else {
          var i :| 0 <= i < |init| && init[i].resource == k.1;
          assert lines[i].resource == k.1;
        }
      }
      forall i | 0 <= i < |lines|
        ensures (id, lines[i].resource) in more
        ensures more[(id, lines[i].resource)] == Item(lines[i].content, lines[i].terms, lines[i].units)
      {
        if i < |lines| - 1 {
          assert init[i] == lines[i];
        }
      }
    }
  }

  lemma ItemsOfAre(items: map<Key, Item>, id: Id, lines: seq<Line>)
    requires ItemsOf(items, id) == AddItems(map[], id, lines) && DistinctLines(lines)
    ensures ItemsAre(items, id, lines)
  {
    AddedAre(id, lines);
    hide AddItems;
    forall i | 0 <= i < |lines|
      ensures (id, lines[i].resource) in items
      ensures items[(id, lines[i].resource)] == Item(lines[i].content, lines[i].terms, lines[i].units)
    {
      assert (id, lines[i].resource) in ItemsOf(items, id);
    }
    forall k | k in items && k.0 == id
      ensures exists i :: 0 <= i < |lines| && lines[i].resource == k.1
    {
      assert k in ItemsOf(items, id);
    }
  }

  // ----- Which orders succeed

  /** An order that is not on record is prepared if and only if it can be placed, its price is within its budget, and ids and
      tokens for all its books were supplied; without these it fails, and any other order is denied. */
  lemma PrepareExactly(c: Config, t: Tables, q: IssueRequest, now: int, minted: Option<Minted>)
    requires (q.buyer, q.requestId) !in t.issues
    ensures var r := PrepareIssue(c, t, q, now, minted);
            if !Orderable(c.catalog, q) then r == Denied
            else
              && InCatalog(c.catalog, q.books)
              && if OrderPrice(c.catalog, q.books) > q.maxUnits then r == Denied
                 else if minted.None? || |minted.value.ids| != |q.books| || |minted.value.tokens| != |q.books| then r == Raised
                 else
                   && r.Ok? && r.value.Ready?
                   && var p := r.value.prepared;
                   && p == Prepared(q.buyer, q.requestId, c.digest(IssueBody(q.books, q.maxUnits, q.ttl)), now, q.ttl,
                                    minted.value.kid, minted.value.ids, minted.value.tokens, p.manifests)
                   && AllListed(c.catalog, p.manifests, q.books)
  {
    OrderableExactly(c.catalog, q);
    hide Orderable, AllListed, OrderPrice;
    if ValidIssue(c.catalog, q) {
      ManifestsPrice(c.catalog, q.books);
      ManifestsList(c.catalog, q.books);
    }
  }

  /** Each of these books has its columns and the price of its group, and lists exactly its lines. */
  predicate BooksPlaced(c: Config, t: Tables, q: IssueRequest, p: Prepared)
    requires InCatalog(c.catalog, q.books) && WellFormed(p) && |p.ids| == |q.books|
  {
    forall x | 0 <= x < |p.ids| ::
      && p.ids[x] in t.books
      && t.books[p.ids[x]] == Book(q.buyer, p.kid, p.tokens[x], p.now, p.now + q.ttl, Price(c.catalog, q.books[x]), false)
      && ItemsAre(t.items, p.ids[x], p.manifests[x])
  }

  /** Books apart from these are as before, and so are their items. */
  ghost predicate OthersStay(t: Tables, t': Tables, ids: seq<Id>) {
    && (forall b | b !in ids :: (b in t'.books <==> b in t.books) && (b in t.books ==> t'.books[b] == t.books[b]))
    && forall k: Key | k.0 !in ids :: (k in t'.items <==> k in t.items) && (k in t.items ==> t'.items[k] == t.items[k])
  }

  /** What a committed order writes: its price is reserved, its books are placed, the reply is on record, and nothing else
      changes. */
  ghost predicate Placed(c: Config, t: Tables, t': Tables, q: IssueRequest, p: Prepared, reply: seq<Issued>)
    requires InCatalog(c.catalog, q.books) && q.buyer in t.accounts && WellFormed(p) && |p.ids| == |q.books|
  {
    && t' == t.(accounts := t'.accounts, books := t'.books, items := t'.items, issues := t'.issues)
    && var (a, price) := (t.accounts[q.buyer], OrderPrice(c.catalog, q.books));
    && OnlyAccount(t.accounts, t'.accounts, q.buyer, a.available - price, a.reserved + price, a.spent)
    && BooksPlaced(c, t', q, p) && OthersStay(t, t', p.ids)
    && t'.issues == t.issues[(q.buyer, q.requestId) := IssueRow(p.fingerprint, reply)]
    && |reply| == |p.ids| && forall x | 0 <= x < |p.ids| :: reply[x] == Issued(p.ids[x], p.tokens[x], p.manifests[x])
  }

  predicate SomeTaken(t: Tables, p: Prepared) {
    exists i :: 0 <= i < |p.ids| && p.ids[i] in t.books
  }

  /** A prepared order is committed if and only if its key is live, its time is not over, and the buyer has its price
      available; only ids that repeat or are taken already make it fail instead. */
  lemma CommitExactly(c: Config, t: Tables, q: IssueRequest, p: Prepared, clock: int)
    requires Inv(t) && ItemsHaveBooks(t) && PreparedHolds(p) && LedgerHistory.Ordered(c, q, p)
    requires (q.buyer, q.requestId) !in t.issues
    ensures InCatalog(c.catalog, q.books) && |p.ids| == |q.books|
    ensures var (t', r) := CommitIssue(t, p, clock);
            if p.now <= clock < p.now + q.ttl && p.kid !in t.revoked && q.buyer in t.accounts
               && t.accounts[q.buyer].available >= OrderPrice(c.catalog, q.books) then
              if !Different(p.ids) || SomeTaken(t, p) then r == Raised && t' == t
              else r.Ok? && Placed(c, t, t', q, p, r.value)
            else r == Denied && t' == t
  {
    OrderTerms(c, q, p);
    hide LedgerHistory.Ordered, OrderPrice, InCatalog, UnitsOfAll, CommitIssue, AfterIssue, Response, Placed, Inv, PreparedHolds,
         ItemsHaveBooks, Different, SomeTaken;
    ReservesExactly(t, p, clock);
    if CommitIssue(t, p, clock).1.Ok? {
      IssuePlaces(c, t, q, p);
    }
  }

  lemma OrderTerms(c: Config, q: IssueRequest, p: Prepared)
    requires LedgerHistory.Ordered(c, q, p)
    ensures InCatalog(c.catalog, q.books) && UnitsOfAll(p.manifests) == OrderPrice(c.catalog, q.books)
    ensures p.buyer == q.buyer && p.requestId == q.requestId && p.ttl == q.ttl && |p.manifests| == |q.books|
    ensures forall x | 0 <= x < |q.books| :: Units(p.manifests[x]) == Price(c.catalog, q.books[x])
  {
    hide InCatalog, ValidGroup, OrderPrice, UnitsOfAll;
    ManifestsPrice(c.catalog, q.books);
    forall x | 0 <= x < |q.books|
      ensures forall r | r in q.books[x] :: r in c.catalog
      ensures Units(p.manifests[x]) == Price(c.catalog, q.books[x])
    {
      GroupPrice(c.catalog, q.books, x);
    }
  }

  lemma GroupPrice(catalog: Catalog, books: seq<seq<Id>>, x: nat)
    requires x < |books| && forall g | g in books :: ValidGroup(catalog, g)
    ensures forall r | r in books[x] :: r in catalog
    ensures Units(Manifests(catalog, books)[x]) == Price(catalog, books[x])
  {
    hide Sorted, Manifest, Manifests, Price, Units;
    assert ValidGroup(catalog, books[x]);
    ManifestOfBook(catalog, books, x);
    SortedPrice(catalog, books[x]);
    ManifestPrice(catalog, Sorted(books[x]));
  }

  lemma IssuePlaces(c: Config, t: Tables, q: IssueRequest, p: Prepared)
    requires ItemsHaveBooks(t) && PreparedHolds(p) && LedgerHistory.Ordered(c, q, p)
    requires q.buyer in t.accounts && Different(p.ids) && !SomeTaken(t, p)
    ensures InCatalog(c.catalog, q.books) && |p.ids| == |q.books| && p.buyer == q.buyer
    ensures Placed(c, t, AfterIssue(t, p), q, p, Response(p))
  {
    OrderTerms(c, q, p);
    InsertableExactly(t, p);
    hide LedgerHistory.Ordered, OrderPrice, InCatalog, UnitsOfAll, ItemsHaveBooks, Different, SomeTaken, Insertable, LinesHold,
         Price, Units, BooksPlaced, OthersStay, AfterIssue, Response, Placed;
    RowsPlaced(c, t, q, p);
    OldRowsStay(t, p);
    PlacedTogether(c, t, q, p);
  }

  lemma PlacedTogether(c: Config, t: Tables, q: IssueRequest, p: Prepared)
    requires InCatalog(c.catalog, q.books) && WellFormed(p) && |p.ids| == |q.books|
    requires q.buyer in t.accounts && p.buyer == q.buyer && p.requestId == q.requestId
    requires UnitsOfAll(p.manifests) == OrderPrice(c.catalog, q.books)
    requires BooksPlaced(c, AfterIssue(t, p), q, p) && OthersStay(t, AfterIssue(t, p), p.ids)
    ensures Placed(c, t, AfterIssue(t, p), q, p, Response(p))
  {
    hide OrderPrice, InCatalog, UnitsOfAll, BooksPlaced, OthersStay, AddBooks, AddAllItems;
  }

  lemma RowsPlaced(c: Config, t: Tables, q: IssueRequest, p: Prepared)
    requires ItemsHaveBooks(t) && WellFormed(p) && Insertable(t.books, p) && LedgerHistory.Ordered(c, q, p) && p.buyer in t.accounts
    ensures InCatalog(c.catalog, q.books) && |p.ids| == |q.books| && BooksPlaced(c, AfterIssue(t, p), q, p)
  {
    OrderTerms(c, q, p);
    hide LedgerHistory.Ordered, InCatalog, UnitsOfAll, ItemsHaveBooks, ItemsAre, AddBooks, AddAllItems, Insertable, Price, Units,
         Response;
    forall x | 0 <= x < |p.ids|
      ensures AddBooks(t.books, p, |p.ids|).Keys >= {p.ids[x]} && AddBooks(t.books, p, |p.ids|)[p.ids[x]] == NewBook(p, x)
      ensures ItemsAre(AddAllItems(t.items, p, |p.ids|), p.ids[x], p.manifests[x])
    {
      RowsAdded(t, p, x);
    }
  }

  lemma SameItems(items: map<Key, Item>, items': map<Key, Item>, k: Key)
    requires ItemsOf(items', k.0) == ItemsOf(items, k.0)
    ensures (k in items' <==> k in items) && (k in items ==> items'[k] == items[k])
  {
    assert k in items' <==> k in ItemsOf(items', k.0);
    assert k in items <==> k in ItemsOf(items, k.0);
    if k in items {
      assert ItemsOf(items', k.0)[k] == ItemsOf(items, k.0)[k];
    }
  }

  lemma RowsAdded(t: Tables, p: Prepared, x: nat)
    requires ItemsHaveBooks(t) && WellFormed(p) && x < |p.ids| && Insertable(t.books, p)
    ensures p.ids[x] in AddBooks(t.books, p, |p.ids|) && AddBooks(t.books, p, |p.ids|)[p.ids[x]] == NewBook(p, x)
    ensures ItemsAre(AddAllItems(t.items, p, |p.ids|), p.ids[x], p.manifests[x])
  {
    hide AddBooks, AddAllItems, ItemsOf, AddItems, ItemsAre, Units, NewBook;
    AllBooksAdded(t.books, p, |p.ids|, p.ids[x]);
    AllItemsAdded(t.items, p, |p.ids|, p.ids[x]);
    NoItems(t, p.ids[x]);
    ItemsOfAre(AddAllItems(t.items, p, |p.ids|), p.ids[x], p.manifests[x]);
  }

  lemma OldRowsStay(t: Tables, p: Prepared)
    requires WellFormed(p) && Insertable(t.books, p) && p.buyer in t.accounts
    ensures OthersStay(t, AfterIssue(t, p), p.ids)
  {
    hide AddBooks, AddAllItems, ItemsOf, AddItems, Units, NewBook, Response, Insertable;
    forall b | b !in p.ids
      ensures var books' := AddBooks(t.books, p, |p.ids|);
              (b in books' <==> b in t.books) && (b in t.books ==> books'[b] == t.books[b])
    {
      OldRowStays(t, p, b);
    }
    forall k: Key | k.0 !in p.ids
      ensures var items' := AddAllItems(t.items, p, |p.ids|);
              (k in items' <==> k in t.items) && (k in t.items ==> items'[k] == t.items[k])
    {
      OldRowStays(t, p, k.0);
      SameItems(t.items, AddAllItems(t.items, p, |p.ids|), k);
    }
  }

  lemma OldRowStays(t: Tables, p: Prepared, b: Id)
    requires WellFormed(p) && Insertable(t.books, p) && b !in p.ids
    ensures var books' := AddBooks(t.books, p, |p.ids|);
            (b in books' <==> b in t.books) && (b in t.books ==> books'[b] == t.books[b])
    ensures ItemsOf(AddAllItems(t.items, p, |p.ids|), b) == ItemsOf(t.items, b)
  {
    hide AddBooks, AddAllItems, ItemsOf, AddItems, Units, NewBook;
    assert p.ids[..|p.ids|] == p.ids;
    AllBooksAdded(t.books, p, |p.ids|, b);
    AllItemsAdded(t.items, p, |p.ids|, b);
  }

  lemma ReservesExactly(t: Tables, p: Prepared, clock: int)
    requires Inv(t) && PreparedHolds(p) && (p.buyer, p.requestId) !in t.issues
    ensures var (t', r) := CommitIssue(t, p, clock);
            var price := UnitsOfAll(p.manifests);
            if p.now <= clock < p.now + p.ttl && p.kid !in t.revoked && p.buyer in t.accounts
               && t.accounts[p.buyer].available >= price then
              if !Different(p.ids) || SomeTaken(t, p) then r == Raised && t' == t
              else r == Ok(Response(p)) && t' == AfterIssue(t, p)
            else r == Denied && t' == t
  {
    hide Held, Spent, AllReceipts, Owed, References, BooksHold, AccountsHold, AfterIssue, UnitsOfAll, Response;
    AllUnitsNonnegative(p.manifests);
    if p.buyer in t.accounts && t.accounts[p.buyer].available >= UnitsOfAll(p.manifests) {
      AccountRowHolds(t, p.buyer);
      InsertableExactly(t, p);
    }
  }

  lemma InsertableExactly(t: Tables, p: Prepared)
    requires PreparedHolds(p)
    ensures Insertable(t.books, p) <==> Different(p.ids) && !SomeTaken(t, p)
  {
    hide Units;
    forall i | 0 <= i < |p.ids|
      ensures Units(p.manifests[i]) >= 0 && DistinctLines(p.manifests[i])
    {
      assert p.manifests[i] in p.manifests;
      UnitsNonnegative(p.manifests[i]);
    }
  }

  // ----- What a reply means

  /** The entry names a book of the buyer with this entry's token, and as items exactly this entry's lines. */
  predicate EntryHolds(t: Tables, buyer: Id, entry: Issued) {
    && entry.book in t.books && t.books[entry.book].buyer == buyer && t.books[entry.book].token == entry.token
    && ItemsAre(t.items, entry.book, entry.manifest)
  }

  /** One entry for each book ordered, each for a different book, and its lines are the resources of that group. */
  predicate ReplyHolds(c: Config, t: Tables, q: IssueRequest, reply: seq<Issued>) {
    && |reply| == |q.books|
    && (forall x, y | 0 <= x < y < |reply| :: reply[x].book != reply[y].book)
    && forall x | 0 <= x < |reply| :: EntryHolds(t, q.buyer, reply[x]) && Lists(c.catalog, reply[x].manifest, q.books[x])
  }

  lemma EntryStays(c: Config, s: System, step: Step, buyer: Id, entry: Issued)
    requires ItemsHaveBooks(s.t) && EntryHolds(s.t, buyer, entry)
    ensures EntryHolds(Next(c, s, step).0.t, buyer, entry)
  {
    hide Next, ItemsHaveBooks, ItemsOf;
    BookAndItemsStay(c, s, step, entry.book);
    ItemsMove(s.t.items, Next(c, s, step).0.t.items, entry.book, entry.manifest);
  }

  lemma ItemsMove(items: map<Key, Item>, items': map<Key, Item>, id: Id, lines: seq<Line>)
    requires ItemsOf(items', id) == ItemsOf(items, id) && ItemsAre(items, id, lines)
    ensures ItemsAre(items', id, lines)
  {
    forall k: Key | k.0 == id
      ensures k in items' <==> k in items
      ensures k in items ==> items'[k] == items[k]
    {
      SameItems(items, items', k);
    }
  }

  lemma CommittedHolds(c: Config, t: Tables, q: IssueRequest, p: Prepared, clock: int)
    requires ItemsHaveBooks(t) && LedgerHistory.Ordered(c, q, p) && WellFormed(p) && (q.buyer, q.requestId) !in t.issues
    requires CommitIssue(t, p, clock).1.Ok?
    ensures ReplyHolds(c, CommitIssue(t, p, clock).0, q, CommitIssue(t, p, clock).1.value)
  {
    hide AddBooks, AddAllItems, ItemsOf, AccountHolds, UnitsOfAll, EntryHolds, Lists, ValidIssue, Manifests;
    var (t', r) := CommitIssue(t, p, clock);
    ManifestsListed(c, q, p);
    forall x | 0 <= x < |p.ids|
      ensures EntryHolds(t', q.buyer, r.value[x])
    {
      NewEntryHolds(t, p, clock, x);
    }
  }

  lemma ManifestsListed(c: Config, q: IssueRequest, p: Prepared)
    requires LedgerHistory.Ordered(c, q, p)
    ensures AllListed(c.catalog, p.manifests, q.books)
  {
    ManifestsList(c.catalog, q.books);
  }

  lemma NewEntryHolds(t: Tables, p: Prepared, clock: int, x: nat)
    requires ItemsHaveBooks(t) && WellFormed(p) && x < |p.ids| && (p.buyer, p.requestId) !in t.issues
    requires CommitIssue(t, p, clock).1.Ok?
    ensures EntryHolds(CommitIssue(t, p, clock).0, p.buyer, Issued(p.ids[x], p.tokens[x], p.manifests[x]))
  {
    hide AddBooks, AddAllItems, ItemsOf, AccountHolds, UnitsOfAll, AddItems, ItemsAre, Response, ItemsHaveBooks;
    var t' := CommitIssue(t, p, clock).0;
    var n := |p.ids|;
    assert Insertable(t.books, p);
    AllBooksAdded(t.books, p, n, p.ids[x]);
    CommitWrites(t, p, clock, p.ids[x]);
    var y: nat :| Commits(t, p, clock, p.ids[x], y) && Written(t', p.ids[x], NewBook(p, y), p.manifests[y]);
    assert y == x;
    ItemsOfAre(t'.items, p.ids[x], p.manifests[x]);
  }

  /** Every record of an issuance, at any time of any run, holds in the tables of that time for the order that was prepared. */
  lemma {:induction false} EveryRecordHolds(c: Config, steps: seq<Step>, n: nat, key: Key) returns (j: nat)
    requires n <= |steps| && key in After(c, System(EMPTY, map[]), steps, n).t.issues
    ensures j < n && steps[j].PrepareStep? && key == (steps[j].order.buyer, steps[j].order.requestId)
    ensures var (t, q) := (After(c, System(EMPTY, map[]), steps, n).t, steps[j].order);
            && t.issues[key].fingerprint == c.digest(IssueBody(q.books, q.maxUnits, q.ttl))
            && ReplyHolds(c, t, q, t.issues[key].response)
    decreases n
  {
    hide Next, EntryHolds, Lists, LedgerHistory.Ordered, ItemsHaveBooks;
    var start := System(EMPTY, map[]);
    assert n > 0;
    var s, step := After(c, start, steps, n - 1), steps[n - 1];
    RunsKeepItems(c, steps, n - 1);
    if key in s.t.issues {
      j := EveryRecordHolds(c, steps, n - 1, key);
      StoredStays(c, s, step, IssueOp(key));
      forall x | 0 <= x < |s.t.issues[key].response|
        ensures EntryHolds(Next(c, s, step).0.t, steps[j].order.buyer, s.t.issues[key].response[x])
      {
        EntryStays(c, s, step, steps[j].order.buyer, s.t.issues[key].response[x]);
      }
    } else {
      RecordAppears(c, s, step, key);
      j := EveryPreparationWasOrdered(c, steps, n - 1, step.worker);
      OrderedKey(c, steps[j].order, s.pending[step.worker]);
      CommittedHolds(c, s.t, steps[j].order, s.pending[step.worker], step.clock);
    }
  }

  lemma OrderedKey(c: Config, q: IssueRequest, p: Prepared)
    requires LedgerHistory.Ordered(c, q, p)
    ensures p.buyer == q.buyer && p.requestId == q.requestId && p.fingerprint == c.digest(IssueBody(q.books, q.maxUnits, q.ttl))
  {
  }

  lemma RecordAppears(c: Config, s: System, step: Step, key: Key)
    requires key !in s.t.issues && key in Next(c, s, step).0.t.issues
    ensures step.CommitStep? && step.worker in s.pending && WellFormed(s.pending[step.worker])
    ensures var p := s.pending[step.worker];
            var (t', r) := CommitIssue(s.t, p, step.clock);
            && key == (p.buyer, p.requestId) && r.Ok? && Next(c, s, step).0.t == t'
            && t'.issues[key] == IssueRow(p.fingerprint, r.value)
  {
    hide BookSpendHolds, AddBooks, AddAllItems, Response, Manifests, Remaining, OwnsAll, IsIdentifier, Sorted, ValidIssue,
         ValidSpend, ValidCancel, AccountHolds, UnitsOfAll;
  }

  /** Every reply to an issuance, fresh or repeated, goes back to an order under this id with this fingerprint, and holds in
      the tables when it is given. */
  lemma EveryReplyHolds(c: Config, steps: seq<Step>, i: nat) returns (j: nat)
    requires i < |steps| && ReplyAt(c, System(EMPTY, map[]), steps, i).IssueReply?
    ensures j <= i && steps[j].PrepareStep?
    ensures var (q, start) := (steps[j].order, System(EMPTY, map[]));
            && DeliveryAt(c, start, steps, i)
               == Some(Delivery(IssueOp((q.buyer, q.requestId)), c.digest(IssueBody(q.books, q.maxUnits, q.ttl))))
            && ReplyHolds(c, After(c, start, steps, i + 1).t, q, ReplyAt(c, start, steps, i).issued)
  {
    hide Next, ReplyHolds, Stored, Delivers;
    var start := System(EMPTY, map[]);
    IssuesAreDelivered(c, After(c, start, steps, i), steps[i]);
    var d := DeliveryAt(c, start, steps, i).value;
    AcceptedIsStored(c, After(c, start, steps, i), steps[i], d);
    RecordOf(After(c, start, steps, i + 1).t, d);
    j := EveryRecordHolds(c, steps, i + 1, d.op.key);
  }

  lemma IssuesAreDelivered(c: Config, s: System, step: Step)
    requires Next(c, s, step).1.IssueReply?
    ensures Delivers(c, s, step).Some? && Delivers(c, s, step).value.op.IssueOp?
  {
    hide PrepareIssue, CommitIssue, Spend, CancelMany, Cancel, Seed;
  }

  lemma RecordOf(t: Tables, d: Delivery)
    requires d.op.IssueOp? && Stored(t, d.op).Some? && Stored(t, d.op).value.fingerprint == d.fingerprint
    ensures d.op.key in t.issues && t.issues[d.op.key].fingerprint == d.fingerprint
    ensures Stored(t, d.op).value.reply == IssueReply(t.issues[d.op.key].response)
  {
  }

  // ----- Where the amount of an account comes from

  /** The same buyers have accounts, with the same initial amounts. */
  predicate SameInitials(accounts: map<Id, Account>, accounts': map<Id, Account>) {
    accounts'.Keys == accounts.Keys && forall b | b in accounts :: accounts'[b].initial == accounts[b].initial
  }

  lemma InitialStays(c: Config, s: System, step: Step, buyer: Id)
    ensures var s' := Next(c, s, step).0;
            && (buyer in s.t.accounts ==> buyer in s'.t.accounts && s'.t.accounts[buyer].initial == s.t.accounts[buyer].initial
                                          && !(step.SeedStep? && step.buyer == buyer && Next(c, s, step).1.Done?))
            && (buyer !in s.t.accounts && buyer in s'.t.accounts ==>
                  step == SeedStep(buyer, s'.t.accounts[buyer].initial) && Next(c, s, step).1.Done?)
  {
    if step.SeedStep? {
      hide IsIdentifier;
    } else {
      hide Next;
      OthersKeepInitials(c, s, step);
    }
  }

  lemma OthersKeepInitials(c: Config, s: System, step: Step)
    requires !step.SeedStep?
    ensures SameInitials(s.t.accounts, Next(c, s, step).0.t.accounts)
  {
    hide CommitIssue, PrepareIssue, Spend, Cancel, CancelMany;
    match step
    case CommitStep(worker, clock) =>
      if worker in s.pending && WellFormed(s.pending[worker]) {
        CommitKeepsInitials(s.t, s.pending[worker], clock);
      }
    case SpendStep(q, clock, committedAt, receiptId) => SpendKeepsInitials(c, s.t, q, clock, committedAt, receiptId);
    case CancelStep(buyer, book) => CancelKeepsInitials(s.t, buyer, book);
    case CancelManyStep(buyer, requestId, books) => CancelManyKeepsInitials(c, s.t, buyer, requestId, books);
    case _ =>
  }

  lemma CommitKeepsInitials(t: Tables, p: Prepared, clock: int)
    requires WellFormed(p)
    ensures SameInitials(t.accounts, CommitIssue(t, p, clock).0.accounts)
  {
    hide AddBooks, AddAllItems, Response, UnitsOfAll, AccountHolds, Insertable;
  }

  lemma SpendKeepsInitials(c: Config, t: Tables, q: SpendRequest, clock: int, committedAt: int, receiptId: Id)
    ensures SameInitials(t.accounts, Spend(c, t, q, clock, committedAt, receiptId).0.accounts)
  {
    hide BookAllows, BookSpendHolds, ValidSpend, IndexEntry, AccountHolds, Draw;
  }

  lemma CancelKeepsInitials(t: Tables, buyer: Id, book: Id)
    ensures SameInitials(t.accounts, Cancel(t, buyer, book).0.accounts)
  {
    hide IsIdentifier, AccountHolds;
  }

  lemma CancelManyKeepsInitials(c: Config, t: Tables, buyer: Id, requestId: Id, books: seq<Id>)
    ensures SameInitials(t.accounts, CancelMany(c, t, buyer, requestId, books).0.accounts)
  {
    hide AccountHolds, CloseAll, Remaining, OwnsAll, ValidCancel, Sorted;
  }

  /** Every account was opened by exactly one accepted seeding of its buyer, and its initial amount is still the one of that. */
  lemma {:induction false} SeededOnce(c: Config, steps: seq<Step>, n: nat, buyer: Id) returns (i: nat)
    requires n <= |steps| && buyer in After(c, System(EMPTY, map[]), steps, n).t.accounts
    ensures i < n && steps[i] == SeedStep(buyer, After(c, System(EMPTY, map[]), steps, n).t.accounts[buyer].initial)
    ensures forall k | 0 <= k < n && steps[k].SeedStep? && steps[k].buyer == buyer ::
              (ReplyAt(c, System(EMPTY, map[]), steps, k).Done? <==> k == i)
    decreases n
  {
    hide Next;
    var start := System(EMPTY, map[]);
    assert n > 0;
    var s := After(c, start, steps, n - 1);
    InitialStays(c, s, steps[n - 1], buyer);
    if buyer in s.t.accounts {
      i := SeededOnce(c, steps, n - 1, buyer);
    } else {
      i := n - 1;
      NeverSeeded(c, steps, n - 1, buyer);
    }
  }

  lemma {:induction false} NeverSeeded(c: Config, steps: seq<Step>, n: nat, buyer: Id)
    requires n <= |steps| && buyer !in After(c, System(EMPTY, map[]), steps, n).t.accounts
    ensures forall k | 0 <= k < n && steps[k].SeedStep? && steps[k].buyer == buyer ::
              !ReplyAt(c, System(EMPTY, map[]), steps, k).Done?
  {
    hide Next;
    if n > 0 {
      var s := After(c, System(EMPTY, map[]), steps, n - 1);
      InitialStays(c, s, steps[n - 1], buyer);
      NeverSeeded(c, steps, n - 1, buyer);
      if steps[n - 1].SeedStep? && steps[n - 1].buyer == buyer && Next(c, s, steps[n - 1]).1.Done? {
        SeededHasAccount(c, s, steps[n - 1], buyer);
      }
    }
  }

  lemma SeededHasAccount(c: Config, s: System, step: Step, buyer: Id)
    requires step.SeedStep? && step.buyer == buyer && Next(c, s, step).1.Done?
    ensures buyer in Next(c, s, step).0.t.accounts
  {
  }
}
