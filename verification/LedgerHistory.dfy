/** Where the rows of the online ledger come from: over whole runs, every receipt and every book goes back to a request that
    was entitled to it. */
module LedgerHistory {
  import opened Options
  import opened Identifiers
  import opened LedgerTables
  import opened HttpLedger
  import opened LedgerRuns

  // ----- Receipts

  /** The purchase is entitled to this receipt at this moment: catalog price within its budget, catalog content and terms;
      and, from a book, the buyer's own open and current book under a live key, its token presented, its item unpaid. */
  predicate Entitled(c: Config, t: Tables, q: SpendRequest, clock: int, r: Receipt) {
    && q.resource in c.catalog
    && var o := c.catalog[q.resource];
    && r.buyer == q.buyer && r.book == q.book && r.resource == q.resource
    && r.content == o.content && r.terms == o.terms && r.units == o.units <= q.maxUnits
    && match q.book
       case None => q.buyer in t.accounts && o.units <= t.accounts[q.buyer].available
       case Some(id) =>
         && id in t.books && t.books[id].buyer == q.buyer && q.token == Some(t.books[id].token)
         && !t.books[id].closed && t.books[id].issued <= clock < t.books[id].expires && t.books[id].kid !in t.revoked
         && (id, q.resource) in t.items && t.items[(id, q.resource)] == Item(o.content, o.terms, o.units)
         && (id, q.resource) !in t.redeemed
  }

  /** Only an entitled purchase writes a receipt, its own. */
  lemma ReceiptAppears(c: Config, s: System, step: Step, k: Key)
    requires k !in s.t.receipts && k in Next(c, s, step).0.t.receipts
    ensures step.SpendStep? && k == (step.purchase.buyer, step.purchase.requestId)
    ensures Entitled(c, s.t, step.purchase, step.clock, Next(c, s, step).0.t.receipts[k].receipt)
  {
    hide AddBooks, AddAllItems, Response, Manifests, CloseAll, Remaining, OwnsAll, IsIdentifier, Sorted;
  }

  lemma ReceiptRemains(c: Config, s: System, step: Step, k: Key)
    requires k in s.t.receipts
    ensures k in Next(c, s, step).0.t.receipts && Next(c, s, step).0.t.receipts[k] == s.t.receipts[k]
  {
    hide BookAllows, BookSpendHolds, AddBooks, AddAllItems, Response, Manifests, CloseAll, Remaining, OwnsAll, IsIdentifier, Sorted;
  }

  /** Every receipt of every run goes back to a purchase that was entitled to it when it was committed. */
  lemma {:induction false} EveryReceiptWasEntitled(c: Config, steps: seq<Step>, n: nat, k: Key) returns (i: nat)
    requires n <= |steps| && k in After(c, System(EMPTY, map[]), steps, n).t.receipts
    ensures i < n && steps[i].SpendStep? && k == (steps[i].purchase.buyer, steps[i].purchase.requestId)
    ensures Entitled(c, After(c, System(EMPTY, map[]), steps, i).t, steps[i].purchase, steps[i].clock,
                     After(c, System(EMPTY, map[]), steps, n).t.receipts[k].receipt)
    decreases n
  {
    hide Next, Entitled;
    var start := System(EMPTY, map[]);
    assert n > 0;
    var s := After(c, start, steps, n - 1);
    if k in s.t.receipts {
      i := EveryReceiptWasEntitled(c, steps, n - 1, k);
      ReceiptRemains(c, s, steps[n - 1], k);
    } else {
      i := n - 1;
      ReceiptAppears(c, s, steps[n - 1], k);
    }
  }

  // ----- Books

  /** The preparation is what this order asked for, within its budget. */
  predicate Ordered(c: Config, q: IssueRequest, p: Prepared) {
    && ValidIssue(c.catalog, q)
    && p.buyer == q.buyer && p.requestId == q.requestId && p.ttl == q.ttl
    && p.fingerprint == c.digest(IssueBody(q.books, q.maxUnits, q.ttl))
    && p.manifests == Manifests(c.catalog, q.books) && UnitsOfAll(p.manifests) <= q.maxUnits
  }

  /** Each book of an order lists exactly the resources of its group, sorted, as the catalog has them. */
  lemma {:induction false} ManifestOfBook(catalog: Catalog, books: seq<seq<Id>>, i: nat)
    requires i < |books| && forall g | g in books :: ValidGroup(catalog, g)
    ensures forall r | r in Sorted(books[i]) :: r in catalog
    ensures Manifests(catalog, books)[i] == Manifest(catalog, Sorted(books[i]))
    decreases |books|
  {
    hide ValidGroup, Manifest, Sorted;
    var last := |books| - 1;
    GroupInCatalog(catalog, books[i]);
    if i < last {
      assert books[..last][i] == books[i];
      ManifestOfBook(catalog, books[..last], i);
    }
  }

  lemma GroupInCatalog(catalog: Catalog, group: seq<Id>)
    requires ValidGroup(catalog, group)
    ensures forall r | r in Sorted(group) :: r in catalog
  {
    SortedMembers(group);
  }

  lemma PreparedAsOrdered(c: Config, t: Tables, q: IssueRequest, now: int, minted: Option<Minted>, p: Prepared)
    requires PrepareIssue(c, t, q, now, minted) == Ok(Ready(p))
    ensures Ordered(c, q, p) && p.now == now && minted == Some(Minted(p.kid, p.ids, p.tokens))
  {
    hide ValidIssue, Manifests, UnitsOfAll;
  }

  /** Every pending issuance goes back to the step that prepared it. */
  lemma {:induction false} EveryPreparationWasOrdered(c: Config, steps: seq<Step>, n: nat, w: nat) returns (j: nat)
    requires n <= |steps| && w in After(c, System(EMPTY, map[]), steps, n).pending
    ensures j < n && steps[j].PrepareStep? && steps[j].worker == w
    ensures var p := After(c, System(EMPTY, map[]), steps, n).pending[w];
            Ordered(c, steps[j].order, p) && p.now == steps[j].now && steps[j].minted == Some(Minted(p.kid, p.ids, p.tokens))
    decreases n
  {
    hide Ordered, PrepareIssue, CommitIssue, Spend, Cancel, CancelMany, Seed;
    var start := System(EMPTY, map[]);
    assert n > 0;
    var s, step := After(c, start, steps, n - 1), steps[n - 1];
    var s' := After(c, start, steps, n);
    if w in s.pending && s'.pending[w] == s.pending[w] {
      j := EveryPreparationWasOrdered(c, steps, n - 1, w);
    } else {
      j := n - 1;
      PreparedAsOrdered(c, s.t, step.order, step.now, step.minted, s'.pending[w]);
    }
  }

  /** The items of one book. */
  function ItemsOf(items: map<Key, Item>, id: Id): map<Key, Item> {
    map k | k in items && k.0 == id :: items[k]
  }

  /** The columns that no later operation may touch: all but the remaining units and the closing. */
  predicate SameBook(b: Book, b': Book) {
    b' == b.(remaining := b'.remaining, closed := b'.closed)
  }

  /** The book has the columns of this row, and its items are exactly these lines. */
  predicate Written(t: Tables, id: Id, b: Book, lines: seq<Line>) {
    id in t.books && SameBook(b, t.books[id]) && ItemsOf(t.items, id) == AddItems(map[], id, lines)
  }

  /** Book `x` of the preparation is written by this transaction: new, in time and under a live key. */
  predicate Commits(t: Tables, p: Prepared, clock: int, id: Id, x: nat) {
    && WellFormed(p) && x < |p.ids| && p.ids[x] == id && id !in t.books
    && p.now <= clock < p.now + p.ttl && p.kid !in t.revoked
  }

  // ----- What inserting books and items writes

  lemma {:induction false} ItemsOfAdded(items: map<Key, Item>, book: Id, lines: seq<Line>, id: Id)
    ensures ItemsOf(AddItems(items, book, lines), id) ==
            if id == book then AddItems(ItemsOf(items, id), id, lines) else ItemsOf(items, id)
  {
    if lines != [] {
      ItemsOfAdded(items, book, lines[..|lines| - 1], id);
    }
  }

  lemma {:induction false} AllItemsAdded(items: map<Key, Item>, p: Prepared, n: nat, id: Id)
    requires WellFormed(p) && n <= |p.ids| && NoDuplicates(p.ids)
    ensures forall x | 0 <= x < n && p.ids[x] == id ::
              ItemsOf(AddAllItems(items, p, n), id) == AddItems(ItemsOf(items, id), id, p.manifests[x])
    ensures id !in p.ids[..n] ==> ItemsOf(AddAllItems(items, p, n), id) == ItemsOf(items, id)
  {
    hide ItemsOf, AddItems;
    if n > 0 {
      assert p.ids[..n] == p.ids[..n - 1] + [p.ids[n - 1]];
      AllItemsAdded(items, p, n - 1, id);
      ItemsOfAdded(AddAllItems(items, p, n - 1), p.ids[n - 1], p.manifests[n - 1], id);
    }
  }

  lemma {:induction false} AllBooksAdded(books: map<Id, Book>, p: Prepared, n: nat, id: Id)
    requires WellFormed(p) && n <= |p.ids| && NoDuplicates(p.ids)
    ensures forall x | 0 <= x < n && p.ids[x] == id :: id in AddBooks(books, p, n) && AddBooks(books, p, n)[id] == NewBook(p, x)
    ensures id !in p.ids[..n] ==> (id in AddBooks(books, p, n) <==> id in books)
    ensures id !in p.ids[..n] && id in books ==> AddBooks(books, p, n)[id] == books[id]
  {
    if n > 0 {
      assert p.ids[..n] == p.ids[..n - 1] + [p.ids[n - 1]];
      AllBooksAdded(books, p, n - 1, id);
    }
  }

  // ----- One step

  predicate ItemsHaveBooks(t: Tables) {
    forall k | k in t.items :: k.0 in t.books
  }

  lemma NoItems(t: Tables, id: Id)
    requires ItemsHaveBooks(t) && id !in t.books
    ensures ItemsOf(t.items, id) == map[]
  {
  }

  lemma {:induction false} ItemsBelong(books: map<Id, Book>, items: map<Key, Item>, p: Prepared, n: nat)
    requires WellFormed(p) && n <= |p.ids| && forall k | k in items :: k.0 in books
    ensures forall k | k in AddAllItems(items, p, n) :: k.0 in AddBooks(books, p, n)
  {
    if n > 0 {
      ItemsBelong(books, items, p, n - 1);
      LinesBelong(AddAllItems(items, p, n - 1), p.ids[n - 1], p.manifests[n - 1]);
    }
  }

  lemma {:induction false} LinesBelong(items: map<Key, Item>, book: Id, lines: seq<Line>)
    ensures forall k | k in AddItems(items, book, lines) :: k in items || k.0 == book
  {
    if lines != [] {
      LinesBelong(items, book, lines[..|lines| - 1]);
    }
  }

  lemma ItemsKeepBooks(c: Config, s: System, step: Step)
    requires ItemsHaveBooks(s.t)
    ensures ItemsHaveBooks(Next(c, s, step).0.t)
  {
    hide AddBooks, AddAllItems, BookAllows, BookSpendHolds, Response, Manifests, Remaining, OwnsAll, IsIdentifier, Sorted;
    if step.CommitStep? && step.worker in s.pending && WellFormed(s.pending[step.worker]) {
      var p := s.pending[step.worker];
      ItemsBelong(s.t.books, s.t.items, p, |p.ids|);
    }
  }

  /** A committed issuance writes each of its books with exactly the lines of its manifest, and leaves all others alone. */
  lemma CommitWrites(t: Tables, p: Prepared, clock: int, id: Id)
    requires WellFormed(p) && ItemsHaveBooks(t)
    ensures var t' := CommitIssue(t, p, clock).0;
            && (id !in t.books && id in t'.books ==>
                  exists x: nat :: Commits(t, p, clock, id, x) && Written(t', id, NewBook(p, x), p.manifests[x]))
            && (id in t.books ==> id in t'.books && t'.books[id] == t.books[id] && ItemsOf(t'.items, id) == ItemsOf(t.items, id))
  {
    hide AddBooks, AddAllItems, Response, ItemsOf, AccountHolds, UnitsOfAll;
    var n, t' := |p.ids|, CommitIssue(t, p, clock).0;
    if CommitIssue(t, p, clock).1.Ok? && (p.buyer, p.requestId) !in t.issues {
      AllBooksAdded(t.books, p, n, id);
      AllItemsAdded(t.items, p, n, id);
      assert p.ids[..n] == p.ids;
      if id in t.books {
        assert id !in p.ids;
      } else if id in t'.books {
        NoItems(t, id);
        var x :| 0 <= x < n && p.ids[x] == id;
        assert Commits(t, p, clock, id, x) && Written(t', id, NewBook(p, x), p.manifests[x]);
      }
    }
  }

  lemma {:induction false} CloseAllSame(books: map<Id, Book>, ids: seq<Id>, id: Id)
    requires id in books && forall b | b in ids :: b in books
    ensures SameBook(books[id], CloseAll(books, ids)[id])
  {
    if ids != [] {
      CloseAllSame(books, ids[..|ids| - 1], id);
    }
  }

  /** Nothing changes the columns of a book but its remaining units and its closing, or its items. */
  lemma BookAndItemsStay(c: Config, s: System, step: Step, id: Id)
    requires ItemsHaveBooks(s.t) && id in s.t.books
    ensures var t' := Next(c, s, step).0.t;
            id in t'.books && SameBook(s.t.books[id], t'.books[id]) && ItemsOf(t'.items, id) == ItemsOf(s.t.items, id)
  {
    hide CommitIssue, PrepareIssue, Spend, Cancel, CancelMany, Seed, ItemsOf, SameBook;
    match step
    case CommitStep(worker, clock) =>
      if worker in s.pending && WellFormed(s.pending[worker]) {
        CommitWrites(s.t, s.pending[worker], clock, id);
        SameAsBefore(s.t.books[id]);
      } else {
        SameAsBefore(s.t.books[id]);
      }
    case SpendStep(q, clock, committedAt, receiptId) => SpendKeepsBook(c, s.t, q, clock, committedAt, receiptId, id);
    case CancelStep(buyer, book) => CancelKeepsBook(s.t, buyer, book, id);
    case CancelManyStep(buyer, requestId, books) => CancelManyKeepsBook(c, s.t, buyer, requestId, books, id);
    case SeedStep(buyer, units) => SeedKeepsBook(s.t, buyer, units, id);
    case _ => SameAsBefore(s.t.books[id]);
  }

  lemma SameAsBefore(b: Book)
    ensures SameBook(b, b)
  {
  }

  lemma SpendKeepsBook(c: Config, t: Tables, q: SpendRequest, clock: int, committedAt: int, receiptId: Id, id: Id)
    requires id in t.books
    ensures var t' := Spend(c, t, q, clock, committedAt, receiptId).0;
            id in t'.books && SameBook(t.books[id], t'.books[id]) && t'.items == t.items
  {
    hide IsIdentifier, BookSpendHolds, AccountHolds, IndexEntry;
  }

  lemma CancelKeepsBook(t: Tables, buyer: Id, book: Id, id: Id)
    requires id in t.books
    ensures var t' := Cancel(t, buyer, book).0; id in t'.books && SameBook(t.books[id], t'.books[id]) && t'.items == t.items
  {
    hide IsIdentifier, ReleaseHolds, WithRelease;
  }

  lemma CancelManyKeepsBook(c: Config, t: Tables, buyer: Id, requestId: Id, books: seq<Id>, id: Id)
    requires id in t.books
    ensures var t' := CancelMany(c, t, buyer, requestId, books).0;
            id in t'.books && SameBook(t.books[id], t'.books[id]) && t'.items == t.items
  {
    hide ValidCancel, ReleaseHolds, WithRelease, Sorted, CloseAll, Remaining;
    if OwnsAll(t, buyer, Sorted(books)) {
      CloseAllSame(t.books, Sorted(books), id);
    }
  }

  lemma SeedKeepsBook(t: Tables, buyer: Id, units: int, id: Id)
    requires id in t.books
    ensures var t' := Seed(t, buyer, units).0; id in t'.books && SameBook(t.books[id], t'.books[id]) && t'.items == t.items
  {
    hide IsIdentifier;
  }

  /** Once written, a book stays: only its remaining units and its closing move. */
  lemma BookStays(c: Config, s: System, step: Step, id: Id, b: Book, lines: seq<Line>)
    requires ItemsHaveBooks(s.t) && Written(s.t, id, b, lines)
    ensures Written(Next(c, s, step).0.t, id, b, lines)
  {
    hide Next, ItemsHaveBooks, ItemsOf, AddItems;
    BookAndItemsStay(c, s, step, id);
  }

  /** A book appears only by committing a prepared issuance, as that says. */
  lemma BookAppears(c: Config, s: System, step: Step, id: Id) returns (x: nat)
    requires ItemsHaveBooks(s.t) && id !in s.t.books && id in Next(c, s, step).0.t.books
    ensures step.CommitStep? && step.worker in s.pending && Commits(s.t, s.pending[step.worker], step.clock, id, x)
    ensures Written(Next(c, s, step).0.t, id, NewBook(s.pending[step.worker], x), s.pending[step.worker].manifests[x])
  {
    hide BookSpendHolds, AddBooks, AddAllItems, AddItems, Response, Manifests, Remaining, OwnsAll, IsIdentifier, Sorted, ValidIssue,
         ValidSpend, ValidCancel, CommitIssue, Written, NewBook;
    if step.CommitStep? && step.worker in s.pending && WellFormed(s.pending[step.worker]) {
      CommitWrites(s.t, s.pending[step.worker], step.clock, id);
      x :| Commits(s.t, s.pending[step.worker], step.clock, id, x)
           && Written(Next(c, s, step).0.t, id, NewBook(s.pending[step.worker], x), s.pending[step.worker].manifests[x]);
    }
  }

  lemma {:induction false} RunsKeepItems(c: Config, steps: seq<Step>, n: nat)
    requires n <= |steps|
    ensures ItemsHaveBooks(After(c, System(EMPTY, map[]), steps, n).t)
  {
    hide Next;
    if n > 0 {
      hide ItemsHaveBooks;
      RunsKeepItems(c, steps, n - 1);
      ItemsKeepBooks(c, After(c, System(EMPTY, map[]), steps, n - 1), steps[n - 1]);
    }
  }

  /** Every book of every run goes back to an order: it was prepared within the order's budget and committed in time while
      its key was live, with no book of that id before. Whenever it is looked at later, it is the order's own: buyer, key,
      token and validity as written then, and as items exactly the sorted group it was ordered for, as the catalog has it. */
  lemma {:induction false} EveryBookWasOrdered(c: Config, steps: seq<Step>, n: nat, id: Id) returns (j: nat, i: nat, x: nat)
    requires n <= |steps| && id in After(c, System(EMPTY, map[]), steps, n).t.books
    ensures j < i < n && steps[j].PrepareStep? && steps[i].CommitStep? && steps[i].worker == steps[j].worker
    ensures var s, q := After(c, System(EMPTY, map[]), steps, i), steps[j].order;
            && steps[i].worker in s.pending
            && var p := s.pending[steps[i].worker];
            && Ordered(c, q, p) && p.now == steps[j].now && steps[j].minted == Some(Minted(p.kid, p.ids, p.tokens))
            && Commits(s.t, p, steps[i].clock, id, x)
            && (forall r | r in Sorted(q.books[x]) :: r in c.catalog)
            && Written(After(c, System(EMPTY, map[]), steps, n).t, id, NewBook(p, x), Manifest(c.catalog, Sorted(q.books[x])))
    decreases n
  {
    hide Next, Ordered, Commits, Written, NewBook, Manifest, Sorted, ItemsHaveBooks;
    var start := System(EMPTY, map[]);
    assert n > 0;
    var s := After(c, start, steps, n - 1);
    RunsKeepItems(c, steps, n - 1);
    if id in s.t.books {
      j, i, x := EveryBookWasOrdered(c, steps, n - 1, id);
      var p := After(c, start, steps, i).pending[steps[i].worker];
      CommitsIndex(c, steps[j].order, p, After(c, start, steps, i).t, steps[i].clock, id, x);
      BookStays(c, s, steps[n - 1], id, NewBook(p, x), Manifest(c.catalog, Sorted(steps[j].order.books[x])));
    } else {
      i := n - 1;
      x := BookAppears(c, s, steps[n - 1], id);
      j := EveryPreparationWasOrdered(c, steps, n - 1, steps[n - 1].worker);
      CommitsIndex(c, steps[j].order, s.pending[steps[i].worker], s.t, steps[i].clock, id, x);
    }
  }

  /** The book of an order lists its own group. */
  lemma CommitsIndex(c: Config, q: IssueRequest, p: Prepared, t: Tables, clock: int, id: Id, x: nat)
    requires Ordered(c, q, p) && Commits(t, p, clock, id, x)
    ensures WellFormed(p) && x < |q.books| == |p.ids| && forall r | r in Sorted(q.books[x]) :: r in c.catalog
    ensures p.manifests[x] == Manifest(c.catalog, Sorted(q.books[x]))
  {
    hide Manifest, Sorted, ValidGroup;
    ManifestOfBook(c.catalog, q.books, x);
  }

  // ----- After revocation

  /** No book of this key, and no receipt from one, is in the second tables that is not in the first. */
  predicate NothingNew(t: Tables, t': Tables, kid: Id) {
    && kid in t'.revoked
    && (forall id | id in t'.books && t'.books[id].kid == kid :: id in t.books)
    && forall k | k in t'.receipts && k !in t.receipts ::
         var book := t'.receipts[k].receipt.book; book.None? || (book.value in t'.books && t'.books[book.value].kid != kid)
  }

  lemma RevokedStays(c: Config, s: System, step: Step)
    ensures s.t.revoked <= Next(c, s, step).0.t.revoked
    ensures step.RevokeStep? ==> step.kid in Next(c, s, step).0.t.revoked
    ensures step.RevokeStep? ==> Next(c, s, step).0.t.books == s.t.books && Next(c, s, step).0.t.receipts == s.t.receipts
  {
    hide AddBooks, AddAllItems, BookAllows, BookSpendHolds, Response, Manifests, Remaining, OwnsAll, IsIdentifier, Sorted, CloseAll,
         ValidIssue, ValidSpend, ValidCancel, AccountHolds;
  }

  lemma RevokedStep(c: Config, s: System, step: Step, kid: Id)
    requires ItemsHaveBooks(s.t) && kid in s.t.revoked
    ensures NothingNew(s.t, Next(c, s, step).0.t, kid)
  {
    hide Next, ItemsHaveBooks, ItemsOf, AddItems;
    var t' := Next(c, s, step).0.t;
    RevokedStays(c, s, step);
    forall id | id in t'.books && t'.books[id].kid == kid
      ensures id in s.t.books
    {
      if id !in s.t.books {
        var x := BookAppears(c, s, step, id);
        assert false;
      }
    }
    forall k | k in t'.receipts && k !in s.t.receipts && t'.receipts[k].receipt.book.Some?
      ensures var id := t'.receipts[k].receipt.book.value; id in t'.books && t'.books[id].kid != kid
    {
      ReceiptAppears(c, s, step, k);
      BookAndItemsStay(c, s, step, t'.receipts[k].receipt.book.value);
    }
  }

  lemma NothingNewYet(c: Config, t: Tables, s: System, step: Step, kid: Id)
    requires ItemsHaveBooks(s.t) && NothingNew(t, s.t, kid)
    ensures NothingNew(t, Next(c, s, step).0.t, kid)
  {
    hide Next, ItemsHaveBooks, ItemsOf;
    RevokedStep(c, s, step, kid);
    var t' := Next(c, s, step).0.t;
    forall id | id in s.t.books
      ensures id in t'.books && t'.books[id].kid == s.t.books[id].kid
    {
      BookAndItemsStay(c, s, step, id);
    }
    forall k | k in s.t.receipts
      ensures k in t'.receipts && t'.receipts[k] == s.t.receipts[k]
    {
      ReceiptRemains(c, s, step, k);
    }
  }

  /** Once a key is revoked, no book is ever committed under it, and nothing is bought from a book under it. */
  lemma {:induction false} RevocationIsFinal(c: Config, steps: seq<Step>, i: nat, j: nat)
    requires i < j <= |steps| && steps[i].RevokeStep?
    ensures NothingNew(After(c, System(EMPTY, map[]), steps, i).t, After(c, System(EMPTY, map[]), steps, j).t, steps[i].kid)
    decreases j
  {
    hide Next, NothingNew, ItemsHaveBooks;
    var start := System(EMPTY, map[]);
    RunsKeepItems(c, steps, j - 1);
    if i + 1 < j {
      RevocationIsFinal(c, steps, i, j - 1);
      NothingNewYet(c, After(c, start, steps, i).t, After(c, start, steps, j - 1), steps[j - 1], steps[i].kid);
    } else {
      JustRevoked(c, After(c, start, steps, i), steps[i]);
    }
  }

  lemma JustRevoked(c: Config, s: System, step: Step)
    requires step.RevokeStep?
    ensures NothingNew(s.t, Next(c, s, step).0.t, step.kid)
  {
    hide Next;
    RevokedStays(c, s, step);
  }
}
