/** The transactions of the online ledger as functions from tables to tables. */
module HttpLedger {
  import opened Options
  import opened Identifiers
  import opened LedgerTables

  const MAX_UNITS: int := 1000000000000

  /** What a fingerprint covers, one shape for each kind of request. */
  datatype Body =
    | IssueBody(books: seq<seq<Id>>, maxUnits: int, ttl: int)
    | SpendBody(book: Option<Id>, resource: Id, content: Id, terms: Id, maxUnits: int)
    | CancelBody(ids: seq<Id>)

  /** The fixed surroundings of a ledger: its catalog and the digest of canonical bodies. */
  datatype Config = Config(catalog: Catalog, digest: Body -> Id)

  // ----- Seeding

  function Seed(t: Tables, buyer: Id, units: int): (Tables, Result<()>) {
    if !IsIdentifier(buyer) || !(1 <= units <= MAX_UNITS) then (t, Denied)
    else if buyer in t.accounts then (t, Raised)
    else (t.(accounts := t.accounts[buyer := Account(units, units, 0, 0)]), Ok(()))
  }

  // ----- Issuing in two transactions

  datatype IssueRequest = IssueRequest(buyer: Id, requestId: Id, books: seq<seq<Id>>, maxUnits: int, ttl: int)

  function ItemCount(books: seq<seq<Id>>): nat {
    if books == [] then 0 else ItemCount(books[..|books| - 1]) + |books[|books| - 1]|
  }

  predicate ValidGroup(catalog: Catalog, group: seq<Id>) {
    && 1 <= |group| <= 32
    && NoDuplicates(Sorted(group))
    && forall r | r in group :: IsIdentifier(r) && r in catalog
  }

  predicate ValidIssue(catalog: Catalog, q: IssueRequest) {
    && IsIdentifier(q.buyer) && IsIdentifier(q.requestId)
    && 1 <= q.maxUnits <= MAX_UNITS && 1 <= q.ttl <= 300
    && 1 <= |q.books| <= 256 && ItemCount(q.books) <= 2048
    && forall g | g in q.books :: ValidGroup(catalog, g)
  }

  function Manifest(catalog: Catalog, names: seq<Id>): (m: seq<Line>)
    requires forall r | r in names :: r in catalog
    ensures |m| == |names|
  {
    seq(|names|, i requires 0 <= i < |names| =>
      Line(names[i], catalog[names[i]].content, catalog[names[i]].terms, catalog[names[i]].units))
  }

  lemma SortedMembers(s: seq<Id>)
    ensures forall x :: x in Sorted(s) <==> x in s
  {
    assert forall x :: x in Sorted(s) <==> x in multiset(Sorted(s));
    assert forall x :: x in s <==> x in multiset(s);
  }

  function Manifests(catalog: Catalog, books: seq<seq<Id>>): (m: seq<seq<Line>>)
    requires forall g | g in books :: ValidGroup(catalog, g)
    ensures |m| == |books|
  {
    if books == [] then []
    else
      var last := books[|books| - 1];
      SortedMembers(last);
      assert ValidGroup(catalog, last);
      assert forall r | r in Sorted(last) :: r in last;
      Manifests(catalog, books[..|books| - 1]) + [Manifest(catalog, Sorted(last))]
  }

  function UnitsOfAll(manifests: seq<seq<Line>>): int {
    if manifests == [] then 0 else UnitsOfAll(manifests[..|manifests| - 1]) + Units(manifests[|manifests| - 1])
  }

  /** What one issuance carries from its first transaction, over signing, to its second. */
  datatype Prepared = Prepared(buyer: Id, requestId: Id, fingerprint: Id, now: int, ttl: int, kid: Id,
                               ids: seq<Id>, tokens: seq<Id>, manifests: seq<seq<Line>>)

  datatype Preparation = Replay(response: seq<Issued>) | Ready(prepared: Prepared)

  /** What the random source and the signer supply: one id and one token per book, under one key. */
  datatype Minted = Minted(kid: Id, ids: seq<Id>, tokens: seq<Id>)

  /** The read transaction and signing; None as `minted` is a signer failure. */
  function PrepareIssue(c: Config, t: Tables, q: IssueRequest, now: int, minted: Option<Minted>): Result<Preparation> {
    if !ValidIssue(c.catalog, q) then Denied
    else
      var key, fingerprint := (q.buyer, q.requestId), c.digest(IssueBody(q.books, q.maxUnits, q.ttl));
      if key in t.issues then
        if t.issues[key].fingerprint == fingerprint then Ok(Replay(t.issues[key].response)) else Denied
      else
        var manifests := Manifests(c.catalog, q.books);
        if UnitsOfAll(manifests) > q.maxUnits then Denied
        else if minted.None? || |minted.value.ids| != |q.books| || |minted.value.tokens| != |q.books| then Raised
        else Ok(Ready(Prepared(q.buyer, q.requestId, fingerprint, now, q.ttl, minted.value.kid,
                               minted.value.ids, minted.value.tokens, manifests)))
  }

  predicate WellFormed(p: Prepared) {
    |p.ids| == |p.tokens| == |p.manifests|
  }

  function Response(p: Prepared): seq<Issued>
    requires WellFormed(p)
  {
    seq(|p.ids|, i requires 0 <= i < |p.ids| => Issued(p.ids[i], p.tokens[i], p.manifests[i]))
  }

  function NewBook(p: Prepared, i: nat): Book
    requires WellFormed(p) && i < |p.ids|
  {
    Book(p.buyer, p.kid, p.tokens[i], p.now, p.now + p.ttl, Units(p.manifests[i]), false)
  }

  function AddBooks(books: map<Id, Book>, p: Prepared, n: nat): map<Id, Book>
    requires WellFormed(p) && n <= |p.ids|
  {
    if n == 0 then books else AddBooks(books, p, n - 1)[p.ids[n - 1] := NewBook(p, n - 1)]
  }

  function AddAllItems(items: map<Key, Item>, p: Prepared, n: nat): map<Key, Item>
    requires WellFormed(p) && n <= |p.ids|
  {
    if n == 0 then items else AddItems(AddAllItems(items, p, n - 1), p.ids[n - 1], p.manifests[n - 1])
  }

  /** No inserted book or item repeats a key: the new ids are new, all different, and no book lists a resource twice. */
  predicate Insertable(books: map<Id, Book>, p: Prepared)
    requires WellFormed(p)
  {
    && (forall i | 0 <= i < |p.ids| :: p.ids[i] !in books && Units(p.manifests[i]) >= 0 && DistinctLines(p.manifests[i]))
    && NoDuplicates(p.ids)
  }

  predicate DistinctLines(lines: seq<Line>) {
    forall i, j | 0 <= i < j < |lines| :: lines[i].resource != lines[j].resource
  }

  function AfterIssue(t: Tables, p: Prepared): Tables
    requires WellFormed(p) && p.buyer in t.accounts
  {
    t.(accounts := t.accounts[p.buyer := Reserve(t.accounts[p.buyer], UnitsOfAll(p.manifests))],
       books := AddBooks(t.books, p, |p.ids|),
       items := AddAllItems(t.items, p, |p.ids|),
       issues := t.issues[(p.buyer, p.requestId) := IssueRow(p.fingerprint, Response(p))])
  }

  /** The write transaction: replay, re-check time, key and funds, then reserve and insert. */
  function CommitIssue(t: Tables, p: Prepared, clock: int): (Tables, Result<seq<Issued>>)
    requires WellFormed(p)
  {
    var key, total := (p.buyer, p.requestId), UnitsOfAll(p.manifests);
    if key in t.issues then
      (t, if t.issues[key].fingerprint == p.fingerprint then Ok(t.issues[key].response) else Denied)
    else if !(p.now <= clock < p.now + p.ttl) || p.kid in t.revoked then (t, Denied)
    else if p.buyer !in t.accounts || t.accounts[p.buyer].available < total then (t, Denied)
    else if !AccountHolds(Reserve(t.accounts[p.buyer], total)) || !Insertable(t.books, p) then (t, Raised)
    else (AfterIssue(t, p), Ok(Response(p)))
  }

  // ----- Spending

  datatype SpendRequest = SpendRequest(buyer: Id, requestId: Id, resource: Id, content: Id, terms: Id, maxUnits: int,
                                       book: Option<Id>, token: Option<Id>)

  /** The fingerprint does not cover the token. */
  function SpendFingerprint(c: Config, q: SpendRequest): Id {
    c.digest(SpendBody(q.book, q.resource, q.content, q.terms, q.maxUnits))
  }

  predicate ValidSpend(catalog: Catalog, q: SpendRequest) {
    && IsIdentifier(q.buyer) && IsIdentifier(q.requestId) && IsIdentifier(q.resource)
    && 1 <= q.maxUnits <= MAX_UNITS && (q.book.Some? ==> IsIdentifier(q.book.value))
    && q.resource in catalog
    && q.content == catalog[q.resource].content && q.terms == catalog[q.resource].terms
  }

  /** A new redemption from this book is allowed at this time. */
  predicate BookAllows(t: Tables, q: SpendRequest, units: int, clock: int)
    requires q.book.Some?
  {
    && q.book.value in t.books
    && var b := t.books[q.book.value];
    && b.buyer == q.buyer && Some(b.token) == q.token && !b.closed
    && b.issued <= clock < b.expires && b.kid !in t.revoked
    && (q.book.value, q.resource) in t.items
    && t.items[(q.book.value, q.resource)] == Item(q.content, q.terms, units)
    && (q.book.value, q.resource) !in t.redeemed
  }

  function AfterBookSpend(t: Tables, q: SpendRequest, units: int, row: ReceiptRow): Tables
    requires q.book.Some? && q.book.value in t.books && q.buyer in t.accounts
  {
    t.(books := t.books[q.book.value := Draw(t.books[q.book.value], units)],
       accounts := t.accounts[q.buyer := SpendReserved(t.accounts[q.buyer], units)],
       receipts := t.receipts[(q.buyer, q.requestId) := row],
       redeemed := t.redeemed + IndexEntry(row.receipt),
       accrued := t.accrued + units)
  }

  function AfterDirectSpend(t: Tables, q: SpendRequest, units: int, row: ReceiptRow): Tables
    requires q.buyer in t.accounts
  {
    t.(accounts := t.accounts[q.buyer := SpendAvailable(t.accounts[q.buyer], units)],
       receipts := t.receipts[(q.buyer, q.requestId) := row],
       accrued := t.accrued + units)
  }

  function Spend(c: Config, t: Tables, q: SpendRequest, clock: int, committedAt: int, receiptId: Id): (Tables, Result<Receipt>) {
    if !ValidSpend(c.catalog, q) then (t, Denied)
    else
      var key, fingerprint, units := (q.buyer, q.requestId), SpendFingerprint(c, q), c.catalog[q.resource].units;
      if key in t.receipts then
        (t, if t.receipts[key].fingerprint == fingerprint then Ok(t.receipts[key].receipt) else Denied)
      else if units > q.maxUnits then (t, Denied)
      else
        var receipt := Receipt(receiptId, q.buyer, q.book, q.resource, q.content, q.terms, units, committedAt);
        var row := ReceiptRow(fingerprint, receipt);
        if q.book.Some? then
          if !BookAllows(t, q, units, clock) then (t, Denied)
          else if q.buyer !in t.accounts || !BookSpendHolds(t, q, units) then (t, Raised)
          else (AfterBookSpend(t, q, units, row), Ok(receipt))
        else if q.buyer !in t.accounts || t.accounts[q.buyer].available < units then (t, Denied)
        else if !AccountHolds(SpendAvailable(t.accounts[q.buyer], units)) || t.accrued + units < 0 then (t, Raised)
        else (AfterDirectSpend(t, q, units, row), Ok(receipt))
  }

  /** No CHECK constraint stops the updates of a purchase from a book. */
  predicate BookSpendHolds(t: Tables, q: SpendRequest, units: int)
    requires q.book.Some? && q.book.value in t.books && q.buyer in t.accounts
  {
    && Draw(t.books[q.book.value], units).remaining >= 0
    && AccountHolds(SpendReserved(t.accounts[q.buyer], units))
    && t.accrued + units >= 0
  }

  // ----- Cancelling

  /** The buyer's row after a release; an UPDATE that matches no row changes nothing. */
  function WithRelease(accounts: map<Id, Account>, buyer: Id, units: int): map<Id, Account> {
    if buyer in accounts then accounts[buyer := Release(accounts[buyer], units)] else accounts
  }

  predicate ReleaseHolds(accounts: map<Id, Account>, buyer: Id, units: int) {
    buyer in accounts ==> AccountHolds(Release(accounts[buyer], units))
  }

  function Cancel(t: Tables, buyer: Id, book: Id): (Tables, Result<int>) {
    if !IsIdentifier(book) then (t, Denied)
    else if book !in t.books || t.books[book].buyer != buyer then (t, Denied)
    else
      var units := t.books[book].remaining;
      if !ReleaseHolds(t.accounts, buyer, units) then (t, Raised)
      else
        (t.(accounts := WithRelease(t.accounts, buyer, units), books := t.books[book := Close(t.books[book])]), Ok(units))
  }

  predicate OwnsAll(t: Tables, buyer: Id, books: seq<Id>) {
    forall b | b in books :: b in t.books && t.books[b].buyer == buyer
  }

  function Remaining(books: map<Id, Book>, ids: seq<Id>): int
    requires forall b | b in ids :: b in books
  {
    if ids == [] then 0 else Remaining(books, ids[..|ids| - 1]) + books[ids[|ids| - 1]].remaining
  }

  function CloseAll(books: map<Id, Book>, ids: seq<Id>): (r: map<Id, Book>)
    requires forall b | b in ids :: b in books
    ensures r.Keys == books.Keys
  {
    if ids == [] then books
    else
      var r := CloseAll(books, ids[..|ids| - 1]);
      r[ids[|ids| - 1] := Close(r[ids[|ids| - 1]])]
  }

  function CancelFingerprint(c: Config, books: seq<Id>): Id {
    c.digest(CancelBody(Sorted(books)))
  }

  predicate ValidCancel(buyer: Id, requestId: Id, books: seq<Id>) {
    && IsIdentifier(buyer) && IsIdentifier(requestId) && 1 <= |books| <= 256
    && (forall b | b in books :: IsIdentifier(b)) && NoDuplicates(Sorted(books))
  }

  function CancelMany(c: Config, t: Tables, buyer: Id, requestId: Id, books: seq<Id>): (Tables, Result<Released>) {
    var ids, key := Sorted(books), (buyer, requestId);
    if !ValidCancel(buyer, requestId, books) then (t, Denied)
    else if key in t.cancellations then
      (t, if t.cancellations[key].fingerprint == CancelFingerprint(c, books) then Ok(t.cancellations[key].response) else Denied)
    else if !OwnsAll(t, buyer, ids) then (t, Denied)
    else
      var units := Remaining(t.books, ids);
      if !ReleaseHolds(t.accounts, buyer, units) then (t, Raised)
      else
        (AfterCancelMany(t, buyer, ids, key, CancelRow(CancelFingerprint(c, books), Released(units, |ids|))),
         Ok(Released(units, |ids|)))
  }

  function AfterCancelMany(t: Tables, buyer: Id, ids: seq<Id>, key: Key, row: CancelRow): Tables
    requires forall b | b in ids :: b in t.books
  {
    t.(accounts := WithRelease(t.accounts, buyer, row.response.units), books := CloseAll(t.books, ids),
       cancellations := t.cancellations[key := row])
  }

  function Revoke(t: Tables, kid: Id): Tables {
    t.(revoked := t.revoked + {kid})
  }
}
