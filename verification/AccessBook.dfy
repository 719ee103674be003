/** The local clearing engine for prepaid access books: its tables, and each operation as one step on them. Rows that the
    engine shares with the online ledger (accounts, items) use the same types and updates. */
module AccessBook {
  import opened Options
  import opened Identifiers
  import L = LedgerTables
  import H = HttpLedger

  const MAX_ITEMS: nat := 256
  const MAX_UNITS: int := 1000000000000
  const MAX_TTL: int := 300

  type Key = L.Key
  type Result<+T> = L.Result<T>

  datatype Offer = Offer(content: Id, terms: Id, units: int, validUntil: int)

  /** What the issuer signs, and stores as the payload of the book. */
  datatype Claims = Claims(publisher: Id, buyer: Id, issued: int, expires: int, book: Id, manifest: Id, count: nat, total: int)

  datatype Book = Book(buyer: Id, publisher: Id, requestHash: Id, claims: Claims, token: Id, issued: int, expires: int,
                       remaining: int, active: bool, closed: bool)

  datatype Receipt = Receipt(id: Id, book: Id, resource: Id, buyer: Id, publisher: Id, content: Id, terms: Id,
                             units: int, committedAt: int)
  datatype Redemption = Redemption(requestHash: Id, receipt: Receipt)

  datatype Tables = Tables(
    accounts: map<Id, L.Account>,
    offers: map<Key, Offer>,          // by publisher and resource
    books: map<Id, Book>,
    requests: map<Key, Id>,           // the unique index on (buyer, request id) of books
    items: map<Key, L.Item>,          // by book and resource
    redemptions: map<Key, Redemption>,  // by buyer and request id
    redeemed: set<Key>,               // the unique index on (book, resource) of redemptions
    publishers: map<Id, int>,         // accrued units
    revoked: bool)                    // the issuer's one key

  const EMPTY := Tables(map[], map[], map[], map[], map[], map[], {}, map[], false)

  /** What a fingerprint covers. */
  datatype Body =
    | IssueBody(buyer: Id, publisher: Id, resources: seq<Id>, maxUnits: int, ttl: int)
    | RedeemBody(book: Id, resource: Id, buyer: Id, publisher: Id, content: Id, terms: Id)
    | ManifestBody(publisher: Id, lines: seq<L.Line>, validUntil: seq<int>)

  datatype Config = Config(digest: Body -> Id, verifies: (Id, Claims) -> bool)

  // ----- Bounded arguments

  predicate IsNameChar(c: char) {
    Identifiers.IsNameChar(c) || c == ':' || c == '/'
  }

  predicate IsName(id: Id) {
    1 <= |id.text| <= 128 && forall c | c in id.text :: IsNameChar(c)
  }

  predicate IsSha256(id: Id) {
    |id.text| == 64 && forall c | c in id.text :: '0' <= c <= '9' || 'a' <= c <= 'f'
  }

  predicate InRange(value: int, minimum: int, maximum: int) {
    minimum <= value <= maximum
  }

  /** A clock reading is itself a bounded argument. */
  predicate Reads(now: int) {
    InRange(now, 1, MAX_UNITS)
  }

  /** The error of a failed step, for the step that contains it. */
  function Failure<A, B>(r: Result<A>): Result<B>
    requires !r.Ok?
  {
    if r.Denied? then L.Denied else L.Raised
  }

  // ----- Seeding, offers, revocation

  function Seed(t: Tables, buyer: Id, units: int): (Tables, Result<()>) {
    if !IsName(buyer) || !InRange(units, 1, MAX_UNITS) then (t, L.Denied)
    else if buyer in t.accounts then (t, L.Raised)
    else (t.(accounts := t.accounts[buyer := L.Account(units, units, 0, 0)]), L.Ok(()))
  }

  predicate ValidOffer(publisher: Id, resource: Id, o: Offer) {
    && IsName(publisher) && IsName(resource) && IsSha256(o.content) && IsSha256(o.terms)
    && InRange(o.units, 1, MAX_UNITS) && InRange(o.validUntil, 1, MAX_UNITS)
  }

  /** A publisher's first offer also opens the publisher's row. */
  function SetOffer(t: Tables, publisher: Id, resource: Id, o: Offer): (Tables, Result<()>) {
    if !ValidOffer(publisher, resource, o) then (t, L.Denied)
    else
      (t.(offers := t.offers[(publisher, resource) := o],
          publishers := if publisher in t.publishers then t.publishers else t.publishers[publisher := 0]), L.Ok(()))
  }

  function RevokeKey(t: Tables): Tables {
    t.(revoked := true)
  }

  // ----- Issuing

  datatype Order = Order(buyer: Id, publisher: Id, resources: seq<Id>, maxUnits: int, requestId: Id, ttl: int)

  /** What the random source and the signer supply; no token when signing fails. */
  datatype Minted = Minted(book: Id, token: Option<Id>)

  predicate ValidOrder(q: Order) {
    && IsName(q.buyer) && IsName(q.publisher) && IsName(q.requestId)
    && InRange(q.maxUnits, 1, MAX_UNITS) && InRange(q.ttl, 1, MAX_TTL)
    && 1 <= |q.resources| <= MAX_ITEMS
    && (forall r | r in q.resources :: IsName(r)) && NoDuplicates(Sorted(q.resources))
  }

  predicate OnSale(offers: map<Key, Offer>, publisher: Id, names: seq<Id>, now: int) {
    forall r | r in names :: (publisher, r) in offers && now < offers[(publisher, r)].validUntil
  }

  function Lines(offers: map<Key, Offer>, publisher: Id, names: seq<Id>): (lines: seq<L.Line>)
    requires forall r | r in names :: (publisher, r) in offers
    ensures |lines| == |names|
  {
    seq(|names|, i requires 0 <= i < |names| =>
      var o := offers[(publisher, names[i])];
      L.Line(names[i], o.content, o.terms, o.units))
  }

  function Deadlines(offers: map<Key, Offer>, publisher: Id, names: seq<Id>): seq<int>
    requires forall r | r in names :: (publisher, r) in offers
  {
    seq(|names|, i requires 0 <= i < |names| => offers[(publisher, names[i])].validUntil)
  }

  function Earliest(bound: int, deadlines: seq<int>): (m: int)
    ensures m <= bound && forall d | d in deadlines :: m <= d
    ensures m == bound || m in deadlines
  {
    if deadlines == [] then bound
    else
      var rest, last := Earliest(bound, deadlines[..|deadlines| - 1]), deadlines[|deadlines| - 1];
      assert deadlines == deadlines[..|deadlines| - 1] + [last];
      if last < rest then last else rest
  }

  /** The request hash; resources are sorted first. */
  function OrderHash(c: Config, q: Order): Id {
    c.digest(IssueBody(q.buyer, q.publisher, Sorted(q.resources), q.maxUnits, q.ttl))
  }

  /** The book that an accepted order writes. */
  function NewBook(c: Config, offers: map<Key, Offer>, q: Order, now: int, id: Id, token: Id): Book
    requires forall r | r in Sorted(q.resources) :: (q.publisher, r) in offers
  {
    var names := Sorted(q.resources);
    var lines, deadlines := Lines(offers, q.publisher, names), Deadlines(offers, q.publisher, names);
    var total, expires := L.Units(lines), Earliest(now + q.ttl, deadlines);
    var manifest := c.digest(ManifestBody(q.publisher, lines, deadlines));
    Book(q.buyer, q.publisher, OrderHash(c, q),
         Claims(q.publisher, q.buyer, now, expires, id, manifest, |names|, total),
         token, now, expires, total, false, false)
  }

  function AfterIssue(c: Config, t: Tables, q: Order, now: int, id: Id, token: Id): Tables
    requires q.buyer in t.accounts && forall r | r in Sorted(q.resources) :: (q.publisher, r) in t.offers
  {
    var lines := Lines(t.offers, q.publisher, Sorted(q.resources));
    t.(accounts := t.accounts[q.buyer := L.Reserve(t.accounts[q.buyer], L.Units(lines))],
       books := t.books[id := NewBook(c, t.offers, q, now, id, token)],
       requests := t.requests[(q.buyer, q.requestId) := id],
       items := L.AddItems(t.items, id, lines))
  }

  /** The book and token of an earlier order under the same request id. */
  function PriorBook(t: Tables, key: Key): Option<Id> {
    if key in t.requests && t.requests[key] in t.books then Some(t.requests[key]) else None
  }

  function Issue(c: Config, t: Tables, q: Order, now: int, minted: Minted): (Tables, Result<(Id, Id)>) {
    if !ValidOrder(q) || t.revoked then (t, L.Denied)
    else if PriorBook(t, (q.buyer, q.requestId)).Some? then
      var id := PriorBook(t, (q.buyer, q.requestId)).value;
      (t, if t.books[id].requestHash == OrderHash(c, q) then L.Ok((id, t.books[id].token)) else L.Denied)
    else if !Reads(now) || !OnSale(t.offers, q.publisher, Sorted(q.resources), now) then (t, L.Denied)
    else
      var total := L.Units(Lines(t.offers, q.publisher, Sorted(q.resources)));
      if total > q.maxUnits || q.buyer !in t.accounts || t.accounts[q.buyer].available < total then (t, L.Denied)
      else if !L.AccountHolds(L.Reserve(t.accounts[q.buyer], total)) || minted.token.None? || minted.book in t.books
      then (t, L.Raised)
      else (AfterIssue(c, t, q, now, minted.book, minted.token.value), L.Ok((minted.book, minted.token.value)))
  }

  // ----- Activating

  datatype Admission = Admission(book: Id, token: Id, buyer: Id, publisher: Id)

  predicate Owned(t: Tables, book: Id, buyer: Id, publisher: Id) {
    book in t.books && t.books[book].buyer == buyer && t.books[book].publisher == publisher
  }

  predicate Within(b: Book, now: int) {
    Reads(now) && b.issued <= now < b.expires
  }

  /** Verify the token once; the clock is read a second time for its claims. */
  function Activate(c: Config, t: Tables, q: Admission, now: int, verifiedAt: int): (Tables, Result<Id>) {
    if !IsName(q.book) || !IsName(q.buyer) || !IsName(q.publisher) || |q.token.text| > 4096 || t.revoked then (t, L.Denied)
    else if !Owned(t, q.book, q.buyer, q.publisher) || t.books[q.book].closed || !Within(t.books[q.book], now) then
      (t, L.Denied)
    else
      var b := t.books[q.book];
      if q.token != b.token then (t, L.Denied)
      else if b.active then (t, L.Ok(q.book))
      else if !Reads(verifiedAt) || !c.verifies(q.token, b.claims) || !(b.claims.issued <= verifiedAt < b.claims.expires)
      then (t, L.Denied)
      else (t.(books := t.books[q.book := b.(active := true)]), L.Ok(q.book))
  }

  // ----- Redeeming

  datatype Use = Use(book: Id, resource: Id, buyer: Id, publisher: Id, content: Id, terms: Id, requestId: Id)

  function UseHash(c: Config, q: Use): Id {
    c.digest(RedeemBody(q.book, q.resource, q.buyer, q.publisher, q.content, q.terms))
  }

  predicate ValidUse(q: Use) {
    && IsName(q.book) && IsName(q.resource) && IsName(q.buyer) && IsName(q.publisher) && IsName(q.requestId)
    && IsSha256(q.content) && IsSha256(q.terms)
  }

  /** A new redemption is allowed. */
  predicate UseAllowed(t: Tables, q: Use, now: int) {
    && !t.revoked
    && Owned(t, q.book, q.buyer, q.publisher)
    && var b := t.books[q.book];
    && b.active && !b.closed && Within(b, now)
    && (q.book, q.resource) in t.items
    && t.items[(q.book, q.resource)].content == q.content && t.items[(q.book, q.resource)].terms == q.terms
    && (q.book, q.resource) !in t.redeemed
  }

  function Draw(b: Book, units: int): Book {
    b.(remaining := b.remaining - units)
  }

  function WithAccrual(publishers: map<Id, int>, publisher: Id, units: int): map<Id, int> {
    if publisher in publishers then publishers[publisher := publishers[publisher] + units] else publishers
  }

  function AfterUse(c: Config, t: Tables, q: Use, units: int, receipt: Receipt): Tables
    requires q.book in t.books && q.buyer in t.accounts
  {
    t.(accounts := t.accounts[q.buyer := L.SpendReserved(t.accounts[q.buyer], units)],
       books := t.books[q.book := Draw(t.books[q.book], units)],
       publishers := WithAccrual(t.publishers, q.publisher, units),
       redemptions := t.redemptions[(q.buyer, q.requestId) := Redemption(UseHash(c, q), receipt)],
       redeemed := t.redeemed + {(q.book, q.resource)})
  }

  /** No CHECK constraint stops the three updates. */
  predicate UseFits(t: Tables, q: Use, units: int)
    requires q.book in t.books
  {
    && q.buyer in t.accounts && L.AccountHolds(L.SpendReserved(t.accounts[q.buyer], units))
    && t.books[q.book].remaining >= units
    && (q.publisher in t.publishers ==> t.publishers[q.publisher] + units >= 0)
  }

  function NewReceipt(t: Tables, q: Use, now: int, receiptId: Id): Receipt
    requires (q.book, q.resource) in t.items
  {
    Receipt(receiptId, q.book, q.resource, q.buyer, q.publisher, q.content, q.terms,
            t.items[(q.book, q.resource)].units, now)
  }

  function Redeem(c: Config, t: Tables, q: Use, now: int, receiptId: Id): (Tables, Result<Receipt>) {
    if !ValidUse(q) then (t, L.Denied)
    else if (q.buyer, q.requestId) in t.redemptions then
      var prior := t.redemptions[(q.buyer, q.requestId)];
      (t, if prior.requestHash == UseHash(c, q) then L.Ok(prior.receipt) else L.Denied)
    else if !UseAllowed(t, q, now) then (t, L.Denied)
    else
      var receipt := NewReceipt(t, q, now, receiptId);
      if !UseFits(t, q, receipt.units) then (t, L.Raised)
      else (AfterUse(c, t, q, receipt.units, receipt), L.Ok(receipt))
  }

  // ----- Releasing

  function Close(b: Book): Book {
    b.(remaining := 0, closed := true)
  }

  function ReleaseBook(t: Tables, book: Id, buyer: Id): (Tables, Result<int>) {
    if !IsName(book) || !IsName(buyer) || book !in t.books || t.books[book].buyer != buyer then (t, L.Denied)
    else if t.books[book].closed then (t, L.Ok(0))
    else
      var units := t.books[book].remaining;
      if !H.ReleaseHolds(t.accounts, buyer, units) then (t, L.Raised)
      else
        (t.(accounts := H.WithRelease(t.accounts, buyer, units), books := t.books[book := Close(t.books[book])]), L.Ok(units))
  }

  // ----- Purchasing

  datatype Purchase = Purchase(resource: Id, buyer: Id, publisher: Id, content: Id, terms: Id, maxUnits: int, requestId: Id)

  /** What one purchase draws from clock, randomness and signer. */
  datatype Draws = Draws(issuedAt: int, minted: Minted, admittedAt: int, verifiedAt: int, redeemedAt: int, receiptId: Id)

  datatype Bought = Bought(book: Id, token: Id, receipt: Receipt)

  function OrderOf(q: Purchase): Order {
    Order(q.buyer, q.publisher, [q.resource], q.maxUnits, q.requestId, MAX_TTL)
  }

  function UseOf(q: Purchase, book: Id): Use {
    Use(book, q.resource, q.buyer, q.publisher, q.content, q.terms, q.requestId)
  }

  /** Admission, unless the purchase was committed before. */
  function Admit(c: Config, t: Tables, q: Purchase, book: Id, token: Id, d: Draws): (Tables, Result<Id>) {
    if (q.buyer, q.requestId) in t.redemptions then (t, L.Ok(book))
    else Activate(c, t, Admission(book, token, q.buyer, q.publisher), d.admittedAt, d.verifiedAt)
  }

  /** Issue, activate and redeem in one transaction. */
  function Buy(c: Config, t: Tables, q: Purchase, d: Draws): (Tables, Result<Bought>) {
    var (t1, issued) := Issue(c, t, OrderOf(q), d.issuedAt, d.minted);
    if !issued.Ok? then (t, Failure(issued))
    else
      var (book, token) := issued.value;
      var (t2, admitted) := Admit(c, t1, q, book, token, d);
      if !admitted.Ok? then (t, Failure(admitted))
      else
        var (t3, receipt) := Redeem(c, t2, UseOf(q, book), d.redeemedAt, d.receiptId);
        if !receipt.Ok? then (t, Failure(receipt))
        else (t3, L.Ok(Bought(book, token, receipt.value)))
  }
}
