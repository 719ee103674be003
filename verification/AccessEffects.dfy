/** When each operation of the access-book engine succeeds, and what it then changes, in terms of the request and the rows. */
module AccessEffects {
  import opened Options
  import opened Identifiers
  import opened AccessBook
  import opened AccessInvariant
  import opened AccessRuns
  import L = LedgerTables
  import H = HttpLedger
  import I = LedgerInvariant
  import E = LedgerEffects
  import O = LedgerOrders
  import Y = LedgerHistory

  // ----- Arguments

  /** Between 1 and 128 letters, digits, dots, underscores, colons, slashes and hyphens. */
  predicate Named(id: Id) {
    && 1 <= |id.text| <= 128
    && forall i | 0 <= i < |id.text| ::
         var c := id.text[i];
         'a' <= c <= 'z' || 'A' <= c <= 'Z' || '0' <= c <= '9' || c == '.' || c == '_' || c == ':' || c == '/' || c == '-'
  }

  lemma NamedExactly(id: Id)
    ensures IsName(id) <==> Named(id)
  {
    if Named(id) {
      forall c | c in id.text
        ensures AccessBook.IsNameChar(c)
      {
        var i :| 0 <= i < |id.text| && id.text[i] == c;
      }
    }
    if IsName(id) {
      forall i | 0 <= i < |id.text|
        ensures AccessBook.IsNameChar(id.text[i])
      {
        assert id.text[i] in id.text;
      }
    }
  }

  /** 64 lower-case hexadecimal digits. */
  predicate Commitment(id: Id) {
    |id.text| == 64 && forall i | 0 <= i < 64 :: '0' <= id.text[i] <= '9' || 'a' <= id.text[i] <= 'f'
  }

  lemma CommitmentExactly(id: Id)
    ensures IsSha256(id) <==> Commitment(id)
  {
    if Commitment(id) {
      forall c | c in id.text
        ensures '0' <= c <= '9' || 'a' <= c <= 'f'
      {
        var i :| 0 <= i < |id.text| && id.text[i] == c;
      }
    }
    if IsSha256(id) {
      forall i | 0 <= i < 64
        ensures '0' <= id.text[i] <= '9' || 'a' <= id.text[i] <= 'f'
      {
        assert id.text[i] in id.text;
      }
    }
  }

  /** Amounts, budgets and clock readings lie between 1 and a million million. */
  predicate Bounded(n: int) {
    1 <= n <= 1000000000000
  }

  // ----- Seeding and offers

  lemma SeedExactly(t: Tables, buyer: Id, units: int)
    ensures var (t', r) := Seed(t, buyer, units);
            && (r.Ok? <==> Named(buyer) && Bounded(units) && buyer !in t.accounts)
            && (r.Denied? <==> !(Named(buyer) && Bounded(units)))
            && t' == if r.Ok? then t.(accounts := t.accounts[buyer := L.Account(units, units, 0, 0)]) else t
  {
    NamedExactly(buyer);
  }

  predicate Offerable(publisher: Id, resource: Id, o: Offer) {
    Named(publisher) && Named(resource) && Commitment(o.content) && Commitment(o.terms) && Bounded(o.units) && Bounded(o.validUntil)
  }

  /** An offer replaces that of its publisher for its resource, and opens a row for a new publisher; no accrual moves. */
  lemma SetOfferExactly(t: Tables, publisher: Id, resource: Id, o: Offer)
    ensures var (t', r) := SetOffer(t, publisher, resource, o);
            if Offerable(publisher, resource, o) then
              && r.Ok? && t' == t.(offers := t.offers[(publisher, resource) := o], publishers := t'.publishers)
              && t'.publishers.Keys == t.publishers.Keys + {publisher}
              && forall p | p in t'.publishers :: t'.publishers[p] == if p in t.publishers then t.publishers[p] else 0
            else r.Denied? && t' == t
  {
    NamedExactly(publisher);
    NamedExactly(resource);
    CommitmentExactly(o.content);
    CommitmentExactly(o.terms);
    hide Named, IsName, Commitment, IsSha256;
  }

  // ----- Issuing

  /** What a publisher now offers, by resource. */
  function CatalogOf(offers: map<Key, Offer>, publisher: Id): L.Catalog {
    map k | k in offers && k.0 == publisher :: k.1 := L.Offer(offers[k].content, offers[k].terms, offers[k].units)
  }

  lemma CatalogHas(offers: map<Key, Offer>, publisher: Id, r: Id)
    ensures r in CatalogOf(offers, publisher) <==> (publisher, r) in offers
    ensures (publisher, r) in offers ==>
              var o := offers[(publisher, r)]; CatalogOf(offers, publisher)[r] == L.Offer(o.content, o.terms, o.units)
  {
    if (publisher, r) in offers {
      assert (publisher, r).1 == r;
    }
  }

  /** An order is for between 1 and 256 different resources, within the bounds on budget and validity. */
  predicate Placeable(q: Order) {
    && Named(q.buyer) && Named(q.publisher) && Named(q.requestId) && Bounded(q.maxUnits) && 1 <= q.ttl <= 300
    && 1 <= |q.resources| <= 256 && E.Different(q.resources) && forall i | 0 <= i < |q.resources| :: Named(q.resources[i])
  }

  lemma PlaceableExactly(q: Order)
    ensures ValidOrder(q) <==> Placeable(q)
  {
    NamedExactly(q.buyer);
    NamedExactly(q.publisher);
    NamedExactly(q.requestId);
    E.SortedDifferent(q.resources);
    hide Named, IsName, Sorted, E.Different, NoDuplicates;
    forall r | r in q.resources
      ensures IsName(r) <==> Named(r)
    {
      NamedExactly(r);
    }
    if ValidOrder(q) {
      forall i | 0 <= i < |q.resources|
        ensures Named(q.resources[i])
      {
        assert q.resources[i] in q.resources;
      }
    }
  }

  /** Everything ordered is offered, and no offer has ended. */
  predicate Current(offers: map<Key, Offer>, publisher: Id, resources: seq<Id>, now: int) {
    forall i | 0 <= i < |resources| ::
      (publisher, resources[i]) in offers && now < offers[(publisher, resources[i])].validUntil
  }

  lemma CurrentExactly(offers: map<Key, Offer>, publisher: Id, resources: seq<Id>, now: int)
    ensures OnSale(offers, publisher, Sorted(resources), now) <==> Current(offers, publisher, resources, now)
    ensures Current(offers, publisher, resources, now) ==> forall r | r in resources :: r in CatalogOf(offers, publisher)
  {
    H.SortedMembers(resources);
    hide Sorted, CatalogOf;
    if OnSale(offers, publisher, Sorted(resources), now) {
      forall i | 0 <= i < |resources|
        ensures (publisher, resources[i]) in offers && now < offers[(publisher, resources[i])].validUntil
      {
        assert resources[i] in resources;
      }
    }
    forall r | r in resources && (publisher, r) in offers
      ensures r in CatalogOf(offers, publisher)
    {
      CatalogHas(offers, publisher, r);
    }
  }

  lemma LinesAreManifest(offers: map<Key, Offer>, publisher: Id, names: seq<Id>)
    requires forall r | r in names :: (publisher, r) in offers
    ensures forall r | r in names :: r in CatalogOf(offers, publisher)
    ensures Lines(offers, publisher, names) == H.Manifest(CatalogOf(offers, publisher), names)
  {
    forall r | r in names
      ensures r in CatalogOf(offers, publisher)
      ensures var o := offers[(publisher, r)]; CatalogOf(offers, publisher)[r] == L.Offer(o.content, o.terms, o.units)
    {
      CatalogHas(offers, publisher, r);
    }
    hide CatalogOf;
  }

  /** What an order costs, and what its book lists. */
  lemma OrderLines(offers: map<Key, Offer>, publisher: Id, resources: seq<Id>)
    requires forall r | r in Sorted(resources) :: (publisher, r) in offers
    ensures forall r | r in resources :: r in CatalogOf(offers, publisher)
    ensures var lines := Lines(offers, publisher, Sorted(resources));
            && L.Units(lines) == E.Price(CatalogOf(offers, publisher), resources)
            && O.Lists(CatalogOf(offers, publisher), lines, resources)
  {
    var names, catalog := Sorted(resources), CatalogOf(offers, publisher);
    LinesAreManifest(offers, publisher, names);
    H.SortedMembers(resources);
    hide Sorted, CatalogOf, Lines, H.Manifest, E.Price, O.Lists, L.Units;
    E.ManifestPrice(catalog, names);
    E.SortedPrice(catalog, resources);
    O.ManifestLists(catalog, resources);
  }

  /** The order can be paid: current offers, within its budget, and from the available balance. */
  predicate Affordable(t: Tables, q: Order, now: int) {
    && Current(t.offers, q.publisher, q.resources, now)
    && (forall r | r in q.resources :: r in CatalogOf(t.offers, q.publisher))
    && var price := E.Price(CatalogOf(t.offers, q.publisher), q.resources);
    && price <= q.maxUnits && q.buyer in t.accounts && t.accounts[q.buyer].available >= price
  }

  /** The last moment that all of these allow: at most the bound and each end, and one of them. */
  predicate IsEarliest(m: int, bound: int, offers: map<Key, Offer>, publisher: Id, resources: seq<Id>)
    requires forall r | r in resources :: (publisher, r) in offers
  {
    && m <= bound && (forall r | r in resources :: m <= offers[(publisher, r)].validUntil)
    && (m == bound || exists r :: r in resources && m == offers[(publisher, r)].validUntil)
  }

  lemma EarliestExactly(bound: int, offers: map<Key, Offer>, publisher: Id, resources: seq<Id>)
    requires forall r | r in Sorted(resources) :: (publisher, r) in offers
    ensures forall r | r in resources :: (publisher, r) in offers
    ensures IsEarliest(Earliest(bound, Deadlines(offers, publisher, Sorted(resources))), bound, offers, publisher, resources)
  {
    H.SortedMembers(resources);
    hide Sorted, Earliest;
    var names, deadlines := Sorted(resources), Deadlines(offers, publisher, Sorted(resources));
    var m := Earliest(bound, deadlines);
    forall r | r in resources
      ensures m <= offers[(publisher, r)].validUntil
    {
      var i :| 0 <= i < |names| && names[i] == r;
      assert deadlines[i] in deadlines;
    }
    if m != bound {
      var i :| 0 <= i < |deadlines| && deadlines[i] == m;
      assert names[i] in names;
    }
  }

  /** The claims that are signed for a book listing these lines. */
  predicate Claimed(c: Config, offers: map<Key, Offer>, q: Order, now: int, id: Id, lines: seq<L.Line>, b: Book)
    requires forall l | l in lines :: (q.publisher, l.resource) in offers
    requires forall r | r in q.resources :: r in CatalogOf(offers, q.publisher)
  {
    var deadlines := seq(|lines|, i requires 0 <= i < |lines| => offers[(q.publisher, lines[i].resource)].validUntil);
    b.claims == Claims(q.publisher, q.buyer, now, b.expires, id, c.digest(ManifestBody(q.publisher, lines, deadlines)),
                       |q.resources|, E.Price(CatalogOf(offers, q.publisher), q.resources))
  }

  /** The book written for an order: its columns, its validity, and the claims signed for it. */
  predicate Written(c: Config, offers: map<Key, Offer>, q: Order, now: int, id: Id, token: Id, lines: seq<L.Line>, b: Book)
    requires forall r | r in q.resources :: (q.publisher, r) in offers
    requires forall l | l in lines :: (q.publisher, l.resource) in offers
    requires forall r | r in q.resources :: r in CatalogOf(offers, q.publisher)
  {
    && b == Book(q.buyer, q.publisher, c.digest(IssueBody(q.buyer, q.publisher, Sorted(q.resources), q.maxUnits, q.ttl)), b.claims,
                 token, now, b.expires, E.Price(CatalogOf(offers, q.publisher), q.resources), false, false)
    && IsEarliest(b.expires, now + q.ttl, offers, q.publisher, q.resources)
    && Claimed(c, offers, q, now, id, lines, b)
  }

  lemma NewBookIsWritten(c: Config, offers: map<Key, Offer>, q: Order, now: int, id: Id, token: Id)
    requires forall r | r in Sorted(q.resources) :: (q.publisher, r) in offers
    ensures forall r | r in q.resources :: (q.publisher, r) in offers && r in CatalogOf(offers, q.publisher)
    ensures var lines := Lines(offers, q.publisher, Sorted(q.resources));
            && (forall l | l in lines :: (q.publisher, l.resource) in offers)
            && Written(c, offers, q, now, id, token, lines, NewBook(c, offers, q, now, id, token))
  {
    hide Sorted, CatalogOf, E.Price, O.Lists, L.Units, IsEarliest, Earliest, Deadlines, Lines;
    OrderLines(offers, q.publisher, q.resources);
    EarliestExactly(now + q.ttl, offers, q.publisher, q.resources);
    DeadlinesOf(offers, q.publisher, Sorted(q.resources));
  }

  lemma DeadlinesOf(offers: map<Key, Offer>, publisher: Id, names: seq<Id>)
    requires forall r | r in names :: (publisher, r) in offers
    ensures var lines := Lines(offers, publisher, names);
            && (forall l | l in lines :: (publisher, l.resource) in offers)
            && Deadlines(offers, publisher, names)
               == seq(|lines|, i requires 0 <= i < |lines| => offers[(publisher, lines[i].resource)].validUntil)
  {
    var lines := Lines(offers, publisher, names);
    forall i | 0 <= i < |lines|
      ensures (publisher, lines[i].resource) in offers && lines[i].resource == names[i]
    {
      assert names[i] in names;
    }
  }

  /** What an accepted order writes: its price is reserved, its book listing exactly these lines is new and on record under
      the request id, and nothing else changes. */
  ghost predicate Issues(c: Config, t: Tables, t': Tables, q: Order, now: int, id: Id, token: Id, lines: seq<L.Line>)
    requires q.buyer in t.accounts && forall r | r in q.resources :: (q.publisher, r) in t.offers
    requires forall r | r in q.resources :: r in CatalogOf(t.offers, q.publisher)
    requires forall l | l in lines :: (q.publisher, l.resource) in t.offers
  {
    && t' == t.(accounts := t'.accounts, books := t'.books, requests := t'.requests, items := t'.items)
    && var (a, price) := (t.accounts[q.buyer], E.Price(CatalogOf(t.offers, q.publisher), q.resources));
    && E.OnlyAccount(t.accounts, t'.accounts, q.buyer, a.available - price, a.reserved + price, a.spent)
    && id in t'.books && t'.books == t.books[id := t'.books[id]] && Written(c, t.offers, q, now, id, token, lines, t'.books[id])
    && t'.requests == t.requests[(q.buyer, q.requestId) := id]
    && O.Lists(CatalogOf(t.offers, q.publisher), lines, q.resources) && O.ItemsAre(t'.items, id, lines)
    && forall k: Key | k.0 != id :: (k in t'.items <==> k in t.items) && (k in t.items ==> t'.items[k] == t.items[k])
  }

  /** In a conserving state an order that is not on record succeeds if and only if it can be placed and afforded under the
      live key; only a failing signer or a taken id makes it fail instead. */
  lemma IssueExactly(c: Config, t: Tables, q: Order, now: int, minted: Minted)
    requires Inv(t) && (q.buyer, q.requestId) !in t.requests
    ensures Affordable(t, q, now) ==> forall l | l in OrderedLines(t, q) :: (q.publisher, l.resource) in t.offers
    ensures var (t', r) := Issue(c, t, q, now, minted);
            if Placeable(q) && !t.revoked && Bounded(now) && Affordable(t, q, now) then
              if minted.token.None? || minted.book in t.books then r.Raised? && t' == t
              else
                && r == L.Ok((minted.book, minted.token.value))
                && Issues(c, t, t', q, now, minted.book, minted.token.value, OrderedLines(t, q))
            else r.Denied? && t' == t
  {
    hide Inv, RequestsHold, Sorted, CatalogOf, E.Price, Lines, L.Units, Placeable, ValidOrder, Current, OnSale, Issues, NewBook,
         L.AddItems, L.AccountHolds, IsEarliest, Written, OrderHash, AfterIssue;
    PlaceableExactly(q);
    CurrentExactly(t.offers, q.publisher, q.resources, now);
    RequestsOf(t);
    PriorBookExact(t, (q.buyer, q.requestId));
    if Current(t.offers, q.publisher, q.resources, now) {
      SaleHas(t.offers, q.publisher, Sorted(q.resources), now);
      OrderLines(t.offers, q.publisher, q.resources);
      LinesOffered(t, q);
      if Placeable(q) && Affordable(t, q, now) {
        ReservationHolds(t, q);
        if minted.token.Some? && minted.book !in t.books {
          IssueWritesAll(c, t, q, now, minted.book, minted.token.value);
        }
      }
    }
  }

  lemma SaleHas(offers: map<Key, Offer>, publisher: Id, names: seq<Id>, now: int)
    requires OnSale(offers, publisher, names, now)
    ensures forall r | r in names :: (publisher, r) in offers
  {
  }

  /** The lines of a book for this order at these offers; none if something is not offered. */
  function OrderedLines(t: Tables, q: Order): seq<L.Line> {
    if forall r | r in Sorted(q.resources) :: (q.publisher, r) in t.offers then Lines(t.offers, q.publisher, Sorted(q.resources))
    else []
  }

  lemma LinesOffered(t: Tables, q: Order)
    requires forall r | r in Sorted(q.resources) :: (q.publisher, r) in t.offers
    ensures forall l | l in OrderedLines(t, q) :: (q.publisher, l.resource) in t.offers
  {
    hide Sorted;
    var names, lines := Sorted(q.resources), OrderedLines(t, q);
    forall l | l in lines
      ensures (q.publisher, l.resource) in t.offers
    {
      var i :| 0 <= i < |lines| && lines[i] == l;
      assert names[i] in names;
    }
  }

  lemma AccountRow(t: Tables, buyer: Id)
    requires Inv(t) && buyer in t.accounts
    ensures L.AccountHolds(t.accounts[buyer])
  {
    hide Conserves, I.Inv, I.Indexed, PublishersHold, BooksWritten, RequestsHold, RedemptionsHold;
    SharedHolds(t);
    I.AccountRowHolds(Shared(t), buyer);
  }

  lemma ReservationHolds(t: Tables, q: Order)
    requires Inv(t) && ValidOrder(q) && q.buyer in t.accounts
    requires forall r | r in Sorted(q.resources) :: (q.publisher, r) in t.offers
    requires t.accounts[q.buyer].available >= L.Units(Lines(t.offers, q.publisher, Sorted(q.resources)))
    ensures L.AccountHolds(L.Reserve(t.accounts[q.buyer], L.Units(Lines(t.offers, q.publisher, Sorted(q.resources)))))
  {
    hide Conserves, I.Indexed, PublishersHold, BooksWritten, RequestsHold, RedemptionsHold, Lines, L.Units, IsName, Sorted;
    AccountRow(t, q.buyer);
    var names := Sorted(q.resources);
    assert names[0] in names;
    OffersHold(t.offers, t.publishers, t.redemptions, q.publisher, names[0]);
    LinesAreDistinct(t.offers, q.publisher, names);
  }

  lemma IssueWritesAll(c: Config, t: Tables, q: Order, now: int, id: Id, token: Id)
    requires Inv(t) && ValidOrder(q) && q.buyer in t.accounts && id !in t.books
    requires forall r | r in Sorted(q.resources) :: (q.publisher, r) in t.offers
    ensures forall r | r in q.resources :: (q.publisher, r) in t.offers && r in CatalogOf(t.offers, q.publisher)
    ensures forall l | l in OrderedLines(t, q) :: (q.publisher, l.resource) in t.offers
    ensures Issues(c, t, AfterIssue(c, t, q, now, id, token), q, now, id, token, OrderedLines(t, q))
  {
    hide Inv, Sorted, CatalogOf, E.Price, Lines, L.Units, NewBook, Written, O.Lists, O.ItemsAre, L.AddItems, ValidOrder,
         OrderedLines;
    LinesOffered(t, q);
    LinesAre(t, q);
    OrderLines(t.offers, q.publisher, q.resources);
    NewBookIsWritten(c, t.offers, q, now, id, token);
    ItemsWritten(t, q, id);
  }

  lemma LinesAre(t: Tables, q: Order)
    requires forall r | r in Sorted(q.resources) :: (q.publisher, r) in t.offers
    ensures OrderedLines(t, q) == Lines(t.offers, q.publisher, Sorted(q.resources))
  {
  }

  lemma ItemsWritten(t: Tables, q: Order, id: Id)
    requires Inv(t) && ValidOrder(q) && id !in t.books && forall r | r in Sorted(q.resources) :: (q.publisher, r) in t.offers
    ensures var (lines, items') := (OrderedLines(t, q), L.AddItems(t.items, id, OrderedLines(t, q)));
            && O.ItemsAre(items', id, lines)
            && forall k: Key | k.0 != id :: (k in items' <==> k in t.items) && (k in t.items ==> items'[k] == t.items[k])
  {
    hide Inv, O.ItemsAre, L.AddItems, Y.ItemsOf, IsName;
    var lines := OrderedLines(t, q);
    ItemsHaveBooks(t);
    NothingListed(t.items, id);
    Y.ItemsOfAdded(t.items, id, lines, id);
    O.ItemsOfAre(L.AddItems(t.items, id, lines), id, lines);
    AddItemsFrame(t.items, id, lines);
  }

  lemma NothingListed(items: map<Key, L.Item>, id: Id)
    requires forall k | k in items :: k.0 != id
    ensures Y.ItemsOf(items, id) == map[]
  {
  }

  /** An order under a request id that is on record changes nothing: it is answered with that book if it is the same order
      under a live key, and denied otherwise. */
  lemma IssueAgain(c: Config, t: Tables, q: Order, now: int, minted: Minted)
    requires Inv(t) && (q.buyer, q.requestId) in t.requests
    ensures var id := t.requests[(q.buyer, q.requestId)];
            && id in t.books
            && var same := t.books[id].requestHash
                 == c.digest(IssueBody(q.buyer, q.publisher, Sorted(q.resources), q.maxUnits, q.ttl));
            && Issue(c, t, q, now, minted)
               == (t, if Placeable(q) && !t.revoked && same then L.Ok((id, t.books[id].token)) else L.Denied)
  {
    hide Inv, Sorted, Placeable, ValidOrder;
    PlaceableExactly(q);
    RequestsOf(t);
  }

  // ----- Activating

  /** The book may be admitted now: the buyer's and publisher's own, open and current, with its token presented; and, the
      first time, its token verifies for its claims within its validity. */
  predicate Admissible(c: Config, t: Tables, q: Admission, now: int, verifiedAt: int) {
    && Named(q.book) && Named(q.buyer) && Named(q.publisher) && |q.token.text| <= 4096 && !t.revoked
    && q.book in t.books
    && var b := t.books[q.book];
    && b.buyer == q.buyer && b.publisher == q.publisher && b.token == q.token && !b.closed
    && Bounded(now) && now >= b.issued && now < b.expires
    && (b.active || (c.verifies(b.token, b.claims) && Bounded(verifiedAt) && verifiedAt >= b.issued && verifiedAt < b.expires))
  }

  /** An admission succeeds if and only if the book may be admitted; it marks the book and changes nothing else. */
  lemma ActivateExactly(c: Config, t: Tables, q: Admission, now: int, verifiedAt: int)
    requires Inv(t)
    ensures var (t', r) := Activate(c, t, q, now, verifiedAt);
            if Admissible(c, t, q, now, verifiedAt) then
              r == L.Ok(q.book) && t' == t.(books := t.books[q.book := t.books[q.book].(active := true)])
            else r == L.Denied && t' == t
  {
    NamedExactly(q.book);
    NamedExactly(q.buyer);
    NamedExactly(q.publisher);
    hide Inv, Named, IsName;
    if q.book in t.books {
      ClaimsOf(t, q.book);
      if t.books[q.book].active {
        assert t.books[q.book := t.books[q.book].(active := true)] == t.books;
      }
    }
  }

  lemma ClaimsOf(t: Tables, id: Id)
    requires Inv(t) && id in t.books
    ensures t.books[id].claims.issued == t.books[id].issued && t.books[id].claims.expires == t.books[id].expires
    ensures t.books[id].publisher in t.publishers && t.books[id].buyer in t.accounts
  {
    hide Conserves, I.Indexed, PublishersHold, RequestsHold, RedemptionsHold;
    BookIsCovered(t, id);
  }

  // ----- Redeeming

  /** The item may be used now: listed in an admitted, open and current book under the live key, with this content and
      these terms, and no receipt is for it. */
  predicate Usable(t: Tables, q: Use, now: int) {
    && Named(q.book) && Named(q.resource) && Named(q.buyer) && Named(q.publisher) && Named(q.requestId)
    && Commitment(q.content) && Commitment(q.terms) && !t.revoked
    && q.book in t.books
    && var b := t.books[q.book];
    && b.buyer == q.buyer && b.publisher == q.publisher && b.active && !b.closed
    && Bounded(now) && now >= b.issued && now < b.expires
    && (q.book, q.resource) in t.items
    && t.items[(q.book, q.resource)].content == q.content && t.items[(q.book, q.resource)].terms == q.terms
    && Unused(t.redemptions, q.book, q.resource)
  }

  predicate Unused(redemptions: map<Key, Redemption>, book: Id, resource: Id) {
    forall k | k in redemptions :: redemptions[k].receipt.book != book || redemptions[k].receipt.resource != resource
  }

  lemma UnusedExactly(t: Tables, book: Id, resource: Id)
    requires Inv(t)
    ensures (book, resource) !in t.redeemed <==> Unused(t.redemptions, book, resource)
  {
    hide Conserves, PublishersHold, BooksWritten, RequestsHold, RedemptionsHold, I.Indexed, E.Unused;
    var receipts := SharedReceipts(t.redemptions);
    E.UnusedExactly(receipts, t.redeemed, book, resource);
    SharedUnused(t.redemptions, book, resource);
  }

  lemma SharedUnused(redemptions: map<Key, Redemption>, book: Id, resource: Id)
    ensures E.Unused(SharedReceipts(redemptions), book, resource) <==> Unused(redemptions, book, resource)
  {
    var receipts := SharedReceipts(redemptions);
    forall k | k in redemptions
      ensures k in receipts && receipts[k].receipt.book == Some(redemptions[k].receipt.book)
      ensures receipts[k].receipt.resource == redemptions[k].receipt.resource
    {
    }
  }

  lemma UsableExactly(t: Tables, q: Use, now: int)
    requires Inv(t)
    ensures ValidUse(q) && UseAllowed(t, q, now) <==> Usable(t, q, now)
  {
    hide Inv, Named, IsName, Commitment, IsSha256, Unused;
    NamedExactly(q.book);
    NamedExactly(q.resource);
    NamedExactly(q.buyer);
    NamedExactly(q.publisher);
    NamedExactly(q.requestId);
    CommitmentExactly(q.content);
    CommitmentExactly(q.terms);
    UnusedExactly(t, q.book, q.resource);
  }

  /** What a redemption writes: the price of the item moves from what is held to what is spent and to the publisher, the
      receipt is on record, and nothing else changes. */
  predicate Redeems(c: Config, t: Tables, t': Tables, q: Use, r: Receipt, now: int, receiptId: Id) {
    && q.book in t.books && (q.book, q.resource) in t.items && q.buyer in t.accounts && q.publisher in t.publishers
    && var (a, b, price) := (t.accounts[q.buyer], t.books[q.book], t.items[(q.book, q.resource)].units);
    && r == Receipt(receiptId, q.book, q.resource, q.buyer, q.publisher, q.content, q.terms, price, now)
    && E.OnlyAccount(t.accounts, t'.accounts, q.buyer, a.available, a.reserved - price, a.spent + price)
    && t' == t.(accounts := t'.accounts,
                books := t.books[q.book := b.(remaining := b.remaining - price)],
                publishers := t.publishers[q.publisher := t.publishers[q.publisher] + price],
                redemptions := t.redemptions[(q.buyer, q.requestId) :=
                  Redemption(c.digest(RedeemBody(q.book, q.resource, q.buyer, q.publisher, q.content, q.terms)), r)],
                redeemed := t.redeemed + {(q.book, q.resource)})
  }

  /** In a conserving state a use that is not on record succeeds if and only if its item may be used, and is denied otherwise. */
  lemma RedeemExactly(c: Config, t: Tables, q: Use, now: int, receiptId: Id)
    requires Inv(t) && (q.buyer, q.requestId) !in t.redemptions
    ensures var (t', r) := Redeem(c, t, q, now, receiptId);
            if Usable(t, q, now) then r.Ok? && Redeems(c, t, t', q, r.value, now, receiptId) else r == L.Denied && t' == t
  {
    hide Inv, Usable, ValidUse, UseFits, UseAllowed, AfterUse, Redeems;
    UsableExactly(t, q, now);
    if Usable(t, q, now) {
      AllowedFits(t, q, now);
      UseRedeems(c, t, q, now, receiptId);
    }
  }

  lemma UseRedeems(c: Config, t: Tables, q: Use, now: int, receiptId: Id)
    requires UseAllowed(t, q, now) && q.publisher in t.publishers && UseFits(t, q, t.items[(q.book, q.resource)].units)
    ensures var r := NewReceipt(t, q, now, receiptId); Redeems(c, t, AfterUse(c, t, q, r.units, r), q, r, now, receiptId)
  {
    hide L.AccountHolds, Within;
  }

  lemma RedeemOnRecord(c: Config, t: Tables, q: Use, now: int, receiptId: Id)
    requires (q.buyer, q.requestId) in t.redemptions
    ensures var prior := t.redemptions[(q.buyer, q.requestId)];
            var named := Named(q.book) && Named(q.resource) && Named(q.buyer) && Named(q.publisher) && Named(q.requestId)
                         && Commitment(q.content) && Commitment(q.terms);
            var same := prior.requestHash == c.digest(RedeemBody(q.book, q.resource, q.buyer, q.publisher, q.content, q.terms));
            Redeem(c, t, q, now, receiptId) == (t, if named && same then L.Ok(prior.receipt) else L.Denied)
  {
    NamedExactly(q.book);
    NamedExactly(q.resource);
    NamedExactly(q.buyer);
    NamedExactly(q.publisher);
    NamedExactly(q.requestId);
    CommitmentExactly(q.content);
    CommitmentExactly(q.terms);
    hide Named, IsName, Commitment, IsSha256;
  }

  // ----- Releasing

  /** A release succeeds if and only if the book is the buyer's. It answers the open units, which become available again,
      and closes the book; repeated, it answers zero. */
  lemma ReleaseExactly(t: Tables, book: Id, buyer: Id)
    requires Inv(t)
    ensures var (t', r) := ReleaseBook(t, book, buyer);
            if Named(book) && Named(buyer) && book in t.books && t.books[book].buyer == buyer then
              && buyer in t.accounts
              && var (a, open) := (t.accounts[buyer], t.books[book].remaining);
              && r == L.Ok(open)
              && t' == t.(accounts := t'.accounts, books := t.books[book := t.books[book].(remaining := 0, closed := true)])
              && E.OnlyAccount(t.accounts, t'.accounts, buyer, a.available + open, a.reserved - open, a.spent)
            else r == L.Denied && t' == t
  {
    NamedExactly(book);
    NamedExactly(buyer);
    hide Inv, Named, IsName;
    ReleaseKeeps(t, book, buyer);
    if book in t.books && t.books[book].buyer == buyer {
      ClaimsOf(t, book);
      if t.books[book].closed {
        ClosedIsEmpty(t, book);
        assert t.books[book := t.books[book].(remaining := 0, closed := true)] == t.books;
        var a := t.accounts[buyer];
        assert t.accounts[buyer := L.Account(a.initial, a.available, a.reserved, a.spent)] == t.accounts;
      }
    }
  }

  lemma ClosedIsEmpty(t: Tables, book: Id)
    requires Inv(t) && book in t.books && t.books[book].closed
    ensures t.books[book].remaining == 0
  {
    hide I.Indexed, PublishersHold, BooksWritten, RequestsHold, RedemptionsHold, I.AccountsHold, I.References, I.Owed;
    assert SharedBooks(t.books)[book].closed;
  }

  // ----- Purchasing

  /** The order of a purchase can be filled: valid arguments, live key, and a current offer within budget and balance. */
  predicate Purchasable(t: Tables, q: Purchase, issuedAt: int) {
    && Named(q.resource) && Named(q.buyer) && Named(q.publisher) && Named(q.requestId) && Bounded(q.maxUnits) && !t.revoked
    && Bounded(issuedAt) && (q.publisher, q.resource) in t.offers
    && var o := t.offers[(q.publisher, q.resource)];
    && issuedAt < o.validUntil && o.units <= q.maxUnits && q.buyer in t.accounts && t.accounts[q.buyer].available >= o.units
  }

  /** The end of a purchased book: the offer's, but at most 300 seconds from its issue. */
  function End(o: Offer, issuedAt: int): int {
    if o.validUntil < issuedAt + 300 then o.validUntil else issuedAt + 300
  }

  function PurchaseClaims(c: Config, o: Offer, q: Purchase, issuedAt: int, id: Id): Claims {
    Claims(q.publisher, q.buyer, issuedAt, End(o, issuedAt), id,
           c.digest(ManifestBody(q.publisher, [L.Line(q.resource, o.content, o.terms, o.units)], [o.validUntil])), 1, o.units)
  }

  predicate During(o: Offer, issuedAt: int, now: int) {
    Bounded(now) && issuedAt <= now && now < End(o, issuedAt)
  }

  /** The purchased book can be admitted and redeemed: its token verifies, the offer is for this content and these terms,
      and admission, verification and redemption all fall into its validity. */
  predicate Deliverable(c: Config, o: Offer, q: Purchase, d: Draws, token: Id) {
    && Named(d.minted.book) && |token.text| <= 4096
    && c.verifies(token, PurchaseClaims(c, o, q, d.issuedAt, d.minted.book))
    && During(o, d.issuedAt, d.admittedAt) && During(o, d.issuedAt, d.verifiedAt) && During(o, d.issuedAt, d.redeemedAt)
    && Commitment(q.content) && Commitment(q.terms) && q.content == o.content && q.terms == o.terms
  }

  /** A purchased book: admitted, and with nothing left in it. */
  function PurchasedBook(c: Config, o: Offer, q: Purchase, issuedAt: int, id: Id, token: Id): Book {
    Book(q.buyer, q.publisher, c.digest(IssueBody(q.buyer, q.publisher, [q.resource], q.maxUnits, 300)),
         PurchaseClaims(c, o, q, issuedAt, id), token, issuedAt, End(o, issuedAt), 0, true, false)
  }

  /** What a purchase writes: the price leaves the available balance for the publisher, and nothing stays reserved. */
  predicate Buys(c: Config, t: Tables, t': Tables, q: Purchase, d: Draws, b: Bought) {
    && (q.publisher, q.resource) in t.offers && q.buyer in t.accounts && q.publisher in t.publishers && d.minted.token.Some?
    && var (o, a, key) := (t.offers[(q.publisher, q.resource)], t.accounts[q.buyer], (q.buyer, q.requestId));
    && var (id, token) := (d.minted.book, d.minted.token.value);
    && var receipt := Receipt(d.receiptId, id, q.resource, q.buyer, q.publisher, q.content, q.terms, o.units, d.redeemedAt);
    && b == Bought(id, token, receipt)
    && E.OnlyAccount(t.accounts, t'.accounts, q.buyer, a.available - o.units, a.reserved, a.spent + o.units)
    && t' == t.(accounts := t'.accounts,
                books := t.books[id := PurchasedBook(c, o, q, d.issuedAt, id, token)],
                requests := t.requests[key := id],
                items := t.items[(id, q.resource) := L.Item(o.content, o.terms, o.units)],
                redemptions := t.redemptions[key :=
                  Redemption(c.digest(RedeemBody(id, q.resource, q.buyer, q.publisher, q.content, q.terms)), receipt)],
                redeemed := t.redeemed + {(id, q.resource)},
                publishers := t.publishers[q.publisher := t.publishers[q.publisher] + o.units])
  }

  lemma PurchasableExactly(t: Tables, q: Purchase, issuedAt: int)
    ensures Placeable(OrderOf(q)) && !t.revoked && Bounded(issuedAt) && Affordable(t, OrderOf(q), issuedAt)
            <==> Purchasable(t, q, issuedAt)
  {
    hide Named, CatalogOf;
    assert [q.resource][0] == q.resource && q.resource in [q.resource];
    if (q.publisher, q.resource) in t.offers {
      CatalogHas(t.offers, q.publisher, q.resource);
      var catalog := CatalogOf(t.offers, q.publisher);
      assert [q.resource][1..] == [];
      assert E.Price(catalog, [q.resource]) == catalog[q.resource].units;
    }
  }

  lemma BookOfOne(c: Config, offers: map<Key, Offer>, q: Purchase, issuedAt: int, id: Id, token: Id)
    requires (q.publisher, q.resource) in offers
    ensures Sorted([q.resource]) == [q.resource]
    ensures var o := offers[(q.publisher, q.resource)];
            NewBook(c, offers, OrderOf(q), issuedAt, id, token)
            == PurchasedBook(c, o, q, issuedAt, id, token).(remaining := o.units, active := false)
  {
    hide Sorted;
    SortedOne(q.resource);
    assert q.resource in [q.resource];
    var o := offers[(q.publisher, q.resource)];
    var lines, deadlines := Lines(offers, q.publisher, [q.resource]), Deadlines(offers, q.publisher, [q.resource]);
    OneLine(offers, q.publisher, q.resource);
    assert lines == [L.Line(q.resource, o.content, o.terms, o.units)];
    assert deadlines == [o.validUntil];
    EarliestOfOne(issuedAt + 300, o.validUntil);
  }

  lemma EarliestOfOne(bound: int, deadline: int)
    ensures Earliest(bound, [deadline]) == if deadline < bound then deadline else bound
  {
    assert [deadline][..0] == [];
  }

  /** The state between issue and admission. */
  lemma PurchaseIssued(c: Config, t: Tables, q: Purchase, d: Draws)
    requires Inv(t) && (q.buyer, q.requestId) !in t.requests && Issue(c, t, OrderOf(q), d.issuedAt, d.minted).1.Ok?
    ensures (q.publisher, q.resource) in t.offers && q.publisher in t.publishers && q.buyer in t.accounts && d.minted.token.Some?
    ensures d.minted.book !in t.books
    ensures var (t1, r) := Issue(c, t, OrderOf(q), d.issuedAt, d.minted);
            var (o, id, token) := (t.offers[(q.publisher, q.resource)], d.minted.book, d.minted.token.value);
            && Inv(t1) && r.value == (id, token)
            && t1 == t.(accounts := t.accounts[q.buyer := L.Reserve(t.accounts[q.buyer], o.units)],
                        books := t.books[id := PurchasedBook(c, o, q, d.issuedAt, id, token).(remaining := o.units, active := false)],
                        requests := t.requests[(q.buyer, q.requestId) := id],
                        items := t.items[(id, q.resource) := L.Item(o.content, o.terms, o.units)])
  {
    hide Inv, Issue, NewBook, PurchasedBook, Sorted, NoDuplicates, L.AccountHolds, OnSale, L.Units, Lines;
    IssueOne(c, t, q, d);
    IssueKeeps(c, t, OrderOf(q), d.issuedAt, d.minted);
    BookOfOne(c, t.offers, q, d.issuedAt, d.minted.book, d.minted.token.value);
  }

  lemma NoReceiptFor(t: Tables, id: Id, resource: Id)
    requires Inv(t) && id !in t.books
    ensures Unused(t.redemptions, id, resource)
  {
    hide Conserves, I.Indexed, PublishersHold, BooksWritten, RequestsHold;
  }

  /** Admitting and redeeming the book of a purchase that has just been issued. */
  lemma PurchaseDelivered(c: Config, t: Tables, t1: Tables, q: Purchase, d: Draws, token: Id)
    requires Inv(t1) && (q.publisher, q.resource) in t.offers && Named(q.resource) && Named(q.buyer) && Named(q.publisher)
    requires Named(q.requestId) && (q.buyer, q.requestId) !in t.redemptions && Unused(t.redemptions, d.minted.book, q.resource)
    requires t1.offers == t.offers && t1.redemptions == t.redemptions && !t1.revoked && d.minted.book in t1.books
    requires var o := t.offers[(q.publisher, q.resource)];
             && t1.books[d.minted.book]
                == PurchasedBook(c, o, q, d.issuedAt, d.minted.book, token).(remaining := o.units, active := false)
             && (d.minted.book, q.resource) in t1.items
             && t1.items[(d.minted.book, q.resource)] == L.Item(o.content, o.terms, o.units)
    ensures var (o, id) := (t.offers[(q.publisher, q.resource)], d.minted.book);
            var (t2, admitted) := Admit(c, t1, q, id, token, d);
            var (t3, r) := Redeem(c, t2, UseOf(q, id), d.redeemedAt, d.receiptId);
            && (admitted.Ok? && r.Ok? <==> Deliverable(c, o, q, d, token))
            && !admitted.Raised? && (admitted.Ok? && !r.Ok? ==> r.Denied?)
            && (admitted.Ok? && r.Ok? ==>
                  Redeems(c, t1.(books := t1.books[id := t1.books[id].(active := true)]), t3, UseOf(q, id), r.value,
                          d.redeemedAt, d.receiptId))
  {
    hide Inv, Issue, Activate, Redeem, Named, Commitment, Bounded, PurchaseClaims, Unused, Redeems;
    var id := d.minted.book;
    ActivateExactly(c, t1, Admission(id, token, q.buyer, q.publisher), d.admittedAt, d.verifiedAt);
    ActivateKeeps(c, t1, Admission(id, token, q.buyer, q.publisher), d.admittedAt, d.verifiedAt);
    if Admit(c, t1, q, id, token, d).1.Ok? {
      RedeemExactly(c, Admit(c, t1, q, id, token, d).0, UseOf(q, id), d.redeemedAt, d.receiptId);
    }
  }

  lemma PurchaseWrites(c: Config, t: Tables, t1: Tables, t3: Tables, q: Purchase, d: Draws, token: Id, r: Receipt)
    requires (q.publisher, q.resource) in t.offers && q.publisher in t.publishers && q.buyer in t.accounts
    requires d.minted.token == Some(token)
    requires var (o, id) := (t.offers[(q.publisher, q.resource)], d.minted.book);
             && t1 == t.(accounts := t.accounts[q.buyer := L.Reserve(t.accounts[q.buyer], o.units)],
                         books := t.books[id := PurchasedBook(c, o, q, d.issuedAt, id, token).(remaining := o.units, active := false)],
                         requests := t.requests[(q.buyer, q.requestId) := id],
                         items := t.items[(id, q.resource) := L.Item(o.content, o.terms, o.units)])
             && Redeems(c, t1.(books := t1.books[id := t1.books[id].(active := true)]), t3, UseOf(q, id), r, d.redeemedAt, d.receiptId)
    ensures Buys(c, t, t3, q, d, Bought(d.minted.book, token, r))
  {
    hide PurchaseClaims, End;
  }

  /** In a conserving state with nothing on record under its request id, a purchase succeeds if and only if its order can be
      filled and its book delivered; only a failing signer or a taken id makes it fail instead. */
  lemma BuyExactly(c: Config, t: Tables, q: Purchase, d: Draws)
    requires Inv(t) && (q.buyer, q.requestId) !in t.requests && (q.buyer, q.requestId) !in t.redemptions
    ensures var (t', r) := Buy(c, t, q, d);
            if !Purchasable(t, q, d.issuedAt) then r.Denied? && t' == t
            else if d.minted.token.None? || d.minted.book in t.books then r.Raised? && t' == t
            else if Deliverable(c, t.offers[(q.publisher, q.resource)], q, d, d.minted.token.value) then
              r.Ok? && Buys(c, t, t', q, d, r.value)
            else r.Denied? && t' == t
  {
    hide Inv, Issue, Admit, Redeem, Deliverable, Buys, Placeable, Affordable, PurchasedBook, Redeems, Issues, Named, Bounded,
         Unused, OrderedLines;
    IssueExactly(c, t, OrderOf(q), d.issuedAt, d.minted);
    PurchasableExactly(t, q, d.issuedAt);
    var (t1, issued) := Issue(c, t, OrderOf(q), d.issuedAt, d.minted);
    if issued.Ok? {
      PurchaseIssued(c, t, q, d);
      NoReceiptFor(t, d.minted.book, q.resource);
      var (id, token) := issued.value;
      PurchaseDelivered(c, t, t1, q, d, token);
      var (t2, admitted) := Admit(c, t1, q, id, token, d);
      var (t3, receipt) := Redeem(c, t2, UseOf(q, id), d.redeemedAt, d.receiptId);
      if admitted.Ok? && receipt.Ok? {
        PurchaseWrites(c, t, t1, t3, q, d, token, receipt.value);
      }
    }
  }

  /** Under an earlier order of the same request id that was not redeemed, a purchase succeeds if and only if that is the
      same order, and its book may be admitted and its item used; it then redeems from that book. */
  lemma BuyUnderOrder(c: Config, t: Tables, q: Purchase, d: Draws)
    requires Inv(t) && (q.buyer, q.requestId) in t.requests && (q.buyer, q.requestId) !in t.redemptions
    ensures var (t', r) := Buy(c, t, q, d);
            var id := t.requests[(q.buyer, q.requestId)];
            && id in t.books
            && var b := t.books[id];
            && var admitted := t.(books := t.books[id := b.(active := true)]);
            if Placeable(OrderOf(q)) && !t.revoked
               && b.requestHash == c.digest(IssueBody(q.buyer, q.publisher, [q.resource], q.maxUnits, 300))
               && Admissible(c, t, Admission(id, b.token, q.buyer, q.publisher), d.admittedAt, d.verifiedAt)
               && Usable(admitted, UseOf(q, id), d.redeemedAt) then
              && r.Ok? && r.value.book == id && r.value.token == b.token
              && Redeems(c, admitted, t', UseOf(q, id), r.value.receipt, d.redeemedAt, d.receiptId)
            else r == L.Denied && t' == t
  {
    hide Inv, Issue, Activate, Redeem, Placeable, Admissible, Usable, Redeems, Sorted;
    SortedOne(q.resource);
    IssueAgain(c, t, OrderOf(q), d.issuedAt, d.minted);
    var id := t.requests[(q.buyer, q.requestId)];
    var a := Admission(id, t.books[id].token, q.buyer, q.publisher);
    ActivateExactly(c, t, a, d.admittedAt, d.verifiedAt);
    ActivateKeeps(c, t, a, d.admittedAt, d.verifiedAt);
    if Admissible(c, t, a, d.admittedAt, d.verifiedAt) {
      RedeemExactly(c, Activate(c, t, a, d.admittedAt, d.verifiedAt).0, UseOf(q, id), d.redeemedAt, d.receiptId);
    }
  }

  // ----- Where the amount of an account comes from

  lemma InitialStays(c: Config, t: Tables, step: Step, buyer: Id)
    ensures var (t', ok) := Next(c, t, step);
            && (buyer in t.accounts ==> buyer in t'.accounts && t'.accounts[buyer].initial == t.accounts[buyer].initial
                                        && !(step.SeedStep? && step.buyer == buyer && ok))
            && (buyer !in t.accounts && buyer in t'.accounts ==> step == SeedStep(buyer, t'.accounts[buyer].initial) && ok)
            && (step.SeedStep? && step.buyer == buyer && ok ==> buyer in t'.accounts)
  {
    if step.SeedStep? {
      hide IsName;
    } else {
      hide Next;
      OthersKeepInitials(c, t, step);
    }
  }

  lemma OthersKeepInitials(c: Config, t: Tables, step: Step)
    requires !step.SeedStep?
    ensures O.SameInitials(t.accounts, Next(c, t, step).0.accounts)
  {
    hide SetOffer, Issue, Activate, Redeem, ReleaseBook, Buy;
    match step
    case SetOfferStep(publisher, resource, o) => SetOfferKeepsInitials(t, publisher, resource, o);
    case IssueStep(q, now, minted) => IssueKeepsInitials(c, t, q, now, minted);
    case ActivateStep(q, now, verifiedAt) => ActivateKeepsInitials(c, t, q, now, verifiedAt);
    case RedeemStep(q, now, receiptId) => RedeemKeepsInitials(c, t, q, now, receiptId);
    case ReleaseStep(book, buyer) => ReleaseKeepsInitials(t, book, buyer);
    case BuyStep(q, d) => BuyKeepsInitials(c, t, q, d);
    case _ =>
  }

  lemma SetOfferKeepsInitials(t: Tables, publisher: Id, resource: Id, o: Offer)
    ensures O.SameInitials(t.accounts, SetOffer(t, publisher, resource, o).0.accounts)
  {
    hide ValidOffer;
  }

  lemma IssueKeepsInitials(c: Config, t: Tables, q: Order, now: int, minted: Minted)
    ensures O.SameInitials(t.accounts, Issue(c, t, q, now, minted).0.accounts)
  {
    hide Issue, OnSale, L.Units, Lines, NoDuplicates, NewBook, L.AddItems, L.AccountHolds, Sorted;
    IssueWrites(c, t, q, now, minted);
  }

  lemma ActivateKeepsInitials(c: Config, t: Tables, q: Admission, now: int, verifiedAt: int)
    ensures O.SameInitials(t.accounts, Activate(c, t, q, now, verifiedAt).0.accounts)
  {
    hide IsName, Within;
  }

  lemma RedeemKeepsInitials(c: Config, t: Tables, q: Use, now: int, receiptId: Id)
    ensures O.SameInitials(t.accounts, Redeem(c, t, q, now, receiptId).0.accounts)
  {
    hide ValidUse, L.AccountHolds, Within;
  }

  lemma ReleaseKeepsInitials(t: Tables, book: Id, buyer: Id)
    ensures O.SameInitials(t.accounts, ReleaseBook(t, book, buyer).0.accounts)
  {
    hide IsName, L.AccountHolds;
  }

  lemma BuyKeepsInitials(c: Config, t: Tables, q: Purchase, d: Draws)
    ensures O.SameInitials(t.accounts, Buy(c, t, q, d).0.accounts)
  {
    hide Issue, Activate, Redeem;
    var (t1, issued) := Issue(c, t, OrderOf(q), d.issuedAt, d.minted);
    IssueKeepsInitials(c, t, OrderOf(q), d.issuedAt, d.minted);
    if issued.Ok? {
      var (book, token) := issued.value;
      ActivateKeepsInitials(c, t1, Admission(book, token, q.buyer, q.publisher), d.admittedAt, d.verifiedAt);
      RedeemKeepsInitials(c, Admit(c, t1, q, book, token, d).0, UseOf(q, book), d.redeemedAt, d.receiptId);
    }
  }

  /** Every account was opened by exactly one accepted seeding of its buyer, and its initial amount is still the one of that. */
  lemma {:induction false} SeededOnce(c: Config, steps: seq<Step>, n: nat, buyer: Id) returns (i: nat)
    requires n <= |steps| && buyer in After(c, steps, n).accounts
    ensures i < n && steps[i] == SeedStep(buyer, After(c, steps, n).accounts[buyer].initial)
    ensures forall k | 0 <= k < n && steps[k].SeedStep? && steps[k].buyer == buyer ::
              (Next(c, After(c, steps, k), steps[k]).1 <==> k == i)
    decreases n
  {
    hide Next;
    assert n > 0;
    var t := After(c, steps, n - 1);
    InitialStays(c, t, steps[n - 1], buyer);
    if buyer in t.accounts {
      i := SeededOnce(c, steps, n - 1, buyer);
    } else {
      i := n - 1;
      NeverSeeded(c, steps, n - 1, buyer);
    }
  }

  lemma {:induction false} NeverSeeded(c: Config, steps: seq<Step>, n: nat, buyer: Id)
    requires n <= |steps| && buyer !in After(c, steps, n).accounts
    ensures forall k | 0 <= k < n && steps[k].SeedStep? && steps[k].buyer == buyer :: !Next(c, After(c, steps, k), steps[k]).1
  {
    hide Next;
    if n > 0 {
      InitialStays(c, After(c, steps, n - 1), steps[n - 1], buyer);
      NeverSeeded(c, steps, n - 1, buyer);
    }
  }

  // ----- After revocation

  /** The same books, of which the same are admitted, the same items and the same receipts. */
  predicate NothingNew(t: Tables, t': Tables) {
    && t'.revoked && t'.books.Keys == t.books.Keys && (forall id | id in t.books :: t'.books[id].active == t.books[id].active)
    && t'.items == t.items && t'.redemptions == t.redemptions
  }

  lemma RevokedStep(c: Config, t: Tables, step: Step)
    requires t.revoked
    ensures NothingNew(t, Next(c, t, step).0)
  {
    hide Seed, SetOffer, Issue, Activate, Redeem, ReleaseBook, Buy, NothingNew;
    match step
    case SeedStep(buyer, units) => RevokedSeed(t, buyer, units);
    case SetOfferStep(publisher, resource, o) => RevokedOffer(t, publisher, resource, o);
    case ReleaseStep(book, buyer) => RevokedRelease(t, book, buyer);
    case _ =>
      RevokedIsUnchanged(c, t, step);
      SameRows(t, t);
  }

  lemma SameRows(t: Tables, t': Tables)
    requires t'.revoked && t'.books == t.books && t'.items == t.items && t'.redemptions == t.redemptions
    ensures NothingNew(t, t')
  {
  }

  lemma RevokedIsUnchanged(c: Config, t: Tables, step: Step)
    requires t.revoked && !step.SeedStep? && !step.SetOfferStep? && !step.ReleaseStep?
    ensures Next(c, t, step).0 == t
  {
    hide ValidOrder, ValidUse, IsName, UseFits, AfterUse, AfterIssue, OnSale, L.Units, Lines;
  }

  lemma RevokedSeed(t: Tables, buyer: Id, units: int)
    requires t.revoked
    ensures NothingNew(t, Seed(t, buyer, units).0)
  {
    hide IsName, NothingNew;
    SameRows(t, Seed(t, buyer, units).0);
  }

  lemma RevokedOffer(t: Tables, publisher: Id, resource: Id, o: Offer)
    requires t.revoked
    ensures NothingNew(t, SetOffer(t, publisher, resource, o).0)
  {
    hide ValidOffer, NothingNew;
    SameRows(t, SetOffer(t, publisher, resource, o).0);
  }

  lemma RevokedRelease(t: Tables, book: Id, buyer: Id)
    requires t.revoked
    ensures NothingNew(t, ReleaseBook(t, book, buyer).0)
  {
    hide IsName, H.ReleaseHolds, H.WithRelease;
  }

  /** Once the issuer's key is revoked, no book, no admission and no receipt is ever added. */
  lemma {:induction false} RevocationIsFinal(c: Config, steps: seq<Step>, i: nat, j: nat)
    requires i < j <= |steps| && steps[i].RevokeStep?
    ensures NothingNew(After(c, steps, i), After(c, steps, j))
    decreases j
  {
    if i + 1 < j {
      hide Next;
      RevocationIsFinal(c, steps, i, j - 1);
      RevokedStep(c, After(c, steps, j - 1), steps[j - 1]);
    }
  }
}
