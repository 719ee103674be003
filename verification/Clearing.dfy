/** The clearing engine as an object: statements change the tables one after another, each operation is a transaction or,
    inside one, a savepoint. */
module Clearing {
  import opened Options
  import opened Identifiers
  import opened AccessBook
  import opened Savepoints
  import L = LedgerTables
  import H = HttpLedger

  /** What an operation must leave behind: its effect when it succeeds, otherwise exactly what it found. */
  function Settled<A>(conn: Connection<Tables>, outcome: (Tables, Result<A>), commits: bool): (Connection<Tables>, Result<A>) {
    if !outcome.1.Ok? then (conn, outcome.1)
    else if conn.inTransaction then (conn.(current := outcome.0), outcome.1)
    else if !commits then (conn, L.Raised)
    else (conn.(current := outcome.0, durable := outcome.0), outcome.1)
  }

  /** What its statements may leave behind before that: on failure the current tables can hold a part of the effect. */
  predicate Stepped<A(==)>(before: Connection<Tables>, after: Connection<Tables>, outcome: (Tables, Result<A>), r: Result<A>) {
    after == before.(current := after.current) && r == outcome.1 && (r.Ok? ==> after.current == outcome.0)
  }

  /** Inside a transaction entered at `found`: nothing is durable yet, and a nested one has one savepoint more, which
      remembers the tables found. */
  predicate Inside(found: Connection<Tables>, conn: Connection<Tables>) {
    && conn.inTransaction && conn.durable == found.durable
    && conn.stack == if found.inTransaction then found.stack + [found.current] else found.stack
  }

  class Engine {
    const c: Config
    var db: Connection<Tables>

    constructor (c: Config)
      ensures db == Connection(EMPTY, EMPTY, [], false) && this.c == c
    {
      this.c, db := c, Connection(EMPTY, EMPTY, [], false);
    }

    // ----- Transactions

    /** Begin a transaction, or set a savepoint in the one that is open. */
    method Enter() returns (nested: bool)
      modifies this
      ensures nested == old(db.inTransaction)
      ensures Inside(old(db), db) && db.current == old(db.current)
    {
      nested := db.inTransaction;
      if nested {
        db := Savepoint(db);
      } else {
        db := Begin(db);
      }
    }

    /** Leave what was entered at `found`. Whatever the statements in between did to the current tables, afterwards the
        connection is as found, at the same depth with the same savepoints, but for the whole effect of a success. */
    method Leave<A>(nested: bool, outcome: Result<A>, commits: bool, ghost found: Connection<Tables>) returns (r: Result<A>)
      requires Resting(found) && Inside(found, db) && nested == found.inTransaction
      modifies this
      ensures (db, r) == Settled(found, (old(db.current), outcome), commits)
    {
      r := outcome;
      if nested {
        if !outcome.Ok? {
          db := RollbackTo(db);
        }
        db := Savepoints.Release(db);
      } else if outcome.Ok? && commits {
        db := Commit(db);
      } else {
        db := Rollback(db);
        if outcome.Ok? {
          r := L.Raised;
        }
      }
    }

    // ----- Offers

    method SetOfferSteps(publisher: Id, resource: Id, o: Offer) returns (r: Result<()>)
      requires ValidOffer(publisher, resource, o)
      modifies this
      ensures Stepped(old(db), db, SetOffer(old(db.current), publisher, resource, o), r)
    {
      db := db.(current := db.current.(offers := db.current.offers[(publisher, resource) := o]));
      if publisher !in db.current.publishers {
        db := db.(current := db.current.(publishers := db.current.publishers[publisher := 0]));
      }
      return L.Ok(());
    }

    method PutOffer(publisher: Id, resource: Id, o: Offer, commits: bool) returns (r: Result<()>)
      requires Resting(db)
      modifies this
      ensures Resting(db) && (db, r) == Settled(old(db), SetOffer(old(db.current), publisher, resource, o), commits)
    {
      if !ValidOffer(publisher, resource, o) {
        return L.Denied;
      }
      ghost var found := db;
      var nested := Enter();
      r := SetOfferSteps(publisher, resource, o);
      r := Leave(nested, r, commits, found);
    }

    // ----- Issuing

    /** The account is charged first; a failing signer or a clashing book id comes after that. */
    method IssueSteps(q: Order, now: int, minted: Minted) returns (r: Result<(Id, Id)>)
      requires ValidOrder(q)
      modifies this
      ensures Stepped(old(db), db, Issue(c, old(db.current), q, now, minted), r)
    {
      hide ValidOrder, Deadlines, Earliest, NewBook, OrderHash, L.AccountHolds, L.Units, Sorted;
      var t := db.current;
      if t.revoked {
        return L.Denied;
      }
      var prior := PriorBook(t, (q.buyer, q.requestId));
      if prior.Some? {
        var b := t.books[prior.value];
        return if b.requestHash == OrderHash(c, q) then L.Ok((prior.value, b.token)) else L.Denied;
      }
      var names := Sorted(q.resources);
      if !Reads(now) || !OnSale(t.offers, q.publisher, names, now) {
        return L.Denied;
      }
      var lines := Lines(t.offers, q.publisher, names);
      var total := L.Units(lines);
      if total > q.maxUnits || q.buyer !in t.accounts || t.accounts[q.buyer].available < total {
        return L.Denied;
      }
      var a := L.Reserve(t.accounts[q.buyer], total);
      if !L.AccountHolds(a) {
        return L.Raised;
      }
      db := db.(current := db.current.(accounts := t.accounts[q.buyer := a]));
      if minted.token.None? || minted.book in t.books {
        return L.Raised;
      }
      var id, token := minted.book, minted.token.value;
      db := db.(current := db.current.(books := t.books[id := NewBook(c, t.offers, q, now, id, token)],
                                       requests := t.requests[(q.buyer, q.requestId) := id]));
      var items := t.items;
      for j := 0 to |lines|
        invariant items == L.AddItems(t.items, id, lines[..j])
      {
        assert lines[..j + 1][..j] == lines[..j];
        items := items[(id, lines[j].resource) := L.Item(lines[j].content, lines[j].terms, lines[j].units)];
      }
      assert lines[..|lines|] == lines;
      db := db.(current := db.current.(items := items));
      return L.Ok((id, token));
    }

    method IssueBook(q: Order, now: int, minted: Minted, commits: bool) returns (r: Result<(Id, Id)>)
      requires Resting(db)
      modifies this
      ensures Resting(db) && (db, r) == Settled(old(db), Issue(c, old(db.current), q, now, minted), commits)
    {
      if !ValidOrder(q) {
        return L.Denied;
      }
      hide Issue;
      ghost var found := db;
      var nested := Enter();
      r := IssueSteps(q, now, minted);
      r := Leave(nested, r, commits, found);
    }

    // ----- Activating

    method ActivateSteps(q: Admission, now: int, verifiedAt: int) returns (r: Result<Id>)
      requires IsName(q.book) && IsName(q.buyer) && IsName(q.publisher) && |q.token.text| <= 4096
      modifies this
      ensures Stepped(old(db), db, Activate(c, old(db.current), q, now, verifiedAt), r)
    {
      var t := db.current;
      if t.revoked || !Owned(t, q.book, q.buyer, q.publisher) {
        return L.Denied;
      }
      var b := t.books[q.book];
      if b.closed || !Within(b, now) || q.token != b.token {
        return L.Denied;
      }
      if !b.active {
        if !Reads(verifiedAt) || !c.verifies(q.token, b.claims) || !(b.claims.issued <= verifiedAt < b.claims.expires) {
          return L.Denied;
        }
        db := db.(current := t.(books := t.books[q.book := b.(active := true)]));
      }
      return L.Ok(q.book);
    }

    method ActivateBook(q: Admission, now: int, verifiedAt: int, commits: bool) returns (r: Result<Id>)
      requires Resting(db)
      modifies this
      ensures Resting(db) && (db, r) == Settled(old(db), Activate(c, old(db.current), q, now, verifiedAt), commits)
    {
      if !IsName(q.book) || !IsName(q.buyer) || !IsName(q.publisher) || |q.token.text| > 4096 {
        return L.Denied;
      }
      hide Activate;
      ghost var found := db;
      var nested := Enter();
      r := ActivateSteps(q, now, verifiedAt);
      r := Leave(nested, r, commits, found);
    }

    // ----- Redeeming

    /** Account, book and publisher rows change before the redemption is written; a CHECK may stop any of them. */
    method RedeemSteps(q: Use, now: int, receiptId: Id) returns (r: Result<Receipt>)
      requires ValidUse(q)
      modifies this
      ensures Stepped(old(db), db, Redeem(c, old(db.current), q, now, receiptId), r)
    {
      hide ValidUse, UseHash;
      var t, key := db.current, (q.buyer, q.requestId);
      if key in t.redemptions {
        return if t.redemptions[key].requestHash == UseHash(c, q) then L.Ok(t.redemptions[key].receipt) else L.Denied;
      }
      if !UseAllowed(t, q, now) {
        return L.Denied;
      }
      var receipt := NewReceipt(t, q, now, receiptId);
      var units := receipt.units;
      if q.buyer !in t.accounts || !L.AccountHolds(L.SpendReserved(t.accounts[q.buyer], units)) {
        return L.Raised;
      }
      db := db.(current := db.current.(accounts := t.accounts[q.buyer := L.SpendReserved(t.accounts[q.buyer], units)]));
      if t.books[q.book].remaining < units {
        return L.Raised;
      }
      db := db.(current := db.current.(books := t.books[q.book := Draw(t.books[q.book], units)]));
      if q.publisher in t.publishers && t.publishers[q.publisher] + units < 0 {
        return L.Raised;
      }
      db := db.(current := db.current.(publishers := WithAccrual(t.publishers, q.publisher, units)));
      db := db.(current := db.current.(redemptions := t.redemptions[key := Redemption(UseHash(c, q), receipt)],
                                       redeemed := t.redeemed + {(q.book, q.resource)}));
      return L.Ok(receipt);
    }

    method RedeemUse(q: Use, now: int, receiptId: Id, commits: bool) returns (r: Result<Receipt>)
      requires Resting(db)
      modifies this
      ensures Resting(db) && (db, r) == Settled(old(db), Redeem(c, old(db.current), q, now, receiptId), commits)
    {
      if !ValidUse(q) {
        return L.Denied;
      }
      hide Redeem;
      ghost var found := db;
      var nested := Enter();
      r := RedeemSteps(q, now, receiptId);
      r := Leave(nested, r, commits, found);
    }

    // ----- Releasing

    method ReleaseSteps(book: Id, buyer: Id) returns (r: Result<int>)
      requires IsName(book) && IsName(buyer)
      modifies this
      ensures Stepped(old(db), db, ReleaseBook(old(db.current), book, buyer), r)
    {
      var t := db.current;
      if book !in t.books || t.books[book].buyer != buyer {
        return L.Denied;
      }
      if t.books[book].closed {
        return L.Ok(0);
      }
      var units := t.books[book].remaining;
      if !H.ReleaseHolds(t.accounts, buyer, units) {
        return L.Raised;
      }
      db := db.(current := db.current.(accounts := H.WithRelease(t.accounts, buyer, units)));
      db := db.(current := db.current.(books := t.books[book := Close(t.books[book])]));
      return L.Ok(units);
    }

    method ReleaseUnused(book: Id, buyer: Id, commits: bool) returns (r: Result<int>)
      requires Resting(db)
      modifies this
      ensures Resting(db) && (db, r) == Settled(old(db), ReleaseBook(old(db.current), book, buyer), commits)
    {
      if !IsName(book) || !IsName(buyer) {
        return L.Denied;
      }
      hide ReleaseBook;
      ghost var found := db;
      var nested := Enter();
      r := ReleaseSteps(book, buyer);
      r := Leave(nested, r, commits, found);
    }

    // ----- Purchasing

    /** Three operations, each nested in the purchase's own transaction. */
    method PurchaseSteps(q: Purchase, d: Draws) returns (r: Result<Bought>)
      requires db.inTransaction
      modifies this
      ensures Stepped(old(db), db, Buy(c, old(db.current), q, d), r)
    {
      hide Issue, Activate, Redeem;
      var issued := IssueBook(OrderOf(q), d.issuedAt, d.minted, true);
      if !issued.Ok? {
        return Failure(issued);
      }
      var (book, token) := issued.value;
      if (q.buyer, q.requestId) !in db.current.redemptions {
        var admitted := ActivateBook(Admission(book, token, q.buyer, q.publisher), d.admittedAt, d.verifiedAt, true);
        if !admitted.Ok? {
          return Failure(admitted);
        }
      }
      var receipt := RedeemUse(UseOf(q, book), d.redeemedAt, d.receiptId, true);
      if !receipt.Ok? {
        return Failure(receipt);
      }
      return L.Ok(Bought(book, token, receipt.value));
    }

    /** All of issue, activate and redeem in one commit, or exactly what was found. */
    method Purchase(q: Purchase, d: Draws, commits: bool) returns (r: Result<Bought>)
      requires Resting(db)
      modifies this
      ensures Resting(db) && (db, r) == Settled(old(db), Buy(c, old(db.current), q, d), commits)
    {
      hide Buy;
      ghost var found := db;
      var nested := Enter();
      r := PurchaseSteps(q, d);
      r := Leave(nested, r, commits, found);
    }
  }
}
