/** The online ledger as the service holds it: one table set, changed statement by statement inside transactions that
    roll back on every error. */
module Ledger {
  import opened Options
  import opened Identifiers
  import opened LedgerTables
  import opened HttpLedger
  import opened LedgerInvariant
  import R = LedgerRuns

  class Database {
    const c: Config
    var t: Tables

    ghost predicate Valid()
      reads this
    {
      Inv(t) && Indexed(t.receipts, t.redeemed) && CatalogHolds(c)
    }

    constructor (c: Config)
      requires CatalogHolds(c)
      ensures Valid() && t == EMPTY && this.c == c
    {
      this.c, t := c, EMPTY;
      new;
      R.EmptyHolds();
    }

    method SeedAccount(buyer: Id, units: int) returns (r: Result<()>)
      requires Valid()
      modifies this
      ensures Valid() && (t, r) == Seed(old(t), buyer, units)
    {
      SeedKeepsInv(t, buyer, units);
      R.SeedKeepsReceipts(t, buyer, units);
      if !IsIdentifier(buyer) || !(1 <= units <= MAX_UNITS) {
        return Denied;
      }
      if buyer in t.accounts {
        return Raised;
      }
      t := t.(accounts := t.accounts[buyer := Account(units, units, 0, 0)]);
      return Ok(());
    }

    /** The write transaction of an issuance: the account row first, then every book with its items. */
    method CommitIssuance(p: Prepared, clock: int) returns (r: Result<seq<Issued>>)
      requires Valid() && PreparedHolds(p)
      modifies this
      ensures Valid() && (t, r) == CommitIssue(old(t), p, clock)
    {
      hide Inv, Indexed, Units, Response, LinesHold, NewBook;
      CommitIssueKeepsInv(t, p, clock);
      R.CommitKeepsReceipts(t, p, clock);
      var key := (p.buyer, p.requestId);
      if key in t.issues {
        return if t.issues[key].fingerprint == p.fingerprint then Ok(t.issues[key].response) else Denied;
      }
      if !(p.now <= clock < p.now + p.ttl) || p.kid in t.revoked {
        return Denied;
      }
      var total := UnitsOfAll(p.manifests);
      if p.buyer !in t.accounts || t.accounts[p.buyer].available < total {
        return Denied;
      }
      var a := Reserve(t.accounts[p.buyer], total);
      if !AccountHolds(a) || !Insertable(t.books, p) {
        return Raised;
      }
      ghost var before := t;
      t := t.(accounts := t.accounts[p.buyer := a]);
      for i := 0 to |p.ids|
        invariant t == before.(accounts := before.accounts[p.buyer := a],
                               books := AddBooks(before.books, p, i), items := AddAllItems(before.items, p, i))
      {
        t := t.(books := t.books[p.ids[i] := NewBook(p, i)]);
        var items := t.items;
        var lines := p.manifests[i];
        for j := 0 to |lines|
          invariant items == AddItems(t.items, p.ids[i], lines[..j])
        {
          assert lines[..j + 1][..j] == lines[..j];
          items := items[(p.ids[i], lines[j].resource) := Item(lines[j].content, lines[j].terms, lines[j].units)];
        }
        assert lines[..|lines|] == lines;
        t := t.(items := items);
      }
      t := t.(issues := t.issues[key := IssueRow(p.fingerprint, Response(p))]);
      return Ok(Response(p));
    }

    /** A purchase: book row, account row, receipt row and publisher row, or nothing. */
    method Purchase(q: SpendRequest, clock: int, committedAt: int, receiptId: Id) returns (r: Result<Receipt>)
      requires Valid()
      modifies this
      ensures Valid() && (t, r) == Spend(c, old(t), q, clock, committedAt, receiptId)
    {
      hide Inv, Indexed;
      SpendKeepsInv(c, t, q, clock, committedAt, receiptId);
      R.IndexKept(c, t, q, clock, committedAt, receiptId);
      if !ValidSpend(c.catalog, q) {
        return Denied;
      }
      var key, fingerprint, units := (q.buyer, q.requestId), SpendFingerprint(c, q), c.catalog[q.resource].units;
      if key in t.receipts {
        return if t.receipts[key].fingerprint == fingerprint then Ok(t.receipts[key].receipt) else Denied;
      }
      if units > q.maxUnits {
        return Denied;
      }
      var before := t;
      if q.book.Some? {
        if !BookAllows(t, q, units, clock) {
          return Denied;
        }
        if q.buyer !in t.accounts || !BookSpendHolds(t, q, units) {
          return Raised;
        }
        t := t.(books := t.books[q.book.value := Draw(t.books[q.book.value], units)]);
        t := t.(accounts := t.accounts[q.buyer := SpendReserved(t.accounts[q.buyer], units)]);
      } else {
        if q.buyer !in t.accounts || t.accounts[q.buyer].available < units {
          return Denied;
        }
        var a := SpendAvailable(t.accounts[q.buyer], units);
        if !AccountHolds(a) || t.accrued + units < 0 {
          return Raised;
        }
        t := t.(accounts := t.accounts[q.buyer := a]);
      }
      var receipt := Receipt(receiptId, q.buyer, q.book, q.resource, q.content, q.terms, units, committedAt);
      t := t.(receipts := t.receipts[key := ReceiptRow(fingerprint, receipt)], redeemed := t.redeemed + IndexEntry(receipt));
      t := t.(accrued := t.accrued + units);
      assert q.book.None? ==> before.redeemed + IndexEntry(receipt) == before.redeemed;
      return Ok(receipt);
    }

    method CancelBook(buyer: Id, book: Id) returns (r: Result<int>)
      requires Valid()
      modifies this
      ensures Valid() && (t, r) == Cancel(old(t), buyer, book)
    {
      hide Inv, Indexed;
      CancelKeepsInv(t, buyer, book);
      R.CancelKeepsReceipts(t, buyer, book);
      if !IsIdentifier(book) || book !in t.books || t.books[book].buyer != buyer {
        return Denied;
      }
      var units := t.books[book].remaining;
      if !ReleaseHolds(t.accounts, buyer, units) {
        return Raised;
      }
      t := t.(accounts := WithRelease(t.accounts, buyer, units));
      t := t.(books := t.books[book := Close(t.books[book])]);
      return Ok(units);
    }

    method SumRemaining(ids: seq<Id>) returns (units: int)
      requires forall b | b in ids :: b in t.books
      ensures units == Remaining(t.books, ids)
    {
      units := 0;
      for i := 0 to |ids|
        invariant units == Remaining(t.books, ids[..i])
      {
        assert ids[..i + 1][..i] == ids[..i];
        units := units + t.books[ids[i]].remaining;
      }
      assert ids[..|ids|] == ids;
    }

    method CloseInTurn(ids: seq<Id>)
      requires forall b | b in ids :: b in t.books
      modifies this
      ensures t == old(t).(books := CloseAll(old(t).books, ids))
    {
      ghost var before := t;
      for i := 0 to |ids|
        invariant t == before.(books := CloseAll(before.books, ids[..i]))
      {
        assert ids[..i + 1][..i] == ids[..i];
        t := t.(books := t.books[ids[i] := Close(t.books[ids[i]])]);
      }
      assert ids[..|ids|] == ids;
    }

    /** One account update for the sum of all books, then every book is closed in turn. */
    method CancelBooks(buyer: Id, requestId: Id, books: seq<Id>) returns (r: Result<Released>)
      requires Valid()
      modifies this
      ensures Valid() && (t, r) == CancelMany(c, old(t), buyer, requestId, books)
    {
      hide Inv, Indexed, ValidCancel, CancelFingerprint, Sorted, ReleaseHolds, WithRelease, CloseAll, Remaining;
      CancelManyKeepsInv(c, t, buyer, requestId, books);
      R.CancelManyKeepsReceipts(c, t, buyer, requestId, books);
      var ids, key := Sorted(books), (buyer, requestId);
      if !ValidCancel(buyer, requestId, books) {
        return Denied;
      }
      if key in t.cancellations {
        return if t.cancellations[key].fingerprint == CancelFingerprint(c, books)
               then Ok(t.cancellations[key].response) else Denied;
      }
      if !OwnsAll(t, buyer, ids) {
        return Denied;
      }
      var units := SumRemaining(ids);
      if !ReleaseHolds(t.accounts, buyer, units) {
        return Raised;
      }
      t := t.(accounts := WithRelease(t.accounts, buyer, units));
      CloseInTurn(ids);
      r := Ok(Released(units, |ids|));
      t := t.(cancellations := t.cancellations[key := CancelRow(CancelFingerprint(c, books), r.value)]);
    }

    method RevokeKey(kid: Id)
      requires Valid()
      modifies this
      ensures Valid() && t == Revoke(old(t), kid)
    {
      RevokeKeepsInv(t, kid);
      t := t.(revoked := t.revoked + {kid});
    }
  }
}
