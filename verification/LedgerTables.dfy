/** Rows, tables and single statements of the online clearing ledger. */
module LedgerTables {
  import opened Options
  import opened Identifiers

  datatype Offer = Offer(content: Id, terms: Id, units: int)
  type Catalog = map<Id, Offer>

  datatype Account = Account(initial: int, available: int, reserved: int, spent: int)
  datatype Book = Book(buyer: Id, kid: Id, token: Id, issued: int, expires: int, remaining: int, closed: bool)
  datatype Item = Item(content: Id, terms: Id, units: int)

  datatype Line = Line(resource: Id, content: Id, terms: Id, units: int)
  datatype Issued = Issued(book: Id, token: Id, manifest: seq<Line>)
  datatype IssueRow = IssueRow(fingerprint: Id, response: seq<Issued>)

  datatype Receipt = Receipt(id: Id, buyer: Id, book: Option<Id>, resource: Id, content: Id, terms: Id,
                             units: int, committedAt: int)
  datatype ReceiptRow = ReceiptRow(fingerprint: Id, receipt: Receipt)

  datatype Released = Released(units: int, books: nat)
  datatype CancelRow = CancelRow(fingerprint: Id, response: Released)

  type Key = (Id, Id)

  datatype Tables = Tables(
    accounts: map<Id, Account>,
    books: map<Id, Book>,
    items: map<Key, Item>,
    issues: map<Key, IssueRow>,
    receipts: map<Key, ReceiptRow>,
    redeemed: set<Key>,  // the unique index on (book, resource) of receipts
    cancellations: map<Key, CancelRow>,
    revoked: set<Id>,
    accrued: int)

  const EMPTY := Tables(map[], map[], map[], map[], map[], {}, map[], {}, 0)

  /** A call is accepted, denied by policy, or stopped by another error: a database constraint or a failing signer. */
  datatype Result<+T> = Ok(value: T) | Denied | Raised

  // ----- Row constraints and row updates

  predicate AccountHolds(a: Account) {
    a.initial == a.available + a.reserved + a.spent && a.available >= 0 && a.reserved >= 0 && a.spent >= 0
  }

  /** The entry of a receipt in the unique index; receipts without a book have none. */
  function IndexEntry(r: Receipt): set<Key> {
    if r.book.Some? then {(r.book.value, r.resource)} else {}
  }

  function Units(lines: seq<Line>): int {
    if lines == [] then 0 else Units(lines[..|lines| - 1]) + lines[|lines| - 1].units
  }

  /** The items of one book, inserted line by line. */
  function AddItems(items: map<Key, Item>, book: Id, lines: seq<Line>): map<Key, Item> {
    if lines == [] then items
    else
      var last := lines[|lines| - 1];
      AddItems(items, book, lines[..|lines| - 1])[(book, last.resource) := Item(last.content, last.terms, last.units)]
  }

  function Reserve(a: Account, units: int): Account {
    a.(available := a.available - units, reserved := a.reserved + units)
  }

  function SpendReserved(a: Account, units: int): Account {
    a.(reserved := a.reserved - units, spent := a.spent + units)
  }

  function SpendAvailable(a: Account, units: int): Account {
    a.(available := a.available - units, spent := a.spent + units)
  }

  function Release(a: Account, units: int): Account {
    a.(reserved := a.reserved - units, available := a.available + units)
  }

  function Draw(b: Book, units: int): Book {
    b.(remaining := b.remaining - units)
  }

  function Close(b: Book): Book {
    b.(remaining := 0, closed := true)
  }
}
