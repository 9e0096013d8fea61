/** The catalog and ledger bookkeeping of `Projects/utils.py`.

    The two spreadsheets are held in memory: the catalog is a sequence of
    book rows in file order, the ledger an append-only sequence of
    transaction rows. Each operation is first given as a transition function
    on `Tables` (what the source computes), then as a method of the class
    `Store`, which updates its two fields in place the way the source
    rewrites its two files. */
module Library {
  import opened Wrappers

  datatype Action = Borrow | Return

  /** The text stored in the `action` column. */
  function ActionName(a: Action): string {
    match a
    case Borrow => "borrow"
    case Return => "return"
  }

  datatype UserDetails = UserDetails(name: string, college: string, idEmail: string, phone: string)

  datatype Book = Book(
    bookId: int, title: string, author: string, copies: int, description: string, tags: string)

  datatype Transaction = Transaction(
    transactionId: int, bookId: int,
    userName: string, userCollege: string, userIdEmail: string, userPhone: string,
    action: Action, timestamp: string)

  /** The fields `add_book` reads from its `book_data` dictionary. */
  datatype NewBook = NewBook(title: string, author: string, copies: int, description: string, tags: string)

  /** One `key: value` entry of the dictionary `edit_book` receives, for the
      five columns an edit can name. */
  datatype Field =
    | Title(text: string)
    | Author(text: string)
    | Copies(count: int)
    | Description(text: string)
    | Tags(text: string)

  datatype Tables = Tables(books: seq<Book>, transactions: seq<Transaction>)

  /** The `(success, message)` pair an operation returns. */
  datatype Reply = Reply(success: bool, message: string)

  const NotAvailable := "Book not available."
  const NotFound := "Book not found."
  const Borrowed := "Book borrowed successfully."
  const Returned := "Book returned successfully."
  const Updated := "Book updated successfully."

  // ---------------------------------------------------------------------
  // Queries on the catalog
  // ---------------------------------------------------------------------

  /** The first catalog row with the given id: the row whose `copies`
      `books[books['book_id'] == book_id]['copies'].values[0]` reads. */
  function FirstMatch(books: seq<Book>, bookId: int): (r: Option<nat>)
    ensures r.Some? ==> r.value < |books| && books[r.value].bookId == bookId
    ensures r.Some? ==> forall j :: 0 <= j < r.value ==> books[j].bookId != bookId
    ensures r.None? ==> forall j :: 0 <= j < |books| ==> books[j].bookId != bookId
    decreases |books|
  {
    if |books| == 0 then None
    else if books[0].bookId == bookId then Some(0)
    else
      match FirstMatch(books[1..], bookId)
      case None => None
      case Some(i) => Some(i + 1)
  }

  /** `book_id in books['book_id'].values`. */
  predicate HasBook(books: seq<Book>, bookId: int) {
    FirstMatch(books, bookId).Some?
  }

  lemma HasBookIff(books: seq<Book>, bookId: int)
    ensures HasBook(books, bookId) <==> exists i :: 0 <= i < |books| && books[i].bookId == bookId
  {
  }

  /** The largest id in a non-empty catalog (`books['book_id'].max()`). */
  function MaxBookId(books: seq<Book>): (m: int)
    requires |books| > 0
    ensures exists i :: 0 <= i < |books| && books[i].bookId == m
    ensures forall i :: 0 <= i < |books| ==> books[i].bookId <= m
    decreases |books|
  {
    if |books| == 1 then books[0].bookId
    else
      var rest := MaxBookId(books[1..]);
      assert forall i :: 1 <= i < |books| ==> books[i] == books[1..][i - 1];
      if books[0].bookId >= rest then books[0].bookId else rest
  }

  /** The id `add_book` assigns: one more than the largest, or 1 when the
      catalog is empty. */
  function NextBookId(books: seq<Book>): (id: int)
    ensures forall i :: 0 <= i < |books| ==> books[i].bookId < id
    ensures |books| == 0 ==> id == 1
    ensures |books| > 0 ==> exists i :: 0 <= i < |books| && books[i].bookId == id - 1
  {
    if |books| == 0 then 1 else MaxBookId(books) + 1
  }

  // ---------------------------------------------------------------------
  // Row updates (`books.loc[books['book_id'] == book_id, key] = ...`)
  // ---------------------------------------------------------------------

  /** `books.loc[books['book_id'] == book_id, 'copies'] += delta`: every row
      with the id is changed, in place, and no other. */
  function AdjustCopies(books: seq<Book>, bookId: int, delta: int): (r: seq<Book>)
    ensures |r| == |books|
  {
    seq(|books|, i requires 0 <= i < |books| =>
      if books[i].bookId == bookId then books[i].(copies := books[i].copies + delta) else books[i])
  }

  /** One column of one row overwritten. */
  function SetField(b: Book, f: Field): Book {
    match f
    case Title(t) => b.(title := t)
    case Author(a) => b.(author := a)
    case Copies(n) => b.(copies := n)
    case Description(d) => b.(description := d)
    case Tags(t) => b.(tags := t)
  }

  /** `books.loc[books['book_id'] == book_id, key] = value`. */
  function SetFieldWhere(books: seq<Book>, bookId: int, f: Field): (r: seq<Book>)
    ensures |r| == |books|
  {
    seq(|books|, i requires 0 <= i < |books| =>
      if books[i].bookId == bookId then SetField(books[i], f) else books[i])
  }

  /** The effect of the loop `for key, value in book_data.items()`, entry by
      entry in dictionary order. */
  function ApplyEdits(books: seq<Book>, bookId: int, data: seq<Field>): (r: seq<Book>)
    ensures |r| == |books|
    decreases |data|
  {
    if |data| == 0 then books
    else SetFieldWhere(ApplyEdits(books, bookId, data[..|data| - 1]), bookId, data[|data| - 1])
  }

  /** The row `borrow_book` or `return_book` appends to a ledger. */
  function LogEntry(ledger: seq<Transaction>, bookId: int, user: UserDetails, action: Action, now: string)
    : Transaction
  {
    Transaction(|ledger| + 1, bookId, user.name, user.college, user.idEmail, user.phone, action, now)
  }

  // ---------------------------------------------------------------------
  // The four operations as transitions
  // ---------------------------------------------------------------------

  /** `borrow_book(book_id, user_details)` with `datetime.now().isoformat()`
      given as `now`. */
  function BorrowStep(t: Tables, bookId: int, user: UserDetails, now: string): (Tables, Reply) {
    match FirstMatch(t.books, bookId)
    case None => (t, Reply(false, NotAvailable))
    case Some(i) =>
      if t.books[i].copies <= 0 then (t, Reply(false, NotAvailable))
      else
        (Tables(AdjustCopies(t.books, bookId, -1),
                t.transactions + [LogEntry(t.transactions, bookId, user, Borrow, now)]),
         Reply(true, Borrowed))
  }

  /** `return_book(book_id, user_details)`: no upper bound on copies. */
  function ReturnStep(t: Tables, bookId: int, user: UserDetails, now: string): (Tables, Reply) {
    if !HasBook(t.books, bookId) then (t, Reply(false, NotFound))
    else
      (Tables(AdjustCopies(t.books, bookId, 1),
              t.transactions + [LogEntry(t.transactions, bookId, user, Return, now)]),
       Reply(true, Returned))
  }

  /** `add_book(book_data)`: the new tables and the id it returns. */
  function AddStep(t: Tables, data: NewBook): (Tables, int) {
    var id := NextBookId(t.books);
    (Tables(t.books + [Book(id, data.title, data.author, data.copies, data.description, data.tags)],
            t.transactions),
     id)
  }

  /** `edit_book(book_id, book_data)`. */
  function EditStep(t: Tables, bookId: int, data: seq<Field>): (Tables, Reply) {
    if !HasBook(t.books, bookId) then (t, Reply(false, NotFound))
    else (Tables(ApplyEdits(t.books, bookId, data), t.transactions), Reply(true, Updated))
  }

  // ---------------------------------------------------------------------
  // What each operation guarantees
  // ---------------------------------------------------------------------

  ghost predicate UniqueIds(books: seq<Book>) {
    forall i, j :: 0 <= i < j < |books| ==> books[i].bookId != books[j].bookId
  }

  ghost predicate CopiesNonNegative(books: seq<Book>) {
    forall i :: 0 <= i < |books| ==> books[i].copies >= 0
  }

  /** Transaction ids count up from 1 in ledger order. */
  ghost predicate SequentialIds(ledger: seq<Transaction>) {
    forall i :: 0 <= i < |ledger| ==> ledger[i].transactionId == i + 1
  }

  /** Every transaction names a book of the catalog. */
  ghost predicate LedgerReferencesCatalog(t: Tables) {
    forall i :: 0 <= i < |t.transactions| ==> HasBook(t.books, t.transactions[i].bookId)
  }

  /** The state the operations keep: unique ids, no negative stock, a
      ledger numbered 1..n that refers only to catalog books. */
  ghost predicate Valid(t: Tables) {
    && UniqueIds(t.books)
    && CopiesNonNegative(t.books)
    && SequentialIds(t.transactions)
    && LedgerReferencesCatalog(t)
  }

  /** The books whose rows an update may touch keep their ids, so every id
      lookup answers as before. */
  lemma {:induction false} SameIdsSameLookup(old_books: seq<Book>, new_books: seq<Book>, bookId: int)
    requires |old_books| == |new_books|
    requires forall i :: 0 <= i < |old_books| ==> old_books[i].bookId == new_books[i].bookId
    ensures FirstMatch(new_books, bookId) == FirstMatch(old_books, bookId)
    decreases |old_books|
  {
    if |old_books| > 0 {
      SameIdsSameLookup(old_books[1..], new_books[1..], bookId);
    }
  }

  /** A borrow fails exactly when no row has the id or the first such row
      has no copies left; a failure changes neither table. */
  lemma BorrowGuard(t: Tables, bookId: int, user: UserDetails, now: string)
    ensures var (t', reply) := BorrowStep(t, bookId, user, now);
      && (!reply.success <==>
            (forall i :: 0 <= i < |t.books| ==> t.books[i].bookId != bookId)
            || t.books[FirstMatch(t.books, bookId).value].copies <= 0)
      && (!reply.success ==> t' == t && reply.message == NotAvailable)
      && (reply.success ==> reply.message == Borrowed)
  {
  }

  /** With unique ids the guard reads: the book exists and has a copy. */
  lemma BorrowSucceedsIff(t: Tables, bookId: int, user: UserDetails, now: string)
    requires UniqueIds(t.books)
    ensures BorrowStep(t, bookId, user, now).1.success <==>
      exists i :: 0 <= i < |t.books| && t.books[i].bookId == bookId && t.books[i].copies > 0
  {
    match FirstMatch(t.books, bookId)
    case None =>
    case Some(k) =>
      assert forall i :: 0 <= i < |t.books| && t.books[i].bookId == bookId ==> i == k;
  }

  /** A successful borrow takes one copy from the book, appends one
      'borrow' row numbered after the last, and changes nothing else. */
  lemma BorrowEffect(t: Tables, bookId: int, user: UserDetails, now: string)
    requires BorrowStep(t, bookId, user, now).1.success
    ensures var t' := BorrowStep(t, bookId, user, now).0;
      && |t'.books| == |t.books|
      && (forall i :: 0 <= i < |t.books| && t.books[i].bookId == bookId ==>
            t'.books[i] == t.books[i].(copies := t.books[i].copies - 1))
      && (forall i :: 0 <= i < |t.books| && t.books[i].bookId != bookId ==> t'.books[i] == t.books[i])
      && |t'.transactions| == |t.transactions| + 1
      && t'.transactions[..|t.transactions|] == t.transactions
      && t'.transactions[|t.transactions|]
         == Transaction(|t.transactions| + 1, bookId, user.name, user.college, user.idEmail,
                        user.phone, Borrow, now)
  {
    var t' := BorrowStep(t, bookId, user, now).0;
    assert t'.transactions[..|t.transactions|] == t.transactions;
  }

  /** A return fails exactly when no row has the id; otherwise it adds one
      copy, whatever the count was, and appends one 'return' row. */
  lemma ReturnEffect(t: Tables, bookId: int, user: UserDetails, now: string)
    ensures var (t', reply) := ReturnStep(t, bookId, user, now);
      && (reply.success <==> exists i :: 0 <= i < |t.books| && t.books[i].bookId == bookId)
      && (!reply.success ==> t' == t && reply.message == NotFound)
      && (reply.success ==>
            && reply.message == Returned
            && |t'.books| == |t.books|
            && (forall i :: 0 <= i < |t.books| && t.books[i].bookId == bookId ==>
                  t'.books[i] == t.books[i].(copies := t.books[i].copies + 1))
            && (forall i :: 0 <= i < |t.books| && t.books[i].bookId != bookId ==>
                  t'.books[i] == t.books[i])
            && t'.transactions
               == t.transactions + [Transaction(|t.transactions| + 1, bookId, user.name, user.college,
                                                user.idEmail, user.phone, Return, now)])
  {
    HasBookIff(t.books, bookId);
  }

  /** `add_book` appends one row whose id is larger than every existing
      id (1 for an empty catalog), returns that id, and keeps the ledger. */
  lemma AddEffect(t: Tables, data: NewBook)
    ensures var (t', id) := AddStep(t, data);
      && (forall i :: 0 <= i < |t.books| ==> t.books[i].bookId < id)
      && (|t.books| == 0 ==> id == 1)
      && t'.books == t.books + [Book(id, data.title, data.author, data.copies, data.description, data.tags)]
      && t'.transactions == t.transactions
      && FirstMatch(t'.books, id) == Some(|t.books|)
  {
    var (t', id) := AddStep(t, data);
    assert forall i :: 0 <= i < |t.books| ==> t'.books[i] == t.books[i];
    assert t'.books[|t.books|].bookId == id;
    HasBookIff(t'.books, id);
  }

  /** The effect of an edit on one row: the last entry for each column wins,
      and columns no entry names keep their value. */
  ghost function EditedRow(b: Book, data: seq<Field>): Book
    decreases |data|
  {
    if |data| == 0 then b else SetField(EditedRow(b, data[..|data| - 1]), data[|data| - 1])
  }

  lemma {:induction false} ApplyEditsRows(books: seq<Book>, bookId: int, data: seq<Field>)
    ensures forall i :: 0 <= i < |books| ==>
      ApplyEdits(books, bookId, data)[i]
      == (if books[i].bookId == bookId then EditedRow(books[i], data) else books[i])
    ensures forall i :: 0 <= i < |books| ==> ApplyEdits(books, bookId, data)[i].bookId == books[i].bookId
    decreases |data|
  {
    if |data| > 0 {
      ApplyEditsRows(books, bookId, data[..|data| - 1]);
    }
  }

  /** An edit of an unknown id reports "Book not found." and changes
      nothing; otherwise it rewrites only the rows with that id, and only
      as the entries say. */
  lemma EditEffect(t: Tables, bookId: int, data: seq<Field>)
    ensures var (t', reply) := EditStep(t, bookId, data);
      && (reply.success <==> exists i :: 0 <= i < |t.books| && t.books[i].bookId == bookId)
      && (!reply.success ==> t' == t && reply.message == NotFound)
      && (reply.success ==> reply.message == Updated)
      && t'.transactions == t.transactions
      && |t'.books| == |t.books|
      && (forall i :: 0 <= i < |t.books| ==>
            t'.books[i] == if t.books[i].bookId == bookId then EditedRow(t.books[i], data) else t.books[i])
  {
    HasBookIff(t.books, bookId);
    ApplyEditsRows(t.books, bookId, data);
  }

  /** The columns no entry names are left as they were. */
  lemma {:induction false} EditedRowKeeps(b: Book, data: seq<Field>)
    ensures EditedRow(b, data).bookId == b.bookId
    ensures (forall k :: 0 <= k < |data| ==> !data[k].Title?) ==> EditedRow(b, data).title == b.title
    ensures (forall k :: 0 <= k < |data| ==> !data[k].Author?) ==> EditedRow(b, data).author == b.author
    ensures (forall k :: 0 <= k < |data| ==> !data[k].Copies?) ==> EditedRow(b, data).copies == b.copies
    ensures (forall k :: 0 <= k < |data| ==> !data[k].Description?) ==>
      EditedRow(b, data).description == b.description
    ensures (forall k :: 0 <= k < |data| ==> !data[k].Tags?) ==> EditedRow(b, data).tags == b.tags
    decreases |data|
  {
    if |data| > 0 {
      EditedRowKeeps(b, data[..|data| - 1]);
    }
  }

  // ---------------------------------------------------------------------
  // The invariant is kept
  // ---------------------------------------------------------------------

  /** Borrow keeps the invariant: its guard reads the only row with the id,
      so the decrement never goes below zero. */
  lemma {:induction false} BorrowKeepsValid(t: Tables, bookId: int, user: UserDetails, now: string)
    requires Valid(t)
    ensures Valid(BorrowStep(t, bookId, user, now).0)
  {
    var (t', reply) := BorrowStep(t, bookId, user, now);
    if reply.success {
      var k := FirstMatch(t.books, bookId).value;
      assert forall i :: 0 <= i < |t.books| && t.books[i].bookId == bookId ==> i == k;
      SameIdsSameLookup(t.books, t'.books, bookId);
      forall i | 0 <= i < |t'.transactions| ensures HasBook(t'.books, t'.transactions[i].bookId) {
        SameIdsSameLookup(t.books, t'.books, t'.transactions[i].bookId);
      }
    }
  }

  lemma {:induction false} ReturnKeepsValid(t: Tables, bookId: int, user: UserDetails, now: string)
    requires Valid(t)
    ensures Valid(ReturnStep(t, bookId, user, now).0)
  {
    var (t', reply) := ReturnStep(t, bookId, user, now);
    if reply.success {
      SameIdsSameLookup(t.books, t'.books, bookId);
      forall i | 0 <= i < |t'.transactions| ensures HasBook(t'.books, t'.transactions[i].bookId) {
        SameIdsSameLookup(t.books, t'.books, t'.transactions[i].bookId);
      }
    }
  }

  /** Appending a row keeps every earlier lookup true. */
  lemma {:induction false} HasBookAppend(books: seq<Book>, b: Book, bookId: int)
    requires HasBook(books, bookId)
    ensures HasBook(books + [b], bookId)
  {
    var k := FirstMatch(books, bookId).value;
    HasBookIff(books + [b], bookId);
    assert (books + [b])[k].bookId == bookId;
  }

  /** Add keeps the invariant when the new row has a non-negative count
      (the form's minimum is 1); its fresh id keeps ids unique. */
  lemma {:induction false} AddKeepsValid(t: Tables, data: NewBook)
    requires Valid(t) && data.copies >= 0
    ensures Valid(AddStep(t, data).0)
  {
    var (t', id) := AddStep(t, data);
    assert forall i :: 0 <= i < |t.books| ==> t'.books[i] == t.books[i];
    forall i | 0 <= i < |t'.transactions| ensures HasBook(t'.books, t'.transactions[i].bookId) {
      HasBookAppend(t.books, t'.books[|t.books|], t.transactions[i].bookId);
    }
  }

  /** Edit keeps the invariant when no entry sets a negative count (the
      form's minimum is 0); ids are never edited. */
  lemma {:induction false} EditKeepsValid(t: Tables, bookId: int, data: seq<Field>)
    requires Valid(t)
    requires forall k :: 0 <= k < |data| ==> data[k].Copies? ==> data[k].count >= 0
    ensures Valid(EditStep(t, bookId, data).0)
  {
    var (t', reply) := EditStep(t, bookId, data);
    if reply.success {
      ApplyEditsRows(t.books, bookId, data);
      forall i | 0 <= i < |t.books| && t.books[i].bookId == bookId
        ensures EditedRow(t.books[i], data).copies >= 0
      {
        EditedRowCopies(t.books[i], data);
      }
      forall i | 0 <= i < |t'.transactions| ensures HasBook(t'.books, t'.transactions[i].bookId) {
        SameIdsSameLookup(t.books, t'.books, t'.transactions[i].bookId);
      }
    }
  }

  lemma {:induction false} EditedRowCopies(b: Book, data: seq<Field>)
    requires b.copies >= 0
    requires forall k :: 0 <= k < |data| ==> data[k].Copies? ==> data[k].count >= 0
    ensures EditedRow(b, data).copies >= 0
    decreases |data|
  {
    if |data| > 0 {
      EditedRowCopies(b, data[..|data| - 1]);
    }
  }

  /** Without unique ids the borrow guard is not enough: it reads only the
      first row with the id but decrements every such row, so a duplicate
      row with no copies goes negative. */
  lemma BorrowNeedsUniqueIds()
    ensures var t := Tables([Book(1, "A", "X", 1, "", ""), Book(1, "B", "Y", 0, "", "")], []);
      && CopiesNonNegative(t.books)
      && !CopiesNonNegative(BorrowStep(t, 1, UserDetails("", "", "", ""), "").0.books)
  {
    var t := Tables([Book(1, "A", "X", 1, "", ""), Book(1, "B", "Y", 0, "", "")], []);
    var t' := BorrowStep(t, 1, UserDetails("", "", "", ""), "").0;
    assert FirstMatch(t.books, 1) == Some(0);
    assert t'.books[1].copies == -1;
  }

  // ---------------------------------------------------------------------
  // Runs of operations
  // ---------------------------------------------------------------------

  datatype Op =
    | BorrowOp(bookId: int, user: UserDetails, now: string)
    | ReturnOp(bookId: int, user: UserDetails, now: string)
    | AddOp(data: NewBook)
    | EditOp(bookId: int, edits: seq<Field>)

  function Step(t: Tables, op: Op): Tables {
    match op
    case BorrowOp(id, user, now) => BorrowStep(t, id, user, now).0
    case ReturnOp(id, user, now) => ReturnStep(t, id, user, now).0
    case AddOp(data) => AddStep(t, data).0
    case EditOp(id, edits) => EditStep(t, id, edits).0
  }

  /** The tables after the operations, in order, whether each succeeds or not. */
  function Run(t: Tables, ops: seq<Op>): Tables
    decreases |ops|
  {
    if |ops| == 0 then t else Run(Step(t, ops[0]), ops[1..])
  }

  /** Operations the app's forms can issue: they never send a negative count. */
  ghost predicate FormOp(op: Op) {
    match op
    case AddOp(data) => data.copies >= 0
    case EditOp(_, edits) => forall k :: 0 <= k < |edits| ==> edits[k].Copies? ==> edits[k].count >= 0
    case _ => true
  }

  /** The ledger only grows at its end, and its ids stay 1..n. */
  lemma {:induction false} RunLedger(t: Tables, ops: seq<Op>)
    requires SequentialIds(t.transactions)
    ensures |Run(t, ops).transactions| >= |t.transactions|
    ensures Run(t, ops).transactions[..|t.transactions|] == t.transactions
    ensures SequentialIds(Run(t, ops).transactions)
    decreases |ops|
  {
    if |ops| > 0 {
      var t1 := Step(t, ops[0]);
      assert |t1.transactions| >= |t.transactions| && t1.transactions[..|t.transactions|] == t.transactions
        && SequentialIds(t1.transactions);
      RunLedger(t1, ops[1..]);
      var r := Run(t1, ops[1..]);
      assert r.transactions[..|t.transactions|] == r.transactions[..|t1.transactions|][..|t.transactions|];
    }
  }

  /** From an empty ledger, whatever borrows, returns, adds and edits run,
      the transaction at position i has id i + 1. */
  lemma TransactionIdsFromEmpty(t: Tables, ops: seq<Op>)
    requires t.transactions == []
    ensures forall i :: 0 <= i < |Run(t, ops).transactions| ==> Run(t, ops).transactions[i].transactionId == i + 1
  {
    RunLedger(t, ops);
  }

  /** Any run of form operations keeps the invariant: copies never go
      negative, ids stay unique, the ledger stays numbered and grounded. */
  lemma {:induction false} RunKeepsValid(t: Tables, ops: seq<Op>)
    requires Valid(t)
    requires forall k :: 0 <= k < |ops| ==> FormOp(ops[k])
    ensures Valid(Run(t, ops))
    decreases |ops|
  {
    if |ops| > 0 {
      match ops[0] {
        case BorrowOp(id, user, now) => BorrowKeepsValid(t, id, user, now);
        case ReturnOp(id, user, now) => ReturnKeepsValid(t, id, user, now);
        case AddOp(data) => AddKeepsValid(t, data);
        case EditOp(id, edits) => EditKeepsValid(t, id, edits);
      }
      RunKeepsValid(Step(t, ops[0]), ops[1..]);
    }
  }

  /** Adding a book and then editing one of its columns through the id
      that `add_book` returned changes exactly that column of the new row. */
  lemma AddThenEdit(t: Tables, data: NewBook, f: Field)
    ensures var (t1, id) := AddStep(t, data);
      var (t2, reply) := EditStep(t1, id, [f]);
      && reply.success
      && t2.books == t.books + [SetField(t1.books[|t.books|], f)]
      && t2.transactions == t.transactions
  {
    var (t1, id) := AddStep(t, data);
    AddEffect(t, data);
    assert [f][..0] == [];
    assert ApplyEdits(t1.books, id, [f]) == SetFieldWhere(t1.books, id, f);
    var t2 := EditStep(t1, id, [f]).0;
    assert t2.books == SetFieldWhere(t1.books, id, f);
    assert forall i :: 0 <= i < |t.books| ==> t1.books[i] == t.books[i] && t.books[i].bookId < id;
  }

  // ---------------------------------------------------------------------
  // The sample catalog
  // ---------------------------------------------------------------------

  /** The five books the sample-data script writes, with an empty ledger. */
  const SampleTables := Tables([
    Book(1, "The Alchemist", "Paulo Coelho", 5,
         "A philosophical novel about following one's dreams.", "adventure, philosophy"),
    Book(2, "1984", "George Orwell", 3, "A dystopian novel about totalitarianism.", "dystopia, politics"),
    Book(3, "To Kill a Mockingbird", "Harper Lee", 4,
         "A novel about racial injustice in the American South.", "drama, social issues"),
    Book(4, "The Great Gatsby", "F. Scott Fitzgerald", 2,
         "A novel about the American Dream in the 1920s.", "classics, romance"),
    Book(5, "Pride and Prejudice", "Jane Austen", 6,
         "A romantic novel about manners and marriage.", "romance, classics")], [])

  /** The sample catalog satisfies the invariant. */
  lemma SampleValid()
    ensures Valid(SampleTables)
  {
    var books := SampleTables.books;
    assert forall i :: 0 <= i < |books| ==> books[i].bookId == i + 1;
  }

  /** A book whose first row holds two copies can be borrowed twice,
      which empties it and logs two transactions; a third borrow is
      refused and changes nothing. */
  lemma BorrowTwiceExhausts(t: Tables, bookId: int, i: nat, user: UserDetails, now: string)
    requires FirstMatch(t.books, bookId) == Some(i) && t.books[i].copies == 2
    ensures var (t1, r1) := BorrowStep(t, bookId, user, now);
      var (t2, r2) := BorrowStep(t1, bookId, user, now);
      var (t3, r3) := BorrowStep(t2, bookId, user, now);
      && r1.success && r2.success && !r3.success && r3.message == NotAvailable
      && t2.books[i].copies == 0 && t3 == t2
      && |t2.transactions| == |t.transactions| + 2
      && t2.transactions[|t.transactions|].transactionId == |t.transactions| + 1
      && t2.transactions[|t.transactions| + 1].transactionId == |t.transactions| + 2
  {
    var t1 := BorrowStep(t, bookId, user, now).0;
    BorrowEffect(t, bookId, user, now);
    SameIdsSameLookup(t.books, t1.books, bookId);
    var t2 := BorrowStep(t1, bookId, user, now).0;
    BorrowEffect(t1, bookId, user, now);
    SameIdsSameLookup(t1.books, t2.books, bookId);
  }

  /** On the sample catalog two borrows of book 4 use up its two copies
      and are logged as transactions 1 and 2; a third is refused and
      changes nothing. */
  lemma SampleBorrows(user: UserDetails, now: string)
    ensures var (t1, r1) := BorrowStep(SampleTables, 4, user, now);
      var (t2, r2) := BorrowStep(t1, 4, user, now);
      var (t3, r3) := BorrowStep(t2, 4, user, now);
      && r1.success && r2.success && !r3.success && r3.message == NotAvailable
      && t2.books[3].copies == 0 && t3 == t2
      && |t2.transactions| == 2 && t2.transactions[0].transactionId == 1 && t2.transactions[1].transactionId == 2
  {
    assert FirstMatch(SampleTables.books, 4) == Some(3);
    BorrowTwiceExhausts(SampleTables, 4, 3, user, now);
  }

  /** A book added to the sample catalog gets id 6. */
  lemma SampleAddId(data: NewBook)
    ensures AddStep(SampleTables, data).1 == 6
  {
    var books := SampleTables.books;
    assert forall i :: 0 <= i < |books| ==> books[i].bookId == i + 1;
    var id := NextBookId(books);
    assert books[4].bookId < id;
  }

  // ---------------------------------------------------------------------
  // The two spreadsheets as a mutable object
  // ---------------------------------------------------------------------

  /** The catalog and ledger files, read and rewritten by each operation. */
  class Store {
    var books: seq<Book>
    var transactions: seq<Transaction>

    /** The files as found; a missing file reads as an empty table. */
    constructor (books: seq<Book>, transactions: seq<Transaction>)
      ensures this.books == books && this.transactions == transactions
    {
      this.books := books;
      this.transactions := transactions;
    }

    /** The two tables as values. */
    function Snapshot(): Tables
      reads this
    {
      Tables(books, transactions)
    }

    method BorrowBook(bookId: int, user: UserDetails, now: string) returns (success: bool, message: string)
      modifies this
      ensures (Snapshot(), Reply(success, message)) == BorrowStep(old(Snapshot()), bookId, user, now)
      ensures Valid(old(Snapshot())) ==> Valid(Snapshot())
    {
      ghost var wasValid := Valid(Snapshot());
      if wasValid { BorrowKeepsValid(Snapshot(), bookId, user, now); }
      var found := FirstMatch(books, bookId);
      if found.None? || books[found.value].copies <= 0 {
        return false, NotAvailable;
      }
      books := AdjustCopies(books, bookId, -1);
      var transactionId := |transactions| + 1;
      transactions := transactions
        + [Transaction(transactionId, bookId, user.name, user.college, user.idEmail, user.phone, Borrow, now)];
      return true, Borrowed;
    }

    method ReturnBook(bookId: int, user: UserDetails, now: string) returns (success: bool, message: string)
      modifies this
      ensures (Snapshot(), Reply(success, message)) == ReturnStep(old(Snapshot()), bookId, user, now)
      ensures Valid(old(Snapshot())) ==> Valid(Snapshot())
    {
      ghost var wasValid := Valid(Snapshot());
      if wasValid { ReturnKeepsValid(Snapshot(), bookId, user, now); }
      if FirstMatch(books, bookId).None? {
        return false, NotFound;
      }
      books := AdjustCopies(books, bookId, 1);
      var transactionId := |transactions| + 1;
      transactions := transactions
        + [Transaction(transactionId, bookId, user.name, user.college, user.idEmail, user.phone, Return, now)];
      return true, Returned;
    }

    method AddBook(data: NewBook) returns (bookId: int)
      modifies this
      ensures (Snapshot(), bookId) == AddStep(old(Snapshot()), data)
      ensures Valid(old(Snapshot())) && data.copies >= 0 ==> Valid(Snapshot())
    {
      ghost var wasValid := Valid(Snapshot()) && data.copies >= 0;
      if wasValid { AddKeepsValid(Snapshot(), data); }
      bookId := if |books| == 0 then 1 else MaxBookId(books) + 1;
      books := books + [Book(bookId, data.title, data.author, data.copies, data.description, data.tags)];
    }

    method EditBook(bookId: int, data: seq<Field>) returns (success: bool, message: string)
      modifies this
      ensures (Snapshot(), Reply(success, message)) == EditStep(old(Snapshot()), bookId, data)
      ensures Valid(old(Snapshot())) && (forall k :: 0 <= k < |data| ==> data[k].Copies? ==> data[k].count >= 0)
        ==> Valid(Snapshot())
    {
      ghost var keeps := Valid(Snapshot()) && forall k :: 0 <= k < |data| ==> data[k].Copies? ==> data[k].count >= 0;
      if keeps { EditKeepsValid(Snapshot(), bookId, data); }
      if !HasBook(books, bookId) {
        return false, NotFound;
      }
      var k := 0;
      while k < |data|
        invariant 0 <= k <= |data|
        invariant books == ApplyEdits(old(books), bookId, data[..k])
        invariant transactions == old(transactions)
      {
        assert data[..k + 1][..k] == data[..k];
        books := SetFieldWhere(books, bookId, data[k]);
        k := k + 1;
      }
      assert data[..k] == data;
      return true, Updated;
    }
  }
}
