/** The deterministic half of the `RAG` class of `Projects/rag.py`: the
    descriptor strings every row is embedded from, the position/id maps of
    one index generation, the hydration of search results back into rows,
    and the context text handed to the language model.

    Embeddings and the FAISS search are not modelled: a search result is
    the sequence of positions the index returns, supplied by the caller, and
    `SearchResult` states what `IndexFlatL2.search` promises about it. The
    pandas table rendering `to_string(index=False)` is a parameter. */
module Retrieval {
  import opened Wrappers
  import opened Text
  import opened Library
  import Insights

  const NoTransactions := "No transactions available."

  // ---------------------------------------------------------------------
  // Descriptors: the text each row is embedded from
  // ---------------------------------------------------------------------

  function BookDescriptor(b: Book): string {
    "Book ID: " + IntToString(b.bookId) + BookDetails(b)
  }

  /** The part of a book descriptor after the id. */
  function BookDetails(b: Book): (s: string)
    ensures |s| > 0 && s[0] == ','
  {
    ", Title: " + b.title + ", Author: " + b.author + ", Description: " + b.description
    + ", Tags: " + b.tags + ", Copies Available: " + IntToString(b.copies)
  }

  function TransactionDescriptor(t: Transaction): string {
    "Transaction ID: " + (IntToString(t.transactionId) + (", Book ID: " + (IntToString(t.bookId)
    + TransactionDetails(t))))
  }

  /** The part of a transaction descriptor after the book id. */
  function TransactionDetails(t: Transaction): (s: string)
    ensures |s| > 0 && s[0] == ','
  {
    ", Action: " + ActionName(t.action) + ", User: " + t.userName + ", College: " + t.userCollege
    + ", ID/Email: " + t.userIdEmail + ", Phone: " + t.userPhone + ", Timestamp: " + t.timestamp
  }

  /** Reads the id back from the front of a book descriptor. */
  function DescribedBookId(text: string): Option<int> {
    if |text| < 9 || text[..9] != "Book ID: " then None
    else
      match LeadingInt(text[9..])
      case None => None
      case Some((id, rest)) => if |rest| > 0 && rest[0] == ',' then Some(id) else None
  }

  /** Reads the transaction id and the book id back from the front of a
      transaction descriptor. */
  function DescribedTransactionIds(text: string): Option<(int, int)> {
    if |text| < 16 || text[..16] != "Transaction ID: " then None
    else
      match LeadingInt(text[16..])
      case None => None
      case Some((tid, rest)) =>
        if |rest| < 11 || rest[..11] != ", Book ID: " then None
        else
          match LeadingInt(rest[11..])
          case None => None
          case Some((bid, after)) => if |after| > 0 && after[0] == ',' then Some((tid, bid)) else None
  }

  /** A book descriptor names its book: the id it starts with is the row's. */
  lemma BookDescriptorNamesBook(b: Book)
    ensures DescribedBookId(BookDescriptor(b)) == Some(b.bookId)
  {
    var digits, tail := IntToString(b.bookId), BookDetails(b);
    var text := BookDescriptor(b);
    assert text == "Book ID: " + (digits + tail);
    IntToStringRoundTrip(b.bookId, tail);
  }

  /** Reading the two ids back needs only how each digit run reads. */
  lemma TwoIdsRead(tid: string, bid: string, tail: string, a: int, b: int)
    requires |tail| > 0 && tail[0] == ','
    requires LeadingInt(bid + tail) == Some((b, tail))
    requires LeadingInt(tid + (", Book ID: " + (bid + tail))) == Some((a, ", Book ID: " + (bid + tail)))
    ensures DescribedTransactionIds("Transaction ID: " + (tid + (", Book ID: " + (bid + tail)))) == Some((a, b))
  {
    var mid := ", Book ID: " + (bid + tail);
    ThreeParts("Transaction ID: ", tid + mid, "");
    ThreeParts(", Book ID: ", bid + tail, "");
    assert ("Transaction ID: " + (tid + mid))[16..] == tid + mid;
  }

  /** A transaction descriptor names its transaction and its book. */
  lemma TransactionDescriptorNamesRow(t: Transaction)
    ensures DescribedTransactionIds(TransactionDescriptor(t)) == Some((t.transactionId, t.bookId))
  {
    var tid, bid, tail := IntToString(t.transactionId), IntToString(t.bookId), TransactionDetails(t);
    IntToStringRoundTrip(t.bookId, tail);
    IntToStringRoundTrip(t.transactionId, ", Book ID: " + (bid + tail));
    TwoIdsRead(tid, bid, tail, t.transactionId, t.bookId);
  }

  /** `books_df.apply(lambda row: ..., axis=1)`: one descriptor per row. */
  function BookEntries(books: seq<Book>): (texts: seq<string>)
    ensures |texts| == |books|
  {
    seq(|books|, i requires 0 <= i < |books| => BookDescriptor(books[i]))
  }

  function TransactionEntries(ledger: seq<Transaction>): (texts: seq<string>)
    ensures |texts| == |ledger|
  {
    seq(|ledger|, i requires 0 <= i < |ledger| => TransactionDescriptor(ledger[i]))
  }

  // ---------------------------------------------------------------------
  // Position <-> id maps
  // ---------------------------------------------------------------------

  /** `{idx: row['book_id'] for idx, row in books_df.iterrows()}`; the frame
      read from the file has the positions 0..n-1 as its index. */
  function IndexToBookId(books: seq<Book>): map<int, int> {
    map i | 0 <= i < |books| :: books[i].bookId
  }

  /** `{row['book_id']: idx for idx, row in books_df.iterrows()}`: a later
      row with the same id overwrites an earlier one. */
  function BookIdToIndex(books: seq<Book>): (m: map<int, int>)
    ensures forall id :: id in m ==> 0 <= m[id] < |books| && books[m[id]].bookId == id
    ensures forall i :: 0 <= i < |books| ==> books[i].bookId in m && i <= m[books[i].bookId]
    decreases |books|
  {
    if |books| == 0 then map[]
    else
      var n := |books| - 1;
      var m := BookIdToIndex(books[..n]);
      assert forall i :: 0 <= i < n ==> books[..n][i] == books[i];
      m[books[n].bookId := n]
  }

  /** With unique ids the two maps are inverse bijections between the
      positions 0..n-1 and the catalog's ids; without, the id-to-position
      map still lands on a row with that id. */
  lemma IdMapsInverse(books: seq<Book>)
    ensures forall id :: id in BookIdToIndex(books) ==>
      BookIdToIndex(books)[id] in IndexToBookId(books)
      && IndexToBookId(books)[BookIdToIndex(books)[id]] == id
    ensures UniqueIds(books) ==> forall i :: 0 <= i < |books| ==>
      IndexToBookId(books)[i] in BookIdToIndex(books)
      && BookIdToIndex(books)[IndexToBookId(books)[i]] == i
  {
    var back := BookIdToIndex(books);
    if UniqueIds(books) {
      forall i | 0 <= i < |books|
        ensures books[i].bookId in back && back[books[i].bookId] == i
      {
        var j := back[books[i].bookId];
        assert books[j].bookId == books[i].bookId;
      }
    }
  }

  // ---------------------------------------------------------------------
  // Search results and hydration
  // ---------------------------------------------------------------------

  /** What `IndexFlatL2.search(q, k)` returns for an index holding `size`
      vectors: k positions, the first min(k, size) of them distinct real
      positions, the rest the padding value -1. */
  ghost predicate SearchResult(hits: seq<int>, size: nat, k: nat) {
    && |hits| == k
    && (forall i :: 0 <= i < k && i < size ==> 0 <= hits[i] < size)
    && (forall i :: size <= i < k ==> hits[i] == -1)
    && (forall i, j :: 0 <= i < j < k && j < size ==> hits[i] != hits[j])
  }

  /** The ids `index_to_book_id.get(idx, None)` finds for the positions;
      positions with no entry, such as -1, contribute nothing. */
  function HitIds(m: map<int, int>, hits: seq<int>): (ids: set<int>)
    ensures |ids| <= |hits|
    ensures forall id :: id in ids <==> exists k :: 0 <= k < |hits| && hits[k] in m && m[hits[k]] == id
    decreases |hits|
  {
    if |hits| == 0 then {}
    else
      var n := |hits| - 1;
      var ids := HitIds(m, hits[..n]);
      assert forall k :: 0 <= k < n ==> hits[..n][k] == hits[k];
      if hits[n] in m then ids + {m[hits[n]]} else ids
  }

  /** The positions `books_df['book_id'].isin(ids)` selects, in catalog order. */
  function KeptRows(books: seq<Book>, ids: set<int>): (rows: seq<nat>)
    ensures forall k :: 0 <= k < |rows| ==> rows[k] < |books| && books[rows[k]].bookId in ids
    ensures forall k, l :: 0 <= k < l < |rows| ==> rows[k] < rows[l]
    ensures forall i :: 0 <= i < |books| && books[i].bookId in ids ==> i in rows
    decreases |books|
  {
    if |books| == 0 then []
    else
      var n := |books| - 1;
      var rows := KeptRows(books[..n], ids);
      if books[n].bookId in ids then rows + [n] else rows
  }

  /** `books_df[books_df['book_id'].isin(ids)]`: the catalog rows whose id
      was found, in catalog order rather than in order of distance. */
  function HydrateBooks(books: seq<Book>, ids: set<int>): seq<Book>
    decreases |books|
  {
    if |books| == 0 then []
    else
      var n := |books| - 1;
      HydrateBooks(books[..n], ids) + (if books[n].bookId in ids then [books[n]] else [])
  }

  /** The hydrated books are the rows `isin` selects, each once per row, in
      catalog order. */
  lemma {:induction false} HydratedAreRows(books: seq<Book>, ids: set<int>)
    ensures |HydrateBooks(books, ids)| == |KeptRows(books, ids)|
    ensures forall k :: 0 <= k < |KeptRows(books, ids)| ==>
      HydrateBooks(books, ids)[k] == books[KeptRows(books, ids)[k]]
    decreases |books|
  {
    if |books| > 0 {
      var n := |books| - 1;
      HydratedAreRows(books[..n], ids);
      var rows := KeptRows(books[..n], ids);
      assert forall k :: 0 <= k < |rows| ==> books[..n][rows[k]] == books[rows[k]];
      Insights.RowsStep(books, rows, HydrateBooks(books[..n], ids), books[n].bookId in ids,
                        KeptRows(books, ids), HydrateBooks(books, ids));
    }
  }

  lemma {:induction false} HydrateLength(books: seq<Book>, ids: set<int>)
    ensures |HydrateBooks(books, ids)| <= |books|
    decreases |books|
  {
    if |books| > 0 {
      HydrateLength(books[..|books| - 1], ids);
    }
  }

  /** A book is retrieved exactly when it is a catalog row whose id was
      found, and there are never more retrieved books than catalog rows. */
  lemma HydrateMembers(books: seq<Book>, ids: set<int>)
    ensures |HydrateBooks(books, ids)| <= |books|
    ensures forall b :: b in HydrateBooks(books, ids) <==> b in books && b.bookId in ids
  {
    HydrateLength(books, ids);
    HydratedAreRows(books, ids);
    var r, rows := HydrateBooks(books, ids), KeptRows(books, ids);
    forall b | b in books && b.bookId in ids ensures b in r {
      var i :| 0 <= i < |books| && books[i] == b;
      var k :| 0 <= k < |rows| && rows[k] == i;
      assert r[k] == b;
    }
  }

  /** `transactions_df.iloc[hits]`: each position read as a Python index,
      so a negative one counts from the end, in the order of the hits. */
  function HydrateTransactions(ledger: seq<Transaction>, hits: seq<int>): (r: seq<Transaction>)
    requires forall k :: 0 <= k < |hits| ==> -|ledger| <= hits[k] < |ledger|
    ensures |r| == |hits|
  {
    seq(|hits|, k requires 0 <= k < |hits| =>
      ledger[if hits[k] < 0 then |ledger| + hits[k] else hits[k]])
  }

  lemma {:induction false} DistinctCard(s: seq<int>)
    requires forall i, j :: 0 <= i < j < |s| ==> s[i] != s[j]
    ensures |set x | x in s| == |s|
    decreases |s|
  {
    if |s| > 0 {
      var n := |s| - 1;
      DistinctCard(s[..n]);
      assert (set x | x in s) == (set x | x in s[..n]) + {s[n]};
      assert s[n] !in (set x | x in s[..n]);
    }
  }

  /** With unique ids, hydration returns no more rows than there are ids. */
  lemma HydrateBound(books: seq<Book>, ids: set<int>)
    requires UniqueIds(books)
    ensures |HydrateBooks(books, ids)| <= |ids|
  {
    HydratedAreRows(books, ids);
    var rows := KeptRows(books, ids);
    var found := seq(|rows|, k requires 0 <= k < |rows| => books[rows[k]].bookId);
    DistinctCard(found);
    assert (set x | x in found) <= ids;
    SubsetCard((set x | x in found), ids);
  }

  lemma SubsetCard(a: set<int>, b: set<int>)
    requires a <= b
    ensures |a| <= |b|
  {
    assert b == a + (b - a);
  }

  /** The books `retrieve` puts in its context: exactly the catalog rows
      whose id some returned position maps to, at most one per position
      when ids are unique, in catalog order. */
  lemma RetrievedBooks(books: seq<Book>, hits: seq<int>)
    ensures var r := HydrateBooks(books, HitIds(IndexToBookId(books), hits));
      && (forall k :: 0 <= k < |r| ==> r[k] in books)
      && (forall b :: b in r <==>
            b in books && exists k :: 0 <= k < |hits| && 0 <= hits[k] < |books| && books[hits[k]].bookId == b.bookId)
      && (UniqueIds(books) ==> |r| <= |hits|)
  {
    var ids := HitIds(IndexToBookId(books), hits);
    HydrateMembers(books, ids);
    if UniqueIds(books) {
      HydrateBound(books, ids);
    }
  }

  /** When the index holds fewer rows than were asked for, FAISS pads with
      -1, which `iloc` reads as the last row: the padding repeats the last
      transaction instead of being dropped. */
  lemma PaddingRepeatsLastTransaction(ledger: seq<Transaction>, hits: seq<int>, k: nat)
    requires |ledger| > 0 && SearchResult(hits, |ledger|, k)
    ensures forall i :: 0 <= i < |hits| ==> -|ledger| <= hits[i] < |ledger|
    ensures forall i :: |ledger| <= i < k ==> HydrateTransactions(ledger, hits)[i] == ledger[|ledger| - 1]
    ensures forall i :: 0 <= i < k && i < |ledger| ==> HydrateTransactions(ledger, hits)[i] == ledger[hits[i]]
  {
  }

  // ---------------------------------------------------------------------
  // Context and prompt
  // ---------------------------------------------------------------------

  /** The three labelled sections, separated by blank lines. */
  function Context(books: string, transactions: string, insights: string): string {
    "Books:\n" + books + "\n\nTransactions:\n" + transactions + "\n\nInsights:\n" + insights
  }

  /** Where each section sits in the context. */
  lemma ContextLayout(books: string, transactions: string, insights: string)
    ensures var c := Context(books, transactions, insights);
      var t := 7 + |books| + 16;
      var i := t + |transactions| + 12;
      && |c| == i + |insights|
      && c[..7] == "Books:\n" && c[7..7 + |books|] == books
      && c[7 + |books|..t] == "\n\nTransactions:\n" && c[t..t + |transactions|] == transactions
      && c[t + |transactions|..i] == "\n\nInsights:\n" && c[i..] == insights
  {
  }

  /** The user prompt of `generate`: the context verbatim, the query, and
      the fixed instructions. */
  function Prompt(query: string, context: string): string {
    "Context:\n" + context + PromptTail(query)
  }

  /** The prompt after the context: the query and the instruction block. */
  function PromptTail(query: string): string {
    "\n\nQuery: " + query + "\n\nInstructions:\n" + Join(Instructions, "\n") + "\n"
  }

  /** The instruction lines of the prompt, one bullet each. */
  const Instructions: seq<string> := [
    "- You are a library assistant. Answer the query concisely and accurately based only on the provided context.",
    "- If the query asks about a specific book ID, use the 'Book ID' field in the context to identify the correct book.",
    "- For general queries (e.g., 'available books'), list relevant books with their titles, authors, and available copies.",
    "- For transaction queries, summarize relevant transaction details (e.g., who borrowed, when).",
    "- Use insights to provide additional value, such as trends or recommendations.",
    "- Format the response clearly with bullet points or paragraphs for readability.",
    "- If no relevant information is found, say so politely."
  ]

  /** The context reaches the model unchanged, right after the header. */
  lemma PromptEmbedsContext(query: string, context: string)
    ensures |Prompt(query, context)| >= 9 + |context|
    ensures Prompt(query, context)[..9] == "Context:\n"
    ensures Prompt(query, context)[9..9 + |context|] == context
  {
    Framed("Context:\n", context, PromptTail(query));
  }

  /** Slicing a three-part concatenation gives back its parts. */
  lemma Framed(head: string, mid: string, tail: string)
    ensures |head + mid + tail| >= |head| + |mid|
    ensures (head + mid + tail)[..|head|] == head
    ensures (head + mid + tail)[|head|..|head| + |mid|] == mid
  {
  }

  // ---------------------------------------------------------------------
  // One index generation
  // ---------------------------------------------------------------------

  datatype Generation = Generation(
    books: seq<Book>, transactions: seq<Transaction>,
    bookEntries: seq<string>, transactionEntries: seq<string>,
    bookIdToIndex: map<int, int>, indexToBookId: map<int, int>)

  /** What `refresh_index` builds from the two tables. */
  function Build(books: seq<Book>, ledger: seq<Transaction>): Generation {
    Generation(books, ledger, BookEntries(books),
               if |ledger| > 0 then TransactionEntries(ledger) else [],
               BookIdToIndex(books), IndexToBookId(books))
  }

  /** A generation indexes every row once, in table order; the
      transaction index is empty exactly when the ledger is; and the entry
      at each position describes the book the position maps to. */
  lemma BuildIndexesEveryRow(books: seq<Book>, ledger: seq<Transaction>)
    ensures var g := Build(books, ledger);
      && |g.bookEntries| == |books|
      && |g.transactionEntries| == |ledger|
      && (|g.transactionEntries| == 0 <==> |ledger| == 0)
      && (forall i :: 0 <= i < |books| ==>
            i in g.indexToBookId && DescribedBookId(g.bookEntries[i]) == Some(g.indexToBookId[i]))
      && (forall i :: 0 <= i < |ledger| ==>
            DescribedTransactionIds(g.transactionEntries[i]) == Some((ledger[i].transactionId, ledger[i].bookId)))
  {
    forall i | 0 <= i < |books| ensures DescribedBookId(BookEntries(books)[i]) == Some(books[i].bookId) {
      BookDescriptorNamesBook(books[i]);
    }
    forall i | 0 <= i < |ledger|
      ensures DescribedTransactionIds(TransactionEntries(ledger)[i]) == Some((ledger[i].transactionId, ledger[i].bookId))
    {
      TransactionDescriptorNamesRow(ledger[i]);
    }
  }

  /** The `RAG` object: the tables it last read and the index generation
      built from them. The vectors of each index are represented by the
      descriptor texts they embed; `ntotal` is the number of texts. */
  class Rag {
    var booksDf: seq<Book>
    var transactionsDf: seq<Transaction>
    var booksIndex: seq<string>
    var transactionsIndex: seq<string>
    var bookIdToIndex: map<int, int>
    var indexToBookId: map<int, int>

    function Current(): Generation
      reads this
    {
      Generation(booksDf, transactionsDf, booksIndex, transactionsIndex, bookIdToIndex, indexToBookId)
    }

    /** The fields form one complete generation built from the tables held. */
    ghost predicate Valid()
      reads this
    {
      Current() == Build(booksDf, transactionsDf)
    }

    constructor (store: Store)
      ensures Valid()
      ensures Current() == Build(store.books, store.transactions)
    {
      booksDf := store.books;
      transactionsDf := store.transactions;
      booksIndex := BookEntries(store.books);
      bookIdToIndex := BookIdToIndex(store.books);
      indexToBookId := IndexToBookId(store.books);
      transactionsIndex := if |store.transactions| > 0 then TransactionEntries(store.transactions) else [];
    }

    /** `refresh_index`: re-read both tables and replace every part of the
        generation. */
    method RefreshIndex(store: Store)
      modifies this
      ensures Valid()
      ensures Current() == Build(store.books, store.transactions)
    {
      var books, ledger := store.books, store.transactions;
      booksDf := books;
      transactionsDf := ledger;
      booksIndex := BookEntries(books);
      bookIdToIndex := BookIdToIndex(books);
      indexToBookId := IndexToBookId(books);
      transactionsIndex := if |ledger| > 0 then TransactionEntries(ledger) else [];
      assert Current() == Build(books, ledger);
    }

    /** `generate_insights` on the tables held, with the cutoff supplied. */
    function GenerateInsights(weekAgo: string): string
      reads this
      requires Insights.TopBorrowedInCatalog(booksDf, transactionsDf)
    {
      Insights.GenerateInsights(booksDf, transactionsDf, weekAgo)
    }

    /** `retrieve(query, top_k)`, given the positions the two searches
        returned for the query's embedding. */
    function Retrieve(bookHits: seq<int>, transactionHits: seq<int>, weekAgo: string,
                      renderBooks: seq<Book> -> string, renderTransactions: seq<Transaction> -> string)
      : (context: string)
      reads this
      requires Valid()
      requires |transactionsIndex| > 0 ==>
        forall k :: 0 <= k < |transactionHits| ==> -|transactionsDf| <= transactionHits[k] < |transactionsDf|
      requires Insights.TopBorrowedInCatalog(booksDf, transactionsDf)
      ensures |context| >= 7 && context[..7] == "Books:\n"
    {
      var books := HydrateBooks(booksDf, HitIds(indexToBookId, bookHits));
      var transactions :=
        if |transactionsIndex| > 0 then renderTransactions(HydrateTransactions(transactionsDf, transactionHits))
        else NoTransactions;
      ContextLayout(renderBooks(books), transactions, GenerateInsights(weekAgo));
      Context(renderBooks(books), transactions, GenerateInsights(weekAgo))
    }
  }

  /** What `retrieve` returns: the books section renders the rows the hits
      map to, the transactions section is the sentinel exactly when the
      ledger is empty and otherwise renders the hit rows in hit order, and
      the insights section is the insights of the tables held. */
  lemma RetrieveSections(rag: Rag, bookHits: seq<int>, transactionHits: seq<int>, weekAgo: string,
                         renderBooks: seq<Book> -> string, renderTransactions: seq<Transaction> -> string)
    requires rag.Valid()
    requires |rag.transactionsDf| > 0 ==>
      forall k :: 0 <= k < |transactionHits| ==> -|rag.transactionsDf| <= transactionHits[k] < |rag.transactionsDf|
    requires Insights.TopBorrowedInCatalog(rag.booksDf, rag.transactionsDf)
    ensures |rag.transactionsIndex| == |rag.transactionsDf|
    ensures var books := HydrateBooks(rag.booksDf, HitIds(IndexToBookId(rag.booksDf), bookHits));
      rag.Retrieve(bookHits, transactionHits, weekAgo, renderBooks, renderTransactions)
      == Context(renderBooks(books),
                 if |rag.transactionsDf| == 0 then NoTransactions
                 else renderTransactions(HydrateTransactions(rag.transactionsDf, transactionHits)),
                 Insights.GenerateInsights(rag.booksDf, rag.transactionsDf, weekAgo))
  {
  }
}
