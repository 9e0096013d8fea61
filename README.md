# library_rag in Dafny

A model of the core of `library_rag`. This is a small library-management app with a
retrieval-augmented chat assistant. It has three parts:

- **The catalog/ledger bookkeeping of `Projects/utils.py`.** The app keeps two tables: books
  (`book_id`, `title`, `author`, `copies`, `description`, `tags`) and an append-only ledger of
  borrow/return transactions.
  - `borrow_book` and `return_book` adjust a book's copies and log one transaction each.
  - `add_book` appends a book under the next id.
  - `edit_book` overwrites the fields it is given.
- **The deterministic half of the `RAG` class in `Projects/rag.py`.**
  - `refresh_index` turns each row into its descriptor string and builds the position↔book-id maps. The transaction index stays empty exactly when the ledger is empty.
  - `retrieve` maps search positions back to rows and assembles the three-section context.
  - `generate_insights` derives the most-borrowed, low-stock and recent-activity findings.
  - `generate` builds the prompt around the context.
- **The front end's own logic in `Projects/app.py`.**
  - The split of a model response into its `<think>` reasoning trace and its answer.
  - The payload the edit form sends.
  - The rule that the index is rebuilt after every successful borrow, return or edit, and after every add.

Layout:

- `Wrappers.dfy`: `Option`.
- `Text.dfy`: the Python string behaviour the code relies on: `find`, `in`, `split`, `join`, `strip()`, `str(int)`, and lexicographic `>=` on ISO-8601 timestamps.
- `Library.dfy`: `utils.py`. It holds:
  - the records;
  - one pure transition function per operation (`BorrowStep`, `ReturnStep`, `AddStep`, `EditStep`);
  - the invariant `Valid`: unique ids, no negative stock, ledger ids numbered 1..n, and every transaction naming a catalog book;
  - the class `Store`, whose methods update the two tables in place and are proved against the transition functions.
- `Insights.dfy`: `generate_insights`.
- `Retrieval.dfy`: descriptors, id maps, hydration, context and prompt, and the class `Rag`, whose `RefreshIndex` reassigns every field of one index generation.
- `App.dfy`: the trace/answer split, the edit payload, and the form handlers that call the store and then the index.

The two Excel files are in-memory tables. The nearest-neighbour searches are positions supplied
by the caller. The `now`-dependent cutoff is a parameter.

## Model

| member | source | states |
|---|---|---|
| Library.Store.constructor | Projects/utils.py:6-19 | the store holds exactly the two tables it is given, as `read_books` and `read_transactions` return them |
| Library.FirstMatch | Projects/utils.py:28-29 | the lookup finds the first row with the id, and finds nothing exactly when no row has it |
| Library.HasBookIff | Projects/utils.py:99 | `book_id in books['book_id'].values` holds iff some row has that id |
| Library.BorrowGuard | Projects/utils.py:28-30 | a borrow fails iff no row has the id or the first such row has copies <= 0; on failure both tables are unchanged and the reply is (False, "Book not available.") |
| Library.BorrowSucceedsIff | Projects/utils.py:28-30 | with unique ids, a borrow succeeds iff the book exists with copies > 0 |
| Library.BorrowEffect | Projects/utils.py:33-48 | a successful borrow lowers copies by exactly 1 on the rows with the id and leaves every other row alone; it appends one transaction at the end with id = old ledger length + 1, the user's four fields, action 'borrow' and the given timestamp; earlier transactions are untouched |
| Library.BorrowKeepsValid | Projects/utils.py:28-48 | borrow keeps the invariant: the guard comes before the decrement, so copies never go negative, and the new transaction is numbered n+1 and names a catalog book |
| Library.BorrowNeedsUniqueIds | Projects/utils.py:28-33 | with two rows sharing an id, the guard reads only the first but the decrement hits both, so a row can reach copies = -1; the invariant's unique ids are what rule this out |
| Library.Store.BorrowBook | Projects/utils.py:24-51 | the tables after the call and the (success, message) pair are those of `BorrowStep` on the tables before; the invariant is kept |
| Library.ReturnEffect | Projects/utils.py:57-77 | a return fails with (False, "Book not found.") and changes nothing iff the id is absent; otherwise it adds 1 to copies on the rows with the id, with no upper bound, changes no other row, and appends one 'return' transaction numbered n+1 |
| Library.ReturnKeepsValid | Projects/utils.py:57-77 | return keeps the invariant |
| Library.Store.ReturnBook | Projects/utils.py:53-80 | the new tables and the reply are those of `ReturnStep`; the invariant is kept |
| Library.MaxBookId | Projects/utils.py:84 | `books['book_id'].max()` is an id of some row and no row has a larger one |
| Library.NextBookId | Projects/utils.py:84 | the new id is larger than every existing id, is 1 on an empty catalog, and otherwise is the largest existing id plus 1 |
| Library.AddEffect | Projects/utils.py:84-95 | the new book is appended last under the returned id, which is fresh (1 on an empty catalog), so a lookup of that id finds the new row; the ledger is unchanged |
| Library.AddKeepsValid | Projects/utils.py:82-95 | adding a book with copies >= 0 keeps the invariant; in particular ids stay unique |
| Library.Store.AddBook | Projects/utils.py:82-95 | the new tables and the returned id are those of `AddStep`; the invariant is kept when copies >= 0 |
| Library.ApplyEditsRows | Projects/utils.py:101-102 | the overwrite loop changes each row with the id to the row with every entry applied in order, and leaves other rows and every id alone |
| Library.EditedRowKeeps | Projects/utils.py:101-102 | a column that no entry of the payload names keeps its value, and the id never changes |
| Library.EditEffect | Projects/utils.py:97-104 | an edit fails with (False, "Book not found.") and changes nothing iff the id is absent; otherwise it rewrites only the rows with that id, only in the named columns, replies "Book updated successfully." and leaves the ledger alone |
| Library.EditKeepsValid | Projects/utils.py:97-104 | an edit whose copies entries are >= 0 keeps the invariant |
| Library.Store.EditBook | Projects/utils.py:97-104 | the loop over the payload ends with the tables and reply of `EditStep`; the invariant is kept when the copies entries are >= 0 |
| Library.RunLedger | Projects/utils.py:37-77 | over any sequence of operations the ledger only grows at its end and its ids stay 1..n |
| Library.TransactionIdsFromEmpty | Projects/utils.py:37-77 | starting from an empty ledger, any run of operations numbers the transaction at position i as i+1 |
| Library.RunKeepsValid | Projects/utils.py:24-104 | any sequence of operations the forms can submit keeps the invariant |
| Library.AddThenEdit | Projects/utils.py:82-104 | adding a book and then editing one field of the returned id succeeds and changes exactly that field of the new row; nothing else in either table changes |
| Library.BorrowTwiceExhausts | Projects/utils.py:28-48 | a book whose first row holds two copies can be borrowed twice, leaving 0 copies and two new transactions numbered n+1 and n+2; a third borrow is refused and changes nothing |
| Library.SampleValid | Projects/create_sample_data.py:6-35 | the sample catalog satisfies the invariant |
| Library.SampleBorrows | Projects/create_sample_data.py:6-35 | on the sample catalog two borrows of book 4 use up its two copies and are logged as transactions 1 and 2; a third is refused and changes nothing |
| Library.SampleAddId | Projects/create_sample_data.py:7 | a book added to the sample catalog gets id 6 |
| Insights.BorrowedIds | Projects/rag.py:86 | the ids listed are exactly the book ids of the 'borrow' rows |
| Insights.BorrowCountPositive | Projects/rag.py:86 | a book with a 'borrow' row has a borrow count of at least 1 |
| Insights.ArgMaxCount | Projects/rag.py:88 | the chosen id is a candidate whose borrow count no other candidate exceeds |
| Insights.TopBorrowed | Projects/rag.py:86-88 | there is a top book iff some row is a 'borrow'; its count is at least 1 and at least the count of every borrowed book |
| Insights.GroundedLedgerHasTopBook | Projects/rag.py:89 | when every transaction names a catalog book, the top book is in the catalog, so the lookup at line 89 finds a row |
| Insights.MostBorrowedFirst | Projects/rag.py:85-90 | with a 'borrow' row, the insights start with "Most borrowed book: '{title}' by {author} (Borrowed {n} times)" for the catalog row of a maximal book, where n is its count over 'borrow' rows only |
| Insights.MostBorrowedAbsentIff | Projects/rag.py:85-90 | the most-borrowed finding is omitted iff no transaction is a 'borrow' |
| Insights.LowStockRows | Projects/rag.py:93 | the rows kept are exactly those with copies <= 1, in catalog order |
| Insights.LowStockTitlesAreRows | Projects/rag.py:93-95 | the low-stock titles are the titles of those rows, in the same order |
| Insights.LowStockAbsentIff | Projects/rag.py:93-96 | the low-stock finding is omitted iff every book has more than one copy |
| Insights.RecentRows | Projects/rag.py:101 | the positions the filter keeps are exactly the ledger positions whose timestamp is >= the cutoff, in ledger order |
| Insights.RecentAreRows | Projects/rag.py:101 | the recent rows are the ledger rows at those positions, each once, in ledger order |
| Insights.RecentCount | Projects/rag.py:103-104 | the count of an action among the recent rows is the number of ledger rows in the window with that action |
| Insights.RecentActivityText | Projects/rag.py:99-105 | when some transaction falls in the window, the finding reads "Last 7 days: {b} books borrowed, {r} books returned", with b and r the numbers of ledger rows in the window that are borrows and returns |
| Insights.WindowWidens | Projects/rag.py:100-101 | an earlier cutoff keeps every row a later one keeps |
| Insights.RecentAbsentIff | Projects/rag.py:99-105 | the recent-activity finding is omitted iff no transaction falls in the window |
| Insights.BorrowsPlusReturns | Projects/rag.py:103-104 | the borrow and return counts of a window add up to its size |
| Insights.PresentThree | Projects/rag.py:82-107 | the findings kept are exactly those that apply, each once, in the fixed order most borrowed, low stock, recent; there is none iff no finding applies |
| Insights.NoInsightsIff | Projects/rag.py:81-107 | the result is exactly "No insights available at this time." iff there is no 'borrow' row, every book has more than one copy, and no transaction falls in the window; otherwise it starts with the first applicable finding |
| Insights.QuietLibrary | Projects/rag.py:81-107 | with no transactions and every book above one copy, the result is the sentinel |
| Text.IntToStringRoundTrip | Projects/rag.py:32 | the digits `str(n)` writes into a descriptor read back as n, followed by the rest of the text |
| Retrieval.BookDescriptorNamesBook | Projects/rag.py:31-34 | every book descriptor starts with "Book ID: {id}," for the row's own id |
| Retrieval.TransactionDescriptorNamesRow | Projects/rag.py:48-51 | every transaction descriptor starts with "Transaction ID: {id}, Book ID: {book_id}," for the row's own ids |
| Retrieval.BookEntries | Projects/rag.py:31-34 | one descriptor per catalog row |
| Retrieval.TransactionEntries | Projects/rag.py:47-51 | one descriptor per transaction |
| Retrieval.BookIdToIndex | Projects/rag.py:43 | every catalog id is a key; each key maps to a row with that id, and to the last such row |
| Retrieval.IdMapsInverse | Projects/rag.py:43-44 | `index_to_book_id` undoes `book_id_to_index`; with unique ids, the two maps are mutual inverses between positions 0..n-1 and the catalog ids |
| Retrieval.BuildIndexesEveryRow | Projects/rag.py:25-57 | a generation has one book entry per row and one transaction entry per transaction. It has none exactly when the ledger is empty. The entry at each position names the book and transaction of that row. |
| Retrieval.Rag.constructor | Projects/rag.py:18-23 | construction leaves a complete generation built from the current tables |
| Retrieval.Rag.RefreshIndex | Projects/rag.py:25-57 | afterwards every field is the generation `Build` makes from the store's current tables |
| Retrieval.HitIds | Projects/rag.py:65 | the ids found are exactly the images of the returned positions in the position→id map; unmapped positions such as -1 contribute nothing, and there are at most as many ids as positions |
| Retrieval.KeptRows | Projects/rag.py:66 | `isin` keeps exactly the rows whose id was found, in catalog order |
| Retrieval.HydrateMembers | Projects/rag.py:66 | a book is retrieved iff it is a catalog row whose id was found, and there are never more retrieved books than catalog rows |
| Retrieval.HydratedAreRows | Projects/rag.py:66 | the retrieved books are the rows `isin` keeps, each once per row, in catalog order |
| Retrieval.HydrateBound | Projects/rag.py:63-66 | with unique ids, no more books come back than distinct ids were found |
| Retrieval.RetrievedBooks | Projects/rag.py:63-66 | each retrieved book is a catalog row, and a row is retrieved iff some returned position in range holds a book with its id; with unique ids there are at most top_k of them |
| Retrieval.HydrateTransactions | Projects/rag.py:72 | `iloc` returns one row per returned position, in search order |
| Retrieval.PaddingRepeatsLastTransaction | Projects/rag.py:71-72 | when the ledger is shorter than top_k, every -1 padding position selects the last transaction; the other positions select their own rows |
| Retrieval.ContextLayout | Projects/rag.py:79 | the context is "Books:\n", the books, "\n\nTransactions:\n", the transactions, "\n\nInsights:\n", the insights, in that order and at those offsets |
| Retrieval.Rag.Retrieve | Projects/rag.py:59-79 | the context retrieve returns starts with the books section header |
| Retrieval.RetrieveSections | Projects/rag.py:59-79 | the books section renders the rows hydrated from the book hits; the transactions section is "No transactions available." exactly when the ledger is empty and otherwise renders the hit rows; the insights section is `generate_insights` on the tables held |
| Retrieval.PromptEmbedsContext | Projects/rag.py:110-123 | the prompt carries the context verbatim right after "Context:\n" |
| Text.Contains | Projects/app.py:122 | `sep in s` holds iff `sep` occurs somewhere in `s` |
| Text.Split | Projects/app.py:122 | the pieces contain no separator and join back with it to the original text; there is one piece iff the separator is absent |
| Text.Before | Projects/app.py:122 | `s.split(sep)[0]` is the text before the first occurrence of `sep`, or all of `s`: no occurrence starts inside it, and it runs to the end or to where `sep` starts |
| App.ThinkPartSpec | Projects/app.py:122 | without "<think>" the trace is "No thinking trace available."; otherwise it is the text after the first "<think>", cut at the next "<think>" and then at the first "</think>" |
| App.Enclosed | Projects/app.py:122 | that cut is a slice of the response right after the opening tag; it holds neither tag and ends at the end of the response or where a tag starts |
| Text.LastPiece | Projects/app.py:123 | `s.split(sep)[-1]`, when `sep` occurs, is the text after an occurrence of `sep` that every later occurrence overlaps, and holds no `sep`; for a separator that cannot overlap itself that occurrence is the last |
| App.AnswerAfterLastClose | Projects/app.py:123 | with "</think>" present, the answer is the whitespace-stripped text after its last occurrence: no "</think>" starts later |
| Text.StripSlice | Projects/app.py:123 | `strip()` keeps one contiguous slice of the text and removes only whitespace around it |
| Text.StripIdempotent | Projects/app.py:123 | stripping twice is stripping once |
| App.UnclosedTrace | Projects/app.py:122-123 | with "<think>" but no "</think>", the trace is everything after the first "<think>" up to the next "<think>" and the answer is the whole response, unstripped |
| App.ResponseRoundTrip | Projects/app.py:122-123 | a response laid out as "<think>" + trace + "</think>" + answer, with no tag in the trace and no "</think>" in the answer, splits back into exactly that trace and the stripped answer |
| App.BuildEditPayload | Projects/app.py:96-101 | the payload holds title, author, description and tags exactly when they are non-empty, and copies exactly when copies >= 0, so always under the form's minimum of 0; keys come in form order, each at most once |
| App.SubmitBorrow | Projects/app.py:31-35 | the tables change as `borrow_book` says; on success the index is rebuilt from the new tables, on failure it is untouched |
| App.SubmitReturn | Projects/app.py:52-56 | the tables change as `return_book` says; on success the index is rebuilt from the new tables, on failure it is untouched |
| App.SubmitAdd | Projects/app.py:81-83 | the book is added as `add_book` says and the index is always rebuilt |
| App.SubmitEdit | Projects/app.py:96-105 | the form's payload is applied as `edit_book` says; the call succeeds iff the id exists; on success the index is rebuilt, on failure it is untouched |

## Left out

- Excel persistence is not modelled. This covers `read_excel`, `to_excel` and the existence checks in `Projects/utils.py:6-22`. The tables are in-memory sequences, and a file that `Projects/utils.py` finds missing is the empty sequence.
- The missing-spreadsheet error of `refresh_index` is not modelled. `Projects/rag.py:27-28` read both files with no existence check, so a missing file raises there, and `RAG()` at `Projects/app.py:10` fails with it. `Rag.constructor` and `Rag.RefreshIndex` instead take the store's in-memory tables, which always exist.
- SentenceTransformer embeddings and the FAISS L2 indexes are not modelled, because they are floating point and foreign code.
  - Each index is represented by the descriptor texts it embeds, and its size is their number.
  - A search is the sequence of positions the caller supplies. `SearchResult` states FAISS's contract on them: k positions, in range, distinct, and -1 as padding.
  - Ordering by distance is not modelled.
- The Groq completion call is left out. It is a remote service. The prompt is modelled, and the response is an input to the trace/answer split.
- pandas `to_string` rendering is left out. The two renderers are parameters of `Retrieve`.
- Wall-clock reads are parameters. This covers `datetime.now().isoformat()` in `borrow_book` and `return_book`, and the cutoff `(now - 7 days).isoformat()` in `generate_insights`. Timestamps are strings compared lexicographically, as pandas compares them, so date arithmetic is not modelled.
- The Streamlit UI is left out: tabs, widgets, dataframe display, `tail(200)`, the CSV download and the broad exception handler around the chat.
- Integers are unbounded. Overflow of pandas' int64 columns is not modelled.
- pandas dtype effects are not modelled. An example is integer columns becoming floats after a `concat` onto an empty frame, which would change how ids print in descriptors.
- `edit_book` accepts any column name. The model's payload covers the five columns the edit form can send. A `book_id` key, which the form never sends, is not modelled.
- Insights.TopBorrowed: weaker than the source. It states only that the chosen book's count is maximal. `value_counts()` leaves the order among equal counts to pandas, so the model picks the earliest in ledger order and promises nothing about ties.
- Insights.GenerateInsights and Retrieval.Rag.Retrieve require that the most-borrowed book is in the catalog. Otherwise the row lookup at `Projects/rag.py:89` raises. `GroundedLedgerHasTopBook` shows that the store's invariant meets this demand.
- Retrieval.Rag.Retrieve: its own contract states only the opening header. The full content of each section is stated by `RetrieveSections`.
- Several behaviours in the documented design are absent from the code. The model follows the code, so none of them is modelled:
  - smallest-id tie-breaking for the most-borrowed book;
  - "available with N copies" and "out of stock" annotations;
  - skipping transactions that name missing books;
  - keeping the previous index generation when a table cannot be read;
  - returning books in distance order. The code's `isin` filter returns them in catalog order.
