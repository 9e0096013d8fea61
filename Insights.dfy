/** `RAG.generate_insights` of `Projects/rag.py`: three findings computed
    from the catalog and the ledger, each present only when its condition
    holds, joined by newlines in a fixed order.

    The cutoff `(datetime.now() - timedelta(days=7)).isoformat()` is given
    as the string `weekAgo`; timestamps are compared as strings, as pandas
    compares the ISO-8601 text of the `timestamp` column. */
module Insights {
  import opened Wrappers
  import opened Text
  import opened Library

  const NoInsights := "No insights available at this time."

  // ---------------------------------------------------------------------
  // Most borrowed
  // ---------------------------------------------------------------------

  /** How many 'borrow' rows name the book: its entry in
      `transactions_df[transactions_df['action'] == 'borrow']['book_id'].value_counts()`. */
  function BorrowCount(ledger: seq<Transaction>, bookId: int): nat
    decreases |ledger|
  {
    if |ledger| == 0 then 0
    else
      var last := ledger[|ledger| - 1];
      BorrowCount(ledger[..|ledger| - 1], bookId) + (if last.action == Borrow && last.bookId == bookId then 1 else 0)
  }

  /** The book ids of the 'borrow' rows, in ledger order. */
  function BorrowedIds(ledger: seq<Transaction>): (ids: seq<int>)
    ensures forall i :: 0 <= i < |ledger| && ledger[i].action == Borrow ==> ledger[i].bookId in ids
    ensures forall id :: id in ids ==> exists i :: 0 <= i < |ledger| && ledger[i].action == Borrow && ledger[i].bookId == id
    decreases |ledger|
  {
    if |ledger| == 0 then []
    else
      var last := ledger[|ledger| - 1];
      var ids := BorrowedIds(ledger[..|ledger| - 1]);
      assert forall i :: 0 <= i < |ledger| - 1 ==> ledger[..|ledger| - 1][i] == ledger[i];
      if last.action == Borrow then ids + [last.bookId] else ids
  }

  /** A book borrowed once has a positive count. */
  lemma {:induction false} BorrowCountPositive(ledger: seq<Transaction>, i: nat)
    requires i < |ledger| && ledger[i].action == Borrow
    ensures BorrowCount(ledger, ledger[i].bookId) >= 1
    decreases |ledger|
  {
    if i < |ledger| - 1 {
      BorrowCountPositive(ledger[..|ledger| - 1], i);
    }
  }

  /** The candidate with the highest count; the earliest of equals. */
  function ArgMaxCount(ledger: seq<Transaction>, candidates: seq<int>): (id: int)
    requires |candidates| > 0
    ensures id in candidates
    ensures forall c :: c in candidates ==> BorrowCount(ledger, c) <= BorrowCount(ledger, id)
    decreases |candidates|
  {
    if |candidates| == 1 then candidates[0]
    else
      var best := ArgMaxCount(ledger, candidates[1..]);
      assert forall c :: c in candidates ==> c == candidates[0] || c in candidates[1..];
      if BorrowCount(ledger, candidates[0]) >= BorrowCount(ledger, best) then candidates[0] else best
  }

  /** `borrow_counts.index[0]`, when there is any 'borrow' row. The source
      takes the first entry of `value_counts()`, which orders by count but
      leaves the order among equal counts to pandas; this model takes the
      earliest in ledger order, and only maximality is promised. */
  function TopBorrowed(ledger: seq<Transaction>): (r: Option<int>)
    ensures r.None? <==> forall i :: 0 <= i < |ledger| ==> ledger[i].action != Borrow
    ensures r.Some? ==> BorrowCount(ledger, r.value) >= 1
    ensures r.Some? ==> forall i :: 0 <= i < |ledger| && ledger[i].action == Borrow ==>
      BorrowCount(ledger, ledger[i].bookId) <= BorrowCount(ledger, r.value)
  {
    var ids := BorrowedIds(ledger);
    if |ids| == 0 then None
    else
      var id := ArgMaxCount(ledger, ids);
      var i :| 0 <= i < |ledger| && ledger[i].action == Borrow && ledger[i].bookId == id;
      BorrowCountPositive(ledger, i);
      Some(id)
  }

  /** The source's lookup `books_df[books_df['book_id'] == top_book_id].iloc[0]`
      raises when the top book is not in the catalog; callers must avoid it. */
  ghost predicate TopBorrowedInCatalog(books: seq<Book>, ledger: seq<Transaction>) {
    TopBorrowed(ledger).Some? ==> HasBook(books, TopBorrowed(ledger).value)
  }

  /** A ledger that refers only to catalog books meets that demand. */
  lemma GroundedLedgerHasTopBook(t: Tables)
    requires LedgerReferencesCatalog(t)
    ensures TopBorrowedInCatalog(t.books, t.transactions)
  {
    var top := TopBorrowed(t.transactions);
    if top.Some? {
      var i :| 0 <= i < |t.transactions| && t.transactions[i].action == Borrow && t.transactions[i].bookId == top.value;
    }
  }

  function MostBorrowedInsight(books: seq<Book>, ledger: seq<Transaction>): Option<string>
    requires TopBorrowedInCatalog(books, ledger)
  {
    if |ledger| == 0 then None
    else
      match TopBorrowed(ledger)
      case None => None
      case Some(id) =>
        var book := books[FirstMatch(books, id).value];
        Some("Most borrowed book: '" + book.title + "' by " + book.author
             + " (Borrowed " + IntToString(BorrowCount(ledger, id)) + " times)")
  }

  // ---------------------------------------------------------------------
  // Low stock
  // ---------------------------------------------------------------------

  /** A row filter taken one row further: when the rows kept from the
      first `n` entries are `rows` and `r` holds those entries, keeping
      entry `n` or not extends both alike. */
  lemma RowsStep<T>(xs: seq<T>, rows: seq<nat>, r: seq<T>, keep: bool, rows': seq<nat>, r': seq<T>)
    requires |xs| > 0 && |r| == |rows|
    requires forall k :: 0 <= k < |rows| ==> rows[k] < |xs| - 1 && r[k] == xs[rows[k]]
    requires rows' == if keep then rows + [|xs| - 1] else rows
    requires r' == if keep then r + [xs[|xs| - 1]] else r
    ensures |r'| == |rows'| && forall k :: 0 <= k < |rows'| ==> r'[k] == xs[rows'[k]]
  {
  }

  /** `books_df[books_df['copies'] <= 1]['title'].tolist()`. */
  function LowStockTitles(books: seq<Book>): seq<string>
    decreases |books|
  {
    if |books| == 0 then []
    else
      var last := books[|books| - 1];
      LowStockTitles(books[..|books| - 1]) + (if last.copies <= 1 then [last.title] else [])
  }

  /** The positions of the low-stock rows, in catalog order. */
  function LowStockRows(books: seq<Book>): (rows: seq<nat>)
    ensures forall k :: 0 <= k < |rows| ==> rows[k] < |books| && books[rows[k]].copies <= 1
    ensures forall k, l :: 0 <= k < l < |rows| ==> rows[k] < rows[l]
    ensures forall i :: 0 <= i < |books| && books[i].copies <= 1 ==> i in rows
    decreases |books|
  {
    if |books| == 0 then []
    else
      var n := |books| - 1;
      var rows := LowStockRows(books[..n]);
      if books[n].copies <= 1 then rows + [n] else rows
  }

  /** The low-stock titles are exactly the titles of the rows with at most
      one copy, each once per row, in catalog order. */
  lemma {:induction false} LowStockTitlesAreRows(books: seq<Book>)
    ensures |LowStockTitles(books)| == |LowStockRows(books)|
    ensures forall k :: 0 <= k < |LowStockRows(books)| ==>
      LowStockTitles(books)[k] == books[LowStockRows(books)[k]].title
    decreases |books|
  {
    if |books| > 0 {
      var n := |books| - 1;
      LowStockTitlesAreRows(books[..n]);
    }
  }

  function LowStockInsight(books: seq<Book>): Option<string> {
    var titles := LowStockTitles(books);
    if |titles| == 0 then None
    else Some("Books with low stock (<= 1 copy): " + Join(titles, ", "))
  }

  /** The low-stock finding is absent exactly when every book has more
      than one copy. */
  lemma LowStockAbsentIff(books: seq<Book>)
    ensures LowStockInsight(books).None? <==> forall i :: 0 <= i < |books| ==> books[i].copies > 1
  {
    LowStockTitlesAreRows(books);
    var rows := LowStockRows(books);
    if |rows| > 0 {
      assert books[rows[0]].copies <= 1;
    }
  }

  // ---------------------------------------------------------------------
  // Recent activity
  // ---------------------------------------------------------------------

  /** `timestamp >= one_week_ago` on ISO-8601 strings. */
  predicate InWindow(t: Transaction, weekAgo: string) {
    !LexLess(t.timestamp, weekAgo)
  }

  /** `transactions_df[transactions_df['timestamp'] >= one_week_ago]`. */
  function Recent(ledger: seq<Transaction>, weekAgo: string): seq<Transaction>
    decreases |ledger|
  {
    if |ledger| == 0 then []
    else
      var n := |ledger| - 1;
      var r := Recent(ledger[..n], weekAgo);
      if InWindow(ledger[n], weekAgo) then r + [ledger[n]] else r
  }

  /** The positions of the rows in the window, in ledger order. */
  function RecentRows(ledger: seq<Transaction>, weekAgo: string): (rows: seq<nat>)
    ensures forall k :: 0 <= k < |rows| ==> rows[k] < |ledger| && InWindow(ledger[rows[k]], weekAgo)
    ensures forall k, l :: 0 <= k < l < |rows| ==> rows[k] < rows[l]
    ensures forall i :: 0 <= i < |ledger| && InWindow(ledger[i], weekAgo) ==> i in rows
    decreases |ledger|
  {
    if |ledger| == 0 then []
    else
      var n := |ledger| - 1;
      var rows := RecentRows(ledger[..n], weekAgo);
      if InWindow(ledger[n], weekAgo) then rows + [n] else rows
  }

  /** The recent rows are exactly the ledger rows in the window, each once
      per row, in ledger order. */
  lemma {:induction false} RecentAreRows(ledger: seq<Transaction>, weekAgo: string)
    ensures |Recent(ledger, weekAgo)| == |RecentRows(ledger, weekAgo)|
    ensures forall k :: 0 <= k < |RecentRows(ledger, weekAgo)| ==>
      Recent(ledger, weekAgo)[k] == ledger[RecentRows(ledger, weekAgo)[k]]
    decreases |ledger|
  {
    if |ledger| > 0 {
      var n := |ledger| - 1;
      RecentAreRows(ledger[..n], weekAgo);
      var rows := RecentRows(ledger[..n], weekAgo);
      assert forall k :: 0 <= k < |rows| ==> ledger[..n][rows[k]] == ledger[rows[k]];
      RowsStep(ledger, rows, Recent(ledger[..n], weekAgo), InWindow(ledger[n], weekAgo),
               RecentRows(ledger, weekAgo), Recent(ledger, weekAgo));
    }
  }

  /** `len(recent_trans[recent_trans['action'] == action])`. */
  function CountAction(ledger: seq<Transaction>, a: Action): nat
    decreases |ledger|
  {
    if |ledger| == 0 then 0
    else CountAction(ledger[..|ledger| - 1], a) + (if ledger[|ledger| - 1].action == a then 1 else 0)
  }

  /** Every ledger row is a borrow or a return, so the two counts add up
      to the number of rows in the window. */
  lemma {:induction false} BorrowsPlusReturns(ledger: seq<Transaction>)
    ensures CountAction(ledger, Borrow) + CountAction(ledger, Return) == |ledger|
    decreases |ledger|
  {
    if |ledger| > 0 {
      BorrowsPlusReturns(ledger[..|ledger| - 1]);
    }
  }

  /** The positions of the rows in the window that record action `a`. */
  ghost function WindowRows(ledger: seq<Transaction>, weekAgo: string, a: Action): set<nat> {
    set i: nat | i < |ledger| && InWindow(ledger[i], weekAgo) && ledger[i].action == a
  }

  lemma CountAppend(x: seq<Transaction>, t: Transaction, a: Action)
    ensures CountAction(x + [t], a) == CountAction(x, a) + (if t.action == a then 1 else 0)
  {
    assert (x + [t])[..|x|] == x;
  }

  /** Adding a row to the ledger adds its position to the window's rows
      for its action, when it is in the window. */
  lemma WindowRowsStep(ledger: seq<Transaction>, weekAgo: string, a: Action)
    requires |ledger| > 0
    ensures var n := |ledger| - 1;
      && n !in WindowRows(ledger[..n], weekAgo, a)
      && WindowRows(ledger, weekAgo, a) ==
         WindowRows(ledger[..n], weekAgo, a) + (if InWindow(ledger[n], weekAgo) && ledger[n].action == a then {n} else {})
  {
  }

  /** Counting action `a` among the recent rows counts the rows of the
      ledger that are in the window and record `a`. */
  lemma {:induction false} RecentCount(ledger: seq<Transaction>, weekAgo: string, a: Action)
    ensures CountAction(Recent(ledger, weekAgo), a) == |WindowRows(ledger, weekAgo, a)|
    decreases |ledger|
  {
    if |ledger| == 0 {
      assert WindowRows(ledger, weekAgo, a) == {};
    } else {
      var n := |ledger| - 1;
      RecentCount(ledger[..n], weekAgo, a);
      WindowRowsStep(ledger, weekAgo, a);
      if InWindow(ledger[n], weekAgo) {
        CountAppend(Recent(ledger[..n], weekAgo), ledger[n], a);
      }
    }
  }

  function RecentActivityInsight(ledger: seq<Transaction>, weekAgo: string): Option<string> {
    if |ledger| == 0 then None
    else
      var recent := Recent(ledger, weekAgo);
      if |recent| == 0 then None
      else Some("Last 7 days: " + IntToString(CountAction(recent, Borrow)) + " books borrowed, "
                + IntToString(CountAction(recent, Return)) + " books returned")
  }

  /** When some row falls in the window, the finding reports how many rows
      in the window are borrows and how many are returns. */
  lemma RecentActivityText(ledger: seq<Transaction>, weekAgo: string, i: nat)
    requires i < |ledger| && InWindow(ledger[i], weekAgo)
    ensures RecentActivityInsight(ledger, weekAgo) ==
      Some("Last 7 days: " + IntToString(|WindowRows(ledger, weekAgo, Borrow)|) + " books borrowed, "
           + IntToString(|WindowRows(ledger, weekAgo, Return)|) + " books returned")
  {
    RecentAreRows(ledger, weekAgo);
    assert i in RecentRows(ledger, weekAgo);
    RecentCount(ledger, weekAgo, Borrow);
    RecentCount(ledger, weekAgo, Return);
  }

  /** An earlier cutoff never leaves out a row a later cutoff keeps. */
  lemma WindowWidens(t: Transaction, earlier: string, later: string)
    requires LexLess(earlier, later) && InWindow(t, later)
    ensures InWindow(t, earlier)
  {
    if LexLess(t.timestamp, earlier) {
      LexLessTransitive(t.timestamp, earlier, later);
    }
  }

  // ---------------------------------------------------------------------
  // All three
  // ---------------------------------------------------------------------

  /** The findings present, in the order most borrowed, low stock, recent. */
  function Present(findings: seq<Option<string>>): seq<string>
    decreases |findings|
  {
    if |findings| == 0 then []
    else (if findings[0].Some? then [findings[0].value] else []) + Present(findings[1..])
  }

  function GenerateInsights(books: seq<Book>, ledger: seq<Transaction>, weekAgo: string): string
    requires TopBorrowedInCatalog(books, ledger)
  {
    var found := Present([MostBorrowedInsight(books, ledger), LowStockInsight(books),
                          RecentActivityInsight(ledger, weekAgo)]);
    if |found| == 0 then NoInsights else Join(found, "\n")
  }

  /** The findings present are those of the three that apply, in order:
      nothing is present exactly when none applies, and the first present
      is the first of the three that applies. */
  lemma PresentThree(a: Option<string>, b: Option<string>, c: Option<string>)
    ensures Present([a, b, c]) ==
      (if a.Some? then [a.value] else []) + (if b.Some? then [b.value] else []) + (if c.Some? then [c.value] else [])
    ensures |Present([a, b, c])| == 0 <==> a.None? && b.None? && c.None?
    ensures |Present([a, b, c])| > 0 ==>
      Present([a, b, c])[0] == (if a.Some? then a.value else if b.Some? then b.value else c.value)
  {
    assert Present([a, b, c]) == (if a.Some? then [a.value] else []) + Present([b, c]) by {
      assert [a, b, c][1..] == [b, c];
    }
    assert Present([b, c]) == (if b.Some? then [b.value] else []) + Present([c]) by {
      assert [b, c][1..] == [c];
    }
    assert Present([c]) == (if c.Some? then [c.value] else []) by {
      assert [c][1..] == [];
    }
  }

  /** The most-borrowed finding is absent exactly when no row is a 'borrow'. */
  lemma MostBorrowedAbsentIff(books: seq<Book>, ledger: seq<Transaction>)
    requires TopBorrowedInCatalog(books, ledger)
    ensures MostBorrowedInsight(books, ledger).None? <==>
      forall i :: 0 <= i < |ledger| ==> ledger[i].action != Borrow
  {
  }

  /** The recent-activity finding is absent exactly when no row falls in
      the window. */
  lemma RecentAbsentIff(ledger: seq<Transaction>, weekAgo: string)
    ensures RecentActivityInsight(ledger, weekAgo).None? <==>
      forall i :: 0 <= i < |ledger| ==> !InWindow(ledger[i], weekAgo)
  {
    RecentAreRows(ledger, weekAgo);
    var rows := RecentRows(ledger, weekAgo);
    if |rows| > 0 {
      assert InWindow(ledger[rows[0]], weekAgo);
    }
  }

  /** Each finding starts with a letter other than the sentinel's 'N'. */
  lemma FindingsNotSentinel(books: seq<Book>, ledger: seq<Transaction>, weekAgo: string)
    requires TopBorrowedInCatalog(books, ledger)
    ensures MostBorrowedInsight(books, ledger).Some? ==>
      |MostBorrowedInsight(books, ledger).value| > 0 && MostBorrowedInsight(books, ledger).value[0] == 'M'
    ensures LowStockInsight(books).Some? ==>
      |LowStockInsight(books).value| > 0 && LowStockInsight(books).value[0] == 'B'
    ensures RecentActivityInsight(ledger, weekAgo).Some? ==>
      |RecentActivityInsight(ledger, weekAgo).value| > 0 && RecentActivityInsight(ledger, weekAgo).value[0] == 'L'
  {
  }

  /** The output is the sentinel exactly when no finding applies: no
      'borrow' row, no book at one copy or less, no row in the window.
      Otherwise it starts with the first finding that applies. */
  lemma NoInsightsIff(books: seq<Book>, ledger: seq<Transaction>, weekAgo: string)
    requires TopBorrowedInCatalog(books, ledger)
    ensures GenerateInsights(books, ledger, weekAgo) == NoInsights <==>
      && (forall i :: 0 <= i < |ledger| ==> ledger[i].action != Borrow)
      && (forall i :: 0 <= i < |books| ==> books[i].copies > 1)
      && (forall i :: 0 <= i < |ledger| ==> !InWindow(ledger[i], weekAgo))
    ensures var a, b, c := MostBorrowedInsight(books, ledger), LowStockInsight(books), RecentActivityInsight(ledger, weekAgo);
      var out := GenerateInsights(books, ledger, weekAgo);
      (a.Some? || b.Some? || c.Some?) ==>
        var first := if a.Some? then a.value else if b.Some? then b.value else c.value;
        |first| <= |out| && out[..|first|] == first
  {
    var a, b, c := MostBorrowedInsight(books, ledger), LowStockInsight(books), RecentActivityInsight(ledger, weekAgo);
    MostBorrowedAbsentIff(books, ledger);
    LowStockAbsentIff(books);
    RecentAbsentIff(ledger, weekAgo);
    PresentThree(a, b, c);
    var found := Present([a, b, c]);
    if |found| > 0 {
      FindingsNotSentinel(books, ledger, weekAgo);
      JoinFirst(found, "\n");
      assert Join(found, "\n")[0] == found[0][0];
    }
  }

  /** With an empty ledger and every book above one copy, the output is
      exactly the sentinel. */
  lemma QuietLibrary(books: seq<Book>, weekAgo: string)
    requires forall i :: 0 <= i < |books| ==> books[i].copies > 1
    ensures GenerateInsights(books, [], weekAgo) == NoInsights
  {
    NoInsightsIff(books, [], weekAgo);
  }

  /** The most-borrowed finding, when present, is the first line and names
      a book with the largest borrow count and that count. */
  lemma MostBorrowedFirst(books: seq<Book>, ledger: seq<Transaction>, weekAgo: string)
    requires TopBorrowedInCatalog(books, ledger)
    requires exists i :: 0 <= i < |ledger| && ledger[i].action == Borrow
    ensures var id := TopBorrowed(ledger).value;
      var book := books[FirstMatch(books, id).value];
      var line := "Most borrowed book: '" + book.title + "' by " + book.author
                  + " (Borrowed " + IntToString(BorrowCount(ledger, id)) + " times)";
      && book.bookId == id
      && (forall i :: 0 <= i < |ledger| && ledger[i].action == Borrow ==>
            BorrowCount(ledger, ledger[i].bookId) <= BorrowCount(ledger, id))
      && |GenerateInsights(books, ledger, weekAgo)| >= |line|
      && GenerateInsights(books, ledger, weekAgo)[..|line|] == line
  {
    var a := MostBorrowedInsight(books, ledger);
    var found := Present([a, LowStockInsight(books), RecentActivityInsight(ledger, weekAgo)]);
    assert found[0] == a.value;
    JoinFirst(found, "\n");
  }
}
