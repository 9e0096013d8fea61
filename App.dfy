/** The Streamlit front end's own logic: how a model response is split into
    its reasoning trace and its answer, which fields the edit form sends,
    and when the retrieval index is rebuilt after a form is submitted. */
module App {
  import opened Wrappers
  import opened Text
  import opened Library
  import opened Retrieval

  // ---------------------------------------------------------------------
  // Reasoning trace and answer
  // ---------------------------------------------------------------------

  const Open := "<think>"
  const Close := "</think>"
  const NoTrace := "No thinking trace available."

  /** The reasoning part shown in the expander: the second piece of a split
      at `<think>`, cut at its first `</think>`. */
  function ThinkPart(response: string): string {
    if Contains(response, Open) then Split(Split(response, Open)[1], Close)[0] else NoTrace
  }

  /** The answer shown to the user: the stripped last piece of a split at
      `</think>`, or the response untouched when it has no closing tag. */
  function AnswerPart(response: string): string {
    if Contains(response, Close) then Strip(Last(Split(response, Close))) else response
  }

  /** A tag: it starts with `<` and has no other `<`, so two occurrences of
      tags cannot overlap. */
  predicate IsTag(m: string) {
    |m| > 0 && m[0] == '<' && forall k :: 1 <= k < |m| ==> m[k] != '<'
  }

  lemma ThinkTagsAreTags()
    ensures IsTag(Open) && IsTag(Close)
  {
  }

  /** Two tag occurrences, the first starting earlier, do not overlap. */
  lemma TagsDisjoint(s: string, m1: string, m2: string, p: int, q: int)
    requires IsTag(m1) && IsTag(m2)
    requires OccursAt(s, m1, p) && OccursAt(s, m2, q) && p < q
    ensures p + |m1| <= q
  {
    assert s[q] == s[q..q + |m2|][0];
    assert forall k :: p < k < p + |m1| ==> s[k] == s[p..p + |m1|][k - p];
  }

  /** The cut after `start` is the slice of `s` that starts there. */
  lemma CutIsSlice(s: string, open: string, close: string, start: nat)
    requires |open| > 0 && |close| > 0 && start <= |s|
    ensures var r := Before(Before(s[start..], open), close);
      start + |r| <= |s| && s[start..start + |r|] == r
  {
    var after := s[start..];
    var piece := Before(after, open);
    var r := Before(piece, close);
    PrefixSlice(after, piece, 0, |r|);
    SuffixSlice(s, start, 0, |r|);
  }

  /** A prefix of the text after `start` that stops short of a `close` or
      of an `open` ends where that tag starts in `s`. */
  lemma PrefixEnd(s: string, open: string, close: string, start: nat, piece: string, r: string)
    requires start <= |s| && |piece| <= |s| - start && piece == s[start..][..|piece|]
    requires |piece| == |s| - start || OccursAt(s[start..], open, |piece|)
    requires |r| <= |piece| && r == piece[..|r|]
    requires |r| == |piece| || OccursAt(piece, close, |r|)
    ensures start + |r| == |s| || OccursAt(s, open, start + |r|) || OccursAt(s, close, start + |r|)
  {
    var after := s[start..];
    if |r| < |piece| {
      PrefixSlice(after, piece, |r|, |r| + |close|);
      SuffixSlice(s, start, |r|, |r| + |close|);
    } else if |piece| < |after| {
      SuffixSlice(s, start, |r|, |r| + |open|);
    }
  }

  /** The cut ends at the end of `s` or where one of the two tags starts. */
  lemma CutEnd(s: string, open: string, close: string, start: nat)
    requires |open| > 0 && |close| > 0 && start <= |s|
    ensures var r := Before(Before(s[start..], open), close);
      start + |r| == |s| || OccursAt(s, open, start + |r|) || OccursAt(s, close, start + |r|)
  {
    var piece := Before(s[start..], open);
    PrefixEnd(s, open, close, start, piece, Before(piece, close));
  }

  /** The text after the first `open`, cut at the next `open` and then at
      the first `close`, holds neither and ends at the end of the text or
      where a tag begins. */
  lemma Enclosed(s: string, open: string, close: string, start: nat)
    requires |open| > 0 && |close| > 0 && start <= |s|
    ensures var r := Before(Before(s[start..], open), close);
      && start + |r| <= |s| && s[start..start + |r|] == r
      && Free(r, open) && Free(r, close)
      && (start + |r| == |s| || OccursAt(s, open, start + |r|) || OccursAt(s, close, start + |r|))
  {
    var piece := Before(s[start..], open);
    var r := Before(piece, close);
    CutIsSlice(s, open, close, start);
    CutEnd(s, open, close, start);
    FreePrefix(piece, open, |r|);
  }

  /** `s.split(open)[1].split(close)[0]` in terms of `Before`. */
  lemma SplitTwice(s: string, open: string, close: string)
    requires |open| > 0 && |close| > 0 && Find(s, open).Some?
    ensures |Split(s, open)| >= 2
    ensures Split(Split(s, open)[1], close)[0] == Before(Before(s[Find(s, open).value + |open|..], open), close)
  {
    SecondPiece(s, open);
    FirstPiece(Split(s, open)[1], close);
  }

  /** Without `<think>` the trace is the placeholder; with it, the trace is
      the text after the first `<think>`, cut at the next `<think>` and then
      at the first `</think>` (which `Enclosed` shows holds neither tag and
      ends where the next tag begins). */
  lemma ThinkPartSpec(response: string)
    ensures Find(response, Open).None? ==> ThinkPart(response) == NoTrace
    ensures Find(response, Open).Some? ==>
      ThinkPart(response) == Before(Before(response[Find(response, Open).value + |Open|..], Open), Close)
  {
    if Find(response, Open).Some? {
      SplitTwice(response, Open, Close);
    }
  }

  /** No occurrence of a tag starts inside another occurrence of it. */
  lemma NoTagInside(s: string, tag: string, j: nat)
    requires IsTag(tag) && OccursAt(s, tag, j)
    ensures forall k :: j < k < j + |tag| ==> !OccursAt(s, tag, k)
  {
    forall k | j < k < j + |tag| && k + |tag| <= |s|
      ensures !OccursAt(s, tag, k)
    {
      assert s[k] == s[j..j + |tag|][k - j];
      assert s[k..k + |tag|][0] == s[k];
    }
  }

  /** With `</think>` present, the answer is the stripped text after its
      last occurrence: the returned `j` is where that occurrence starts. */
  lemma AnswerAfterLastClose(response: string) returns (j: nat)
    requires Contains(response, Close)
    ensures OccursAt(response, Close, j)
    ensures forall k :: j < k ==> !OccursAt(response, Close, k)
    ensures Free(response[j + |Close|..], Close)
    ensures AnswerPart(response) == Strip(response[j + |Close|..])
  {
    assert !Free(response, Close);
    j := LastPiece(response, Close);
    ThinkTagsAreTags();
    NoTagInside(response, Close, j);
  }

  /** Without `close` after the first `open`, cutting at `close` changes
      nothing. */
  lemma UnclosedRun(s: string, open: string, close: string, start: nat)
    requires |open| > 0 && |close| > 0 && start <= |s| && Free(s, close)
    ensures Before(Before(s[start..], open), close) == Before(s[start..], open)
  {
    var piece := Before(s[start..], open);
    forall j ensures !OccursAt(piece, close, j) {
      if 0 <= j && j + |close| <= |piece| {
        assert piece[j..j + |close|] == s[start + j..start + j + |close|];
        assert !OccursAt(s, close, start + j);
      }
    }
  }

  /** Without `</think>` the answer is the whole response, unstripped, and a
      trace opened by `<think>` runs to the next `<think>` or to the end. */
  lemma UnclosedTrace(response: string)
    requires Free(response, Close)
    ensures AnswerPart(response) == response
    ensures Find(response, Open).Some? ==>
      ThinkPart(response) == Before(response[Find(response, Open).value + |Open|..], Open)
  {
    ThinkPartSpec(response);
    if Find(response, Open).Some? {
      UnclosedRun(response, Open, Close, Find(response, Open).value + |Open|);
    }
  }

  /** An occurrence lying inside a slice is an occurrence in the slice. */
  lemma OccursWithin(s: string, sep: string, lo: nat, hi: nat, i: int)
    requires lo <= hi <= |s| && OccursAt(s, sep, i) && lo <= i && i + |sep| <= hi
    ensures OccursAt(s[lo..hi], sep, i - lo)
  {
    var inner, outer := s[lo..hi][i - lo..i - lo + |sep|], s[i..i + |sep|];
    forall k | 0 <= k < |sep| ensures inner[k] == outer[k] {
      assert s[lo..hi][i - lo + k] == s[i + k];
    }
    assert inner == outer;
  }

  /** An occurrence at or after `lo` is an occurrence in `s[lo..]`. */
  lemma OccursInSuffix(s: string, sep: string, lo: nat, i: int)
    requires lo <= |s| && OccursAt(s, sep, i) && lo <= i
    ensures OccursAt(s[lo..], sep, i - lo)
  {
    OccursWithin(s, sep, lo, |s|, i);
    assert s[lo..|s|] == s[lo..];
  }

  /** A slice of `s` ending at a tag or at the end of `s` is not shorter
      than a run holding neither tag that starts where it does. */
  lemma CutNotShorter(s: string, open: string, close: string, start: nat, trace: string, r: string)
    requires IsTag(open) && IsTag(close) && start + |trace| <= |s|
    requires s[start..start + |trace|] == trace && OccursAt(s, close, start + |trace|)
    requires Free(trace, open) && Free(trace, close)
    requires start + |r| <= |s|
    requires start + |r| == |s| || OccursAt(s, open, start + |r|) || OccursAt(s, close, start + |r|)
    ensures |r| >= |trace|
  {
    var c := start + |trace|;
    var end := start + |r|;
    if |r| < |trace| {
      var m := if OccursAt(s, open, end) then open else close;
      TagsDisjoint(s, m, close, end, c);
      OccursWithin(s, m, start, c, end);
    }
  }

  /** A slice of `s` holding no `close` and ending at a tag or at the end
      of `s` does not run past the first `close` after its start. */
  lemma CutNotLonger(s: string, open: string, close: string, start: nat, trace: string, r: string)
    requires IsTag(open) && IsTag(close) && start + |trace| <= |s|
    requires OccursAt(s, close, start + |trace|)
    requires start + |r| <= |s| && s[start..start + |r|] == r && Free(r, close)
    requires start + |r| == |s| || OccursAt(s, open, start + |r|) || OccursAt(s, close, start + |r|)
    ensures |r| <= |trace|
  {
    var c := start + |trace|;
    var end := start + |r|;
    if |r| > |trace| {
      if end < |s| {
        var m := if OccursAt(s, open, end) then open else close;
        TagsDisjoint(s, close, m, c, end);
      }
      OccursWithin(s, close, start, end, c);
    }
  }

  /** A slice with `Enclosed`'s properties, starting where such a run
      starts, is that run. */
  lemma SameRun(s: string, open: string, close: string, start: nat, trace: string, r: string)
    requires IsTag(open) && IsTag(close) && start + |trace| <= |s|
    requires s[start..start + |trace|] == trace && OccursAt(s, close, start + |trace|)
    requires Free(trace, open) && Free(trace, close)
    requires start + |r| <= |s| && s[start..start + |r|] == r && Free(r, close)
    requires start + |r| == |s| || OccursAt(s, open, start + |r|) || OccursAt(s, close, start + |r|)
    ensures r == trace
  {
    CutNotShorter(s, open, close, start, trace, r);
    CutNotLonger(s, open, close, start, trace, r);
  }

  /** A run with neither tag, closed by `close`, is exactly what the cut
      after `open` keeps. */
  lemma RunIsTrace(s: string, open: string, close: string, start: nat, trace: string)
    requires IsTag(open) && IsTag(close) && start + |trace| <= |s|
    requires s[start..start + |trace|] == trace && OccursAt(s, close, start + |trace|)
    requires Free(trace, open) && Free(trace, close)
    ensures Before(Before(s[start..], open), close) == trace
  {
    Enclosed(s, open, close, start);
    SameRun(s, open, close, start, trace, Before(Before(s[start..], open), close));
  }

  /** The text after a `close` that is followed by no other `close` is the
      last piece of a split at `close`. */
  lemma LastRun(s: string, close: string, c: nat)
    requires IsTag(close) && OccursAt(s, close, c)
    requires Free(s[c + |close|..], close)
    ensures !Free(s, close)
    ensures Last(Split(s, close)) == s[c + |close|..]
  {
    assert !Free(s, close);
    var j := LastPiece(s, close);
    OnlyOneLast(s, close, c, j);
  }

  /** Two occurrences of a tag that are each followed by no other are the
      same occurrence. */
  lemma OnlyOneLast(s: string, close: string, c: nat, j: nat)
    requires IsTag(close) && OccursAt(s, close, c) && OccursAt(s, close, j)
    requires Free(s[c + |close|..], close) && Free(s[j + |close|..], close)
    ensures j == c
  {
    if j < c {
      TagsDisjoint(s, close, close, j, c);
      OccursInSuffix(s, close, j + |close|, c);
    } else if j > c {
      TagsDisjoint(s, close, close, c, j);
      OccursInSuffix(s, close, c + |close|, j);
    }
  }

  /** A response laid out as `<think>trace</think>answer`, with no tag in
      the trace and no closing tag in the answer, splits back into exactly
      that trace and the stripped answer. */
  lemma ResponseRoundTrip(trace: string, answer: string)
    requires Free(trace, Open) && Free(trace, Close) && Free(answer, Close)
    ensures ThinkPart(Open + trace + Close + answer) == trace
    ensures AnswerPart(Open + trace + Close + answer) == Strip(answer)
  {
    var response := Open + trace + Close + answer;
    var c := |Open| + |trace|;
    assert IsTag(Open) && IsTag(Close);
    ThreeParts(Open + trace, Close, answer);
    ThreeParts(Open, trace, "");
    assert Open + trace + "" == Open + trace;
    PrefixSlice(response, Open + trace, 0, |Open|);
    PrefixSlice(response, Open + trace, |Open|, c);
    assert OccursAt(response, Open, 0);
    assert Find(response, Open) == Some(0);
    assert OccursAt(response, Close, c);
    ThinkPartSpec(response);
    RunIsTrace(response, Open, Close, |Open|, trace);
    LastRun(response, Close, c);
  }

  // ---------------------------------------------------------------------
  // Edit form payload
  // ---------------------------------------------------------------------

  /** Where a field's key sits in the form's insertion order. */
  function Rank(f: Field): nat {
    match f
    case Title(_) => 0
    case Author(_) => 1
    case Copies(_) => 2
    case Description(_) => 3
    case Tags(_) => 4
  }

  /** The dictionary the edit form submits: each text field only when it
      is non-empty, the copies whenever they are not negative, keys in the
      order the form fills them. */
  method BuildEditPayload(title: string, author: string, copies: int, description: string, tags: string)
    returns (data: seq<Field>)
    ensures forall f :: f in data <==>
      (f == Title(title) && title != "") || (f == Author(author) && author != "")
      || (f == Copies(copies) && copies >= 0)
      || (f == Description(description) && description != "") || (f == Tags(tags) && tags != "")
    ensures forall i, j :: 0 <= i < j < |data| ==> Rank(data[i]) < Rank(data[j])
  {
    data := [];
    if title != "" { data := data + [Title(title)]; }
    if author != "" { data := data + [Author(author)]; }
    if copies >= 0 { data := data + [Copies(copies)]; }
    if description != "" { data := data + [Description(description)]; }
    if tags != "" { data := data + [Tags(tags)]; }
  }

  // ---------------------------------------------------------------------
  // Form submissions and index refresh
  // ---------------------------------------------------------------------

  /** The borrow form: on success the index is rebuilt from the updated
      tables; on failure it is left as it was. */
  method SubmitBorrow(store: Store, rag: Rag, bookId: int, user: UserDetails, now: string)
    returns (success: bool, message: string)
    modifies store, rag
    ensures (store.Snapshot(), Reply(success, message)) == BorrowStep(old(store.Snapshot()), bookId, user, now)
    ensures success ==> rag.Valid() && rag.Current() == Build(store.books, store.transactions)
    ensures !success ==> unchanged(rag)
  {
    success, message := store.BorrowBook(bookId, user, now);
    if success {
      rag.RefreshIndex(store);
    }
  }

  /** The return form, with the same refresh rule as borrowing. */
  method SubmitReturn(store: Store, rag: Rag, bookId: int, user: UserDetails, now: string)
    returns (success: bool, message: string)
    modifies store, rag
    ensures (store.Snapshot(), Reply(success, message)) == ReturnStep(old(store.Snapshot()), bookId, user, now)
    ensures success ==> rag.Valid() && rag.Current() == Build(store.books, store.transactions)
    ensures !success ==> unchanged(rag)
  {
    success, message := store.ReturnBook(bookId, user, now);
    if success {
      rag.RefreshIndex(store);
    }
  }

  /** The add form: adding cannot fail, so the index is always rebuilt. */
  method SubmitAdd(store: Store, rag: Rag, data: NewBook) returns (bookId: int)
    modifies store, rag
    ensures (store.Snapshot(), bookId) == AddStep(old(store.Snapshot()), data)
    ensures rag.Valid() && rag.Current() == Build(store.books, store.transactions)
  {
    bookId := store.AddBook(data);
    rag.RefreshIndex(store);
  }

  /** The edit form: build the payload from the inputs, apply it, and
      rebuild the index only when the book was found. */
  method SubmitEdit(store: Store, rag: Rag, bookId: int,
                    title: string, author: string, copies: int, description: string, tags: string)
    returns (success: bool, message: string)
    modifies store, rag
    ensures success <==> HasBook(old(store.books), bookId)
    ensures exists data :: (
      && (store.Snapshot(), Reply(success, message)) == EditStep(old(store.Snapshot()), bookId, data)
      && (forall f :: f in data <==>
           (f == Title(title) && title != "") || (f == Author(author) && author != "")
           || (f == Copies(copies) && copies >= 0)
           || (f == Description(description) && description != "") || (f == Tags(tags) && tags != "")))
    ensures success ==> rag.Valid() && rag.Current() == Build(store.books, store.transactions)
    ensures !success ==> unchanged(rag)
  {
    var data := BuildEditPayload(title, author, copies, description, tags);
    success, message := store.EditBook(bookId, data);
    if success {
      rag.RefreshIndex(store);
    }
  }
}
