/** The cursor paginator over the document-list endpoint (`getDocumentList`).

    The endpoint is an oracle: `pages[k]` is the answer to the k-th request. The
    paginator asks for pages of 100, sends the previous page's cursor, appends every
    ok page's documents in server order, waits between pages while more remain, and
    gives up fatally on the first non-ok answer. */
module Pagination {
  import opened Wrappers
  import opened KbTypes

  /** The fixed page size of every list request. */
  const PageSize: nat := 100

  /** The query string of one list request: `page_size` always, `cursor` only when
      the cursor is not empty. */
  datatype Query = Query(pageSize: nat, cursor: Option<string>)

  function QueryFor(cursor: string): (q: Query)
    ensures q.pageSize == PageSize
    ensures q.cursor.None? <==> cursor == ""
    ensures q.cursor.Some? ==> q.cursor.value == cursor
  {
    if cursor != "" then Query(PageSize, Some(cursor)) else Query(PageSize, None)
  }

  /** How a listing ends: the complete list; a fatal failure at the cursor that was
      sent, with the response body; or (only when the oracle runs out of answers while
      the server still reported more pages) the documents gathered so far. */
  datatype ListOutcome =
    | Listed(documents: seq<Document>)
    | ListFailed(cursor: string, body: string)
    | Unfinished(documents: seq<Document>)

  /** A page after which no further request is made. */
  predicate Stops(p: PageResponse) {
    p.PageErr? || !p.hasMore
  }

  /** The index of the first page after which the loop sends no more requests,
      or `|pages|` when there is none. */
  function FirstStop(pages: seq<PageResponse>): (n: nat)
    ensures n <= |pages|
    ensures forall i :: 0 <= i < n ==> !Stops(pages[i])
    ensures n < |pages| ==> Stops(pages[n])
  {
    if |pages| == 0 then 0
    else if Stops(pages[0]) then 0
    else 1 + FirstStop(pages[1..])
  }

  /** The documents a response contributes: those of an ok page, none otherwise. */
  function PageDocuments(p: PageResponse): seq<Document> {
    if p.PageOk? then p.documents else []
  }

  /** The in-order concatenation of the documents of the given pages. */
  function DocumentsOf(pages: seq<PageResponse>): seq<Document> {
    if |pages| == 0 then []
    else DocumentsOf(pages[..|pages| - 1]) + PageDocuments(pages[|pages| - 1])
  }

  /** The cursor the paginator holds before request `k`: none for the first request,
      afterwards the previous page's `next_cursor`, an absent one read as "". */
  function CursorBefore(pages: seq<PageResponse>, k: nat): string
    requires k <= |pages|
    requires k > 0 ==> pages[k - 1].PageOk?
  {
    if k == 0 then "" else pages[k - 1].nextCursor.GetOr("")
  }

  /** What the paginator produces from the answers `pages`. */
  function Expected(pages: seq<PageResponse>): ListOutcome {
    var n := FirstStop(pages);
    if n == |pages| then Unfinished(DocumentsOf(pages))
    else if pages[n].PageErr? then ListFailed(CursorBefore(pages, n), pages[n].body)
    else Listed(DocumentsOf(pages[..n + 1]))
  }

  /** The number of requests the paginator sends. */
  function RequestCount(pages: seq<PageResponse>): (c: nat)
    ensures c <= |pages|
    ensures FirstStop(pages) < |pages| ==> c == FirstStop(pages) + 1
    ensures FirstStop(pages) == |pages| ==> c == |pages|
  {
    var n := FirstStop(pages);
    if n < |pages| then n + 1 else |pages|
  }

  /** The paginator. `sent` records the query of every request in order, `delays` the
      number of waits between requests. */
  method GetDocumentList(pages: seq<PageResponse>) returns (outcome: ListOutcome, sent: seq<Query>, delays: nat)
    ensures outcome == Expected(pages)
    ensures |sent| == RequestCount(pages)
    ensures forall k :: 0 <= k < |sent| ==> k <= FirstStop(pages) && sent[k] == QueryFor(CursorBefore(pages, k))
    ensures delays == if FirstStop(pages) < |pages| then FirstStop(pages) else |pages|
  {
    ghost var n := FirstStop(pages);
    ghost var count := RequestCount(pages);
    assert n < |pages| ==> count == n + 1;
    assert n == |pages| ==> count == |pages|;
    var documents: seq<Document> := [];
    var cursor := "";
    var hasMore := true;
    var k := 0;
    sent, delays := [], 0;
    while hasMore
      invariant k <= |pages|
      invariant hasMore ==> k <= n
      invariant !hasMore ==> n < |pages| && k == n + 1 && pages[n].PageOk?
      invariant documents == DocumentsOf(pages[..k])
      invariant k > 0 ==> pages[k - 1].PageOk?
      invariant cursor == CursorBefore(pages, k)
      invariant |sent| == k
      invariant forall j :: 0 <= j < k ==> j <= n && sent[j] == QueryFor(CursorBefore(pages, j))
      invariant delays == if hasMore then k else k - 1
      decreases |pages| - k
    {
      if k == |pages| {
        assert pages[..k] == pages;
        outcome := Unfinished(documents);
        return;
      }
      sent := sent + [QueryFor(cursor)];
      var response := pages[k];
      assert pages[..k + 1][..k] == pages[..k];
      k := k + 1;
      if response.PageErr? {
        outcome := ListFailed(CursorBefore(pages, k - 1), response.body);
        return;
      }
      documents := documents + response.documents;
      hasMore := response.hasMore;
      cursor := response.nextCursor.GetOr("");
      if hasMore {
        delays := delays + 1;
      }
    }
    outcome := Listed(documents);
  }

  /** N ok pages of which only the last has `has_more` false: the listing is the
      concatenation of all of them, after exactly N requests; the loop stops at the
      last page, so by `GetDocumentList`'s delay count it waits N - 1 times. */
  lemma {:induction false} CompleteListing(pages: seq<PageResponse>)
    requires |pages| >= 1
    requires forall i :: 0 <= i < |pages| ==> pages[i].PageOk?
    requires forall i :: 0 <= i < |pages| - 1 ==> pages[i].hasMore
    requires !pages[|pages| - 1].hasMore
    ensures FirstStop(pages) == |pages| - 1
    ensures RequestCount(pages) == |pages|
    ensures Expected(pages) == Listed(DocumentsOf(pages))
  {
    assert pages[..|pages|] == pages;
  }

  /** A non-ok page reached by the loop ends the listing in failure, whatever the
      pages after it hold. */
  lemma {:induction false} FailureIsFatal(pages: seq<PageResponse>, i: nat)
    requires i < |pages| && pages[i].PageErr?
    requires forall j :: 0 <= j < i ==> pages[j].PageOk? && pages[j].hasMore
    ensures FirstStop(pages) == i
    ensures Expected(pages) == ListFailed(CursorBefore(pages, i), pages[i].body)
  {
  }

  /** Listing is all or nothing: a list is returned only when every page requested
      was ok, every one but the last reported more pages, and the list is their
      concatenation. */
  lemma {:induction false} ListedOnlyWhenAllOk(pages: seq<PageResponse>)
    requires Expected(pages).Listed?
    ensures FirstStop(pages) < |pages|
    ensures forall i :: 0 <= i <= FirstStop(pages) ==> pages[i].PageOk?
    ensures !pages[FirstStop(pages)].hasMore
    ensures Expected(pages).documents == DocumentsOf(pages[..FirstStop(pages) + 1])
  {
  }

  /** Two pages: [A, B] with cursor "c1", then [C] as the last page. The second
      request carries cursor c1, two requests are sent, and the listing is [A, B, C].
      As the first stop is page 1, `GetDocumentList`'s delay clause gives one delay
      between the two requests. */
  lemma TwoPageScenario(a: Document, b: Document, c: Document)
    ensures var pages := [PageOk([a, b], true, Some("c1")), PageOk([c], false, None)];
      && FirstStop(pages) == 1
      && RequestCount(pages) == 2
      && QueryFor(CursorBefore(pages, 0)) == Query(100, None)
      && QueryFor(CursorBefore(pages, 1)) == Query(100, Some("c1"))
      && Expected(pages) == Listed([a, b, c])
  {
    var pages := [PageOk([a, b], true, Some("c1")), PageOk([c], false, None)];
    assert pages[..2] == pages;
    assert pages[..1] == [pages[0]];
    assert DocumentsOf(pages[..1]) == [a, b] by {
      assert pages[..1][..0] == [];
    }
  }
}
