/** What the cursor-pagination loop of `OmnivoreBackup._fetch` (backup.py,
    lines 131-157) requests and gathers, stated over the sequence of responses
    the search service gives to successive requests. */
module Paginator {
  import opened BackupTypes

  /** `_params_for_cursor`: the variables of a search request. The first request
      has no cursor yet and asks for the start of the result set. */
  function ParamsForCursor(chunkSize: int, cursor: Cursor): (r: Request)
    ensures r.query == "" && r.first == chunkSize
    ensures cursor == Initial ==> r.after == ""
    ensures cursor.Token? ==> r.after == cursor.value
  {
    Request("", chunkSize, if cursor == Initial then "" else cursor.value)
  }

  /** Some response reports that no page follows it. */
  predicate Ends(pages: seq<SearchResult>)
  {
    exists k :: 0 <= k < |pages| && !pages[k].pageInfo.hasNextPage
  }

  /** The number of requests the fetch loop makes against `pages`: it stops right
      after the first page whose `hasNextPage` is false. */
  function RequestCount(pages: seq<SearchResult>): (n: nat)
    requires Ends(pages)
    ensures 0 < n <= |pages|
    ensures !pages[n - 1].pageInfo.hasNextPage
    ensures forall k :: 0 <= k < n - 1 ==> pages[k].pageInfo.hasNextPage
    decreases |pages|
  {
    if !pages[0].pageInfo.hasNextPage then 1
    else
      assert Ends(pages[1..]) by {
        var k :| 0 <= k < |pages| && !pages[k].pageInfo.hasNextPage;
        assert pages[1..][k - 1] == pages[k];
      }
      1 + RequestCount(pages[1..])
  }

  /** The value of the loop's `cursor` before its k-th request (counting from 0):
      the initial 0 only before the first request, afterwards the end cursor of
      the page received last. */
  function CursorBefore(pages: seq<SearchResult>, k: nat): (c: Cursor)
    requires k <= |pages|
    ensures c == Initial <==> k == 0
    ensures k > 0 ==> c.value == pages[k - 1].pageInfo.endCursor
  {
    if k == 0 then Initial else Token(pages[k - 1].pageInfo.endCursor)
  }

  /** The first n requests the loop sends, in order: request k carries the
      variables built from the cursor the loop holds before it. */
  function Requests(chunkSize: int, pages: seq<SearchResult>, n: nat): (r: seq<Request>)
    requires n <= |pages|
    ensures |r| == n
    ensures forall k :: 0 <= k < n ==> r[k] == ParamsForCursor(chunkSize, CursorBefore(pages, k))
  {
    if n == 0 then []
    else Requests(chunkSize, pages, n - 1) + [ParamsForCursor(chunkSize, CursorBefore(pages, n - 1))]
  }

  /** The edges of `pages`, page after page, each page's edges in their order;
      there are at least as many as the last page holds. */
  function Flatten(pages: seq<SearchResult>): (r: seq<SearchItemEdge>)
    ensures |pages| > 0 ==> |pages[|pages| - 1].edges| <= |r|
    decreases |pages|
  {
    if |pages| == 0 then []
    else Flatten(pages[..|pages| - 1]) + pages[|pages| - 1].edges
  }

  /** One more page adds its edges at the end. */
  lemma FlattenStep(pages: seq<SearchResult>, i: nat)
    requires i < |pages|
    ensures Flatten(pages[..i + 1]) == Flatten(pages[..i]) + pages[i].edges
  {
    assert pages[..i + 1][..i] == pages[..i];
  }

  /** Every request asks for `chunkSize` items with an empty query; the first one
      starts at the beginning and each later one continues from the end cursor
      of the page before it. */
  lemma RequestsChained(chunkSize: int, pages: seq<SearchResult>, n: nat)
    requires n <= |pages|
    ensures forall k :: 0 <= k < n ==>
      Requests(chunkSize, pages, n)[k].query == "" && Requests(chunkSize, pages, n)[k].first == chunkSize
    ensures n > 0 ==> Requests(chunkSize, pages, n)[0].after == ""
    ensures forall k :: 0 < k < n ==> Requests(chunkSize, pages, n)[k].after == pages[k - 1].pageInfo.endCursor
  {
  }

  /** The pages after the terminating one play no part: they are never requested. */
  lemma {:induction false} RequestCountIgnoresLater(pages: seq<SearchResult>, later: seq<SearchResult>)
    requires Ends(pages)
    ensures Ends(pages + later)
    ensures RequestCount(pages + later) == RequestCount(pages)
    decreases |pages|
  {
    var n := RequestCount(pages);
    assert (pages + later)[n - 1] == pages[n - 1];
    if pages[0].pageInfo.hasNextPage {
      RequestCountIgnoresLater(pages[1..], later);
      assert (pages + later)[1..] == pages[1..] + later;
    }
  }

  /** Flattening distributes over concatenation of page sequences. */
  lemma {:induction false} FlattenAppend(a: seq<SearchResult>, b: seq<SearchResult>)
    ensures Flatten(a + b) == Flatten(a) + Flatten(b)
    decreases |b|
  {
    if |b| == 0 {
      assert a + b == a;
    } else {
      var b' := b[..|b| - 1];
      FlattenAppend(a, b');
      var ab := a + b;
      assert ab[..|ab| - 1] == a + b' && ab[|ab| - 1] == b[|b| - 1];
      assert Flatten(ab) == Flatten(a + b') + b[|b| - 1].edges;
      assert Flatten(b) == Flatten(b') + b[|b| - 1].edges;
    }
  }

  /** No edge is dropped or moved: edge j of page i sits in the flattened sequence
      right after the edges of the pages before page i. */
  lemma FlattenAt(pages: seq<SearchResult>, i: nat, j: nat)
    requires i < |pages| && j < |pages[i].edges|
    ensures |Flatten(pages[..i])| + j < |Flatten(pages)|
    ensures Flatten(pages)[|Flatten(pages[..i])| + j] == pages[i].edges[j]
  {
    var before, after := pages[..i], pages[i + 1..];
    assert pages == before + [pages[i]] + after;
    FlattenAppend(before + [pages[i]], after);
    FlattenAppend(before, [pages[i]]);
    assert Flatten([pages[i]]) == Flatten([pages[i]][..0]) + pages[i].edges;
  }

  /** Nothing is invented either: an edge is in the flattened sequence exactly
      when it is on one of the pages. */
  lemma {:induction false} FlattenMembers(pages: seq<SearchResult>, e: SearchItemEdge)
    ensures e in Flatten(pages) <==> exists i :: 0 <= i < |pages| && e in pages[i].edges
    decreases |pages|
  {
    if |pages| > 0 {
      var init := pages[..|pages| - 1];
      FlattenMembers(init, e);
      if e in Flatten(pages) && e !in pages[|pages| - 1].edges {
        var i :| 0 <= i < |init| && e in init[i].edges;
        assert pages[i] == init[i];
      }
      if exists i :: 0 <= i < |pages| && e in pages[i].edges {
        var i :| 0 <= i < |pages| && e in pages[i].edges;
        if i < |init| {
          assert init[i] == pages[i];
        }
      }
    }
  }
}
