/** The backup job of backup.py (lines 69-150): the search client as an oracle
    and the `OmnivoreBackup` object whose fetch loop fills `edges`. */
module Backup {
  import opened BackupTypes
  import opened Paginator
  import Formatter
  import Text

  /** A page with one article per url; `next` and `end` fill its page info. */
  function ScenarioPage(urls: seq<string>, next: bool, end: string): SearchResult
  {
    SearchResult(
      seq(|urls|, i requires 0 <= i < |urls| =>
        SearchItemEdge(urls[i], SearchItem("", urls[i], [], "", "2023-06-01T12:00:00Z"))),
      PageInfo(next, false, "", end, 3))
  }

  /** Two pages fetched with chunk size 2: two articles and the cursor "c1", then
      one article and no further page. Two requests are made, the second one
      continuing at "c1"; three edges are gathered, and the export has four
      lines (header and three rows) before its final line break. */
  lemma TwoPageExport(ts: string -> string)
    requires forall s :: '\n' !in ts(s)
    ensures var pages := [ScenarioPage(["a", "b"], true, "c1"), ScenarioPage(["c"], false, "c2")];
      && Ends(pages)
      && RequestCount(pages) == 2
      && Requests(2, pages, 2)[0].after == "" && Requests(2, pages, 2)[1].after == "c1"
      && |Flatten(pages[..2])| == 3
      && |Text.Split(Formatter.Csv(Flatten(pages[..2]), ts), '\n')| == 5
  {
    var pages := [ScenarioPage(["a", "b"], true, "c1"), ScenarioPage(["c"], false, "c2")];
    assert !pages[1].pageInfo.hasNextPage;
    assert RequestCount(pages) == 2;
    RequestsChained(2, pages, 2);
    var edges := Flatten(pages[..2]);
    assert edges == pages[0].edges + pages[1].edges by {
      FlattenStep(pages, 0);
      FlattenStep(pages, 1);
      assert pages[..0] == [];
    }
    forall i | 0 <= i < |edges| ensures '\n' !in Formatter.Row(edges[i], ts) {
      Formatter.RowWithoutNewline(edges[i], ts);
    }
    Formatter.CsvLines(edges, ts);
  }

  /** The search client: it answers request number k with `responses[k]`.
      `received` records the requests it was sent. */
  class SearchService {
    const responses: seq<SearchResult>
    var received: seq<Request>

    constructor (responses: seq<SearchResult>)
      ensures this.responses == responses && received == []
    {
      this.responses := responses;
      received := [];
    }

    /** `client.execute`: one round trip to the service. */
    method Execute(request: Request) returns (result: SearchResult)
      requires |received| < |responses|
      modifies this`received
      ensures received == old(received) + [request]
      ensures result == responses[|old(received)|]
    {
      result := responses[|received|];
      received := received + [request];
    }
  }

  /** The backup job: its page size and the edges gathered so far. */
  class OmnivoreBackup {
    const chunksize: int
    const url: string
    const token: string
    const client: SearchService
    var edges: seq<SearchItemEdge>

    constructor (chunksize: int, url: string, token: string, client: SearchService)
      ensures this.chunksize == chunksize && this.url == url && this.token == token
      ensures this.client == client && edges == []
    {
      this.chunksize := chunksize;
      this.url := url;
      this.token := token;
      this.client := client;
      edges := [];
    }

    /** `_finish` without the printing: the export of the edges gathered so far. */
    method Finish(ts: string -> string) returns (output: string)
      ensures output == Formatter.Csv(edges, ts)
    {
      output := Formatter.GenerateCsv(edges, ts);
    }

    /** `_fetch`: request pages until one reports that no page follows, appending
        every edge received to `edges`. Each request continues from the end cursor
        of the page before it. */
    method Fetch()
      requires client.received == []
      requires Ends(client.responses)
      modifies this`edges, client`received
      ensures client.received == Requests(chunksize, client.responses, RequestCount(client.responses))
      ensures edges == old(edges) + Flatten(client.responses[..RequestCount(client.responses)])
    {
      ghost var pages := client.responses;
      ghost var n := RequestCount(pages);
      ghost var i := 0;
      var hasNextPage := true;
      var cursor := Initial;
      while hasNextPage
        invariant 0 <= i <= n
        invariant hasNextPage <==> i < n
        invariant cursor == CursorBefore(pages, i)
        invariant client.received == Requests(chunksize, pages, i)
        invariant edges == old(edges) + Flatten(pages[..i])
        decreases n - i
      {
        var result := client.Execute(ParamsForCursor(chunksize, cursor));
        assert result == pages[i] && client.received == Requests(chunksize, pages, i + 1);
        var pageInfo := result.pageInfo;
        hasNextPage := pageInfo.hasNextPage;
        cursor := Token(pageInfo.endCursor);
        assert hasNextPage <==> i + 1 < n by {
          if i + 1 < n {
            assert pages[i].pageInfo.hasNextPage;
          }
        }
        AppendEdges(result.edges);
        assert edges == old(edges) + Flatten(pages[..i + 1]) by {
          FlattenStep(pages, i);
          assert (old(edges) + Flatten(pages[..i])) + pages[i].edges
              == old(edges) + (Flatten(pages[..i]) + pages[i].edges);
        }
        i := i + 1;
      }
    }

    /** The inner loop of `_fetch`: append a page's edges one by one. */
    method AppendEdges(page: seq<SearchItemEdge>)
      modifies this`edges
      ensures edges == old(edges) + page
    {
      for j := 0 to |page|
        invariant edges == old(edges) + page[..j]
      {
        var edge := page[j];
        assert page[..j + 1] == page[..j] + [edge];
        edges := edges + [SearchItemEdge(edge.cursor, edge.node)];
      }
      assert page[..|page|] == page;
    }

    /** `run` without the transport set-up and without interruption: fetch every
        page, then export what was gathered. */
    method Run(ts: string -> string) returns (output: string)
      requires client.received == []
      requires Ends(client.responses)
      modifies this`edges, client`received
      ensures client.received == Requests(chunksize, client.responses, RequestCount(client.responses))
      ensures edges == old(edges) + Flatten(client.responses[..RequestCount(client.responses)])
      ensures output == Formatter.Csv(edges, ts)
    {
      Fetch();
      output := Finish(ts);
    }
  }
}
