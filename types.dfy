/** The records exchanged with the Omnivore search API (backup.py, lines 18-45),
    plus the request the backup sends and the cursor it keeps between requests. */
module BackupTypes {

  /** Pagination metadata of one search response. */
  datatype PageInfo = PageInfo(
    hasNextPage: bool,
    hasPreviousPage: bool,
    startCursor: string,
    endCursor: string,
    totalCount: int)

  /** A tag attached to a saved article. */
  datatype Label = Label(name: string)

  /** One saved article. An empty `publishedAt` stands for both the empty string
      and a missing value: the formatter treats the two alike. */
  datatype SearchItem = SearchItem(
    title: string,
    url: string,
    labels: seq<Label>,
    publishedAt: string,
    savedAt: string)

  /** An article together with the cursor at which the service returned it. */
  datatype SearchItemEdge = SearchItemEdge(cursor: string, node: SearchItem)

  /** The successful `search` part of a response: a page of edges and its metadata. */
  datatype SearchResult = SearchResult(edges: seq<SearchItemEdge>, pageInfo: PageInfo)

  /** The variables sent with each search query. */
  datatype Request = Request(query: string, first: int, after: string)

  /** The fetch loop's `cursor` variable: the integer 0 before the first request,
      afterwards the `endCursor` string of the last page received. */
  datatype Cursor = Initial | Token(value: string)
}
