# omnivore-backup in Dafny

A model of the export logic of `backup.py`, a script that pages through a
user's saved articles with the Omnivore GraphQL search API and prints them
as CSV. Two parts are modelled.

- **The fetch loop** (`OmnivoreBackup._fetch`, `_params_for_cursor`). It keeps a
  `has_next_page` flag and a `cursor`. It sends one search request per
  iteration and appends every returned edge, in order, to the object's
  `edges` list. It stops after the first page whose `hasNextPage` is false.
  The search service is an oracle object, `Backup.SearchService`: it answers
  the k-th request with the k-th of a fixed sequence of responses and keeps
  a log of the requests it received. `Backup.OmnivoreBackup.Fetch` is the
  source's `while` loop over the class field `edges`. It is proved against
  the specification functions of module `Paginator`: `RequestCount` (where the
  loop stops), `Requests` (what it sends) and `Flatten` (what it gathers).
- **The CSV export** (`_generate_csv`, `_format_labels`). `Formatter.GenerateCsv`
  is the source's `for` loop. It is proved equal to the function
  `Formatter.Csv`: the header line, then one line of five comma-joined fields
  per edge. The timestamp conversion `_unix_ts` is the parameter
  `ts: string -> string`, so every property holds whatever it computes (some
  lemmas assume its results hold no comma, double quote or line break).

The export is stated against independent readers, not taken from the
source. `Text.Split` splits at a character. `Formatter.Fields`
is a CSV line reader that keeps double-quoted text together. The lemmas show
that reading the output back gives the header, one line per edge, the five
fields of each line and the label names, each under the stated conditions.
They also show where the output is ambiguous, because the source does not
escape anything.

Files: `types.dfy` (the records, lines 18-45), `text.dfy` (Python's
`str.join` and a reference splitter), `paginator.dfy` (the loop's
specification), `formatter.dfy` (the CSV export), `backup.dfy` (the
`OmnivoreBackup` class and the service oracle).

Details of the code that the model follows exactly:

- The loop's cursor starts as the integer `0`, and `_params_for_cursor` turns
  only that `0` into `after = ""`. After the first page the cursor is the page's
  `endCursor` string, passed on unchanged. This is `Cursor = Initial | Token`.
- The chunk size is not checked in the code, so no member requires it to be
  positive.
- The code never looks at the `SearchError` variant. Such a response would
  make `result['search']['pageInfo']` raise. The model's responses are all the
  success variant.
- Labels reach `_format_labels` as dictionaries, read with `label["name"]`.
  The model's `Label` record has the one field `name`.

## Model

| member | source | states |
|---|---|---|
| `Paginator.ParamsForCursor` | backup.py:152-157 | every request has an empty query and `first` equal to the chunk size; `after` is `""` for the initial cursor and the cursor string itself afterwards |
| `Paginator.CursorBefore` | backup.py:135-146 | the loop's `cursor` is the initial `0` exactly before the first request; before request k > 0 it is the `endCursor` of page k-1 |
| `Paginator.Requests` | backup.py:137-140 | the loop's first n requests, n of them: request k carries the variables `_params_for_cursor` builds from the cursor held before it |
| `Paginator.Flatten` | backup.py:148-150 | the edges the loop gathers: every page's edges, page after page, at least as many as the last page holds (order and membership are stated by `FlattenAt` and `FlattenMembers`) |
| `Paginator.RequestCount` | backup.py:134-145 | the loop makes n > 0 requests: page n-1 is the first page with `hasNextPage` false and every earlier page has it true |
| `Paginator.RequestsChained` | backup.py:135-146 | request 0 has `after == ""`, request k > 0 has `after ==` the `endCursor` of page k-1, and every request has `query == ""` and `first == chunksize` |
| `Paginator.RequestCountIgnoresLater` | backup.py:137-145 | responses after the first last page change nothing: they are never requested |
| `Paginator.FlattenAppend` | backup.py:148-150 | the gathered edges of two page runs are the edges of the first run followed by those of the second |
| `Paginator.FlattenAt` | backup.py:148-150 | edge j of page i is at position (edges of pages before i) + j: no edge is dropped or moved |
| `Paginator.FlattenMembers` | backup.py:148-150 | an edge is gathered if and only if it is on one of the pages: nothing is invented or lost |
| `Backup.SearchService.Execute` | backup.py:138-141 | the oracle logs the request it receives and answers with the next scripted response |
| `Backup.OmnivoreBackup.constructor` | backup.py:71-77 | a new backup keeps its chunk size, url, token and client, and starts with no edges |
| `Backup.OmnivoreBackup.Fetch` | backup.py:131-150 | afterwards `edges` is its old contents followed by the edges of every requested page, in page order and within-page order; the service has received exactly `Requests(chunksize, pages, RequestCount(pages))`; the loop invariant keeps the old edges as an unchanged prefix |
| `Backup.OmnivoreBackup.AppendEdges` | backup.py:148-150 | the inner loop leaves `edges` as its old contents followed by the page's edges, each rebuilt with the same cursor and node |
| `Backup.OmnivoreBackup.Finish` | backup.py:127-129 | the text `_finish` passes to `print` is the export of the current `edges` (`print` adds one more line break) |
| `Backup.OmnivoreBackup.Run` | backup.py:120-125 | without interruption or failure, a run sends exactly the requests of the fetch loop, gathers every requested page's edges and then exports exactly those |
| `Backup.TwoPageExport` | backup.py:131-176 | two pages (two articles with `endCursor` "c1", then one last article) take two requests, the second after "c1", and give three edges and a four-line export |
| `Formatter.Names` | backup.py:179 | the label names, one per label, in order |
| `Text.Join` | backup.py:166-172 | Python's `",".join`: the joined text starts with the first element and, when more follow, a comma right after it; `Text.SplitJoin` proves that splitting at the separator gives the elements back when none holds it |
| `Formatter.FormatLabels` | backup.py:178-179 | the field starts with `"[` and ends with `]"`, the names joined by commas lie between, and no labels give `"[]"` |
| `Formatter.LabelsRoundTrip` | backup.py:178-179 | if no name holds a comma and the list is not one empty name, the names read back from the labels field are exactly the label names |
| `Formatter.LabelsAmbiguous` | backup.py:178-179 | without escaping, `[a,b]` equals the field of one label `a,b`, and the field of no labels equals the field of one empty label |
| `Formatter.RowFields` | backup.py:165-171 | a line has five fields: the raw url, `SUCCEEDED`, the labels field, `ts(savedAt)`, and `ts(publishedAt)`, or the saved_at field again when `publishedAt` is empty |
| `Formatter.Row` | backup.py:166-172 | an article's line (without its line break) opens with the raw url followed by a comma |
| `Formatter.RowWithoutNewline` | backup.py:166-172 | a line holds no line break when its url, its label names and its two timestamps hold none |
| `Formatter.LabelsField` | backup.py:169 | a CSV reader takes the double-quoted labels field as one field, commas between the names included |
| `Formatter.RowReadsBack` | backup.py:166-172 | when url and timestamps hold no comma or double quote and names no double quote, a CSV reader gives back exactly the five fields |
| `Formatter.UrlCommaSplitsRow` | backup.py:166-167 | the url is copied unescaped: a url with a comma is read as two fields, so the line has six |
| `Formatter.Csv` | backup.py:159-176 | the string `_generate_csv` returns: it starts with `url,state,labels,saved_at,published_at` and a line break, and it ends with a line break |
| `Formatter.CsvEmpty` | backup.py:160 | with no edges the export is the header line alone |
| `Formatter.CsvAppend` | backup.py:164-176 | the export of `a + b` is the export of `a` followed by the lines of `b` |
| `Formatter.CsvSnoc` | backup.py:164-174 | one more edge adds exactly its line and one line break at the end of the export |
| `Formatter.CsvLines` | backup.py:160-176 | when no line holds a line break, splitting the export at line breaks gives the header, then line i for edge i in order, then an empty rest |
| `Formatter.GenerateCsv` | backup.py:159-176 | the loop that grows `output` returns exactly `Csv(edges, ts)` |

## Left out

- The `gql` client, `AIOHTTPTransport`, the query text and the `Authorization` header (backup.py:81-118). They are network calls, so the service is the oracle `SearchService`, and the client is passed to the constructor instead of being built in `run`.
- `_unix_ts` (backup.py:181-183). It parses ISO 8601 with Python's `datetime` and scales a float to milliseconds. It is the parameter `ts`, so the model does not fix the value of any timestamp.
- `Backup.OmnivoreBackup.Fetch`: it requires that some scripted response reports `hasNextPage` false. Against a service that never does, the source loops without end, and a terminating model cannot express that.
- `Backup.OmnivoreBackup.Fetch`: it requires an empty request log, as for a client created just before the loop. The oracle counts responses from the first request it receives.
- `Backup.OmnivoreBackup.Run`: failures are not modelled. In the source, `client.execute` raises on a transport error or a GraphQL error, a `SearchError` response makes `result['search']['pageInfo']` raise, and `_unix_ts` raises `ValueError` on a malformed timestamp; none of these is caught (only `KeyboardInterrupt` is, backup.py:120-125), so `run` ends with the exception and prints nothing. The model's `SearchService.Execute` and `ts` always answer, so `Run` always returns the export.
- `Backup.OmnivoreBackup.Run`: interruption by `KeyboardInterrupt` is not modelled (signals are outside the model). In the source an interrupt runs `_finish` in the `except` branch and then again after it, so the CSV is printed twice.
- Printing in `_finish` and in the commented-out progress lines: `Finish` returns the text instead. What `print` writes is that text followed by one more `"\n"`, so the printed output ends with an empty line.
- Argument parsing, the `TOKEN` environment lookup and `sys.exit` (backup.py:47-67, 185-186): command-line plumbing.
- A `null` `endCursor` or `publishedAt` from the service. A null `publishedAt` is falsy like `""`, so the model writes it as `""`. A null `endCursor` would become the string `"None"` in the next request; the model's `endCursor` is always a string.
- `title`, `hasPreviousPage`, `startCursor` and `totalCount` are carried in the records but are never used by the modelled code.
- CSV escaping: the source applies none, and the model builds the exact same unescaped text.
