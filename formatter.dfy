/** The CSV export: `_generate_csv` and `_format_labels` (backup.py, lines 159-179).
    The timestamp conversion `_unix_ts` is the parameter `ts`: it is not part of
    this model, and every property below holds whatever it computes (some
    lemmas assume its results hold no comma, double quote or line break). */
module Formatter {
  import opened BackupTypes
  import opened Text

  /** The fixed first line of the export, without its line break. */
  const Header: string := "url,state,labels,saved_at,published_at"

  /** The state column holds this constant for every article. */
  const Succeeded: string := "SUCCEEDED"

  /** The names of the labels, in order. */
  function Names(labels: seq<Label>): (r: seq<string>)
    ensures |r| == |labels|
    ensures forall i :: 0 <= i < |labels| ==> r[i] == labels[i].name
  {
    seq(|labels|, i requires 0 <= i < |labels| => labels[i].name)
  }

  /** `_format_labels`: the label names joined by commas, in brackets, in double quotes. */
  function FormatLabels(labels: seq<Label>): (r: string)
    ensures |r| >= 4 && r[..2] == "\"[" && r[|r| - 2..] == "]\""
    ensures r[2..|r| - 2] == Join(Names(labels), ',')
    ensures labels == [] ==> r == "\"[]\""
  {
    "\"[" + Join(Names(labels), ',') + "]\""
  }

  /** Reads a labels field back: the names between the brackets. */
  function LabelNames(field: string): seq<string>
  {
    if |field| < 4 || field[2..|field| - 2] == "" then []
    else Split(field[2..|field| - 2], ',')
  }

  /** The labels field can be read back when no name holds a comma and the list
      is not a single empty name; the source does no escaping, so those two cases
      are ambiguous. */
  lemma LabelsRoundTrip(labels: seq<Label>)
    requires |labels| != 1 || labels[0].name != ""
    requires forall i :: 0 <= i < |labels| ==> ',' !in labels[i].name
    ensures LabelNames(FormatLabels(labels)) == Names(labels)
  {
    var names := Names(labels);
    if |labels| > 0 {
      SplitJoin(names, ',');
      assert Join(names, ',') != "" by {
        if |names| > 1 {
          assert Join(names, ',')[|names[0]|] == ',';
        }
      }
    }
  }

  /** Two label lists that the labels field cannot tell apart. */
  lemma LabelsAmbiguous()
    ensures FormatLabels([Label("a,b")]) == FormatLabels([Label("a"), Label("b")]) == "\"[a,b]\""
    ensures FormatLabels([]) == FormatLabels([Label("")]) == "\"[]\""
  {
  }

  /** The five fields of an article's line: url, state, labels, saved_at and
      published_at, which falls back to savedAt when publishedAt is empty. */
  function RowFields(edge: SearchItemEdge, ts: string -> string): (r: seq<string>)
    ensures |r| == 5
    ensures r[0] == edge.node.url && r[1] == Succeeded
    ensures r[2] == FormatLabels(edge.node.labels)
    ensures r[3] == ts(edge.node.savedAt)
    ensures edge.node.publishedAt == "" ==> r[4] == r[3]
    ensures edge.node.publishedAt != "" ==> r[4] == ts(edge.node.publishedAt)
  {
    var node := edge.node;
    [node.url, Succeeded, FormatLabels(node.labels), ts(node.savedAt),
     ts(if node.publishedAt == "" then node.savedAt else node.publishedAt)]
  }

  /** An article's line, without its line break: the raw url and a comma open it. */
  function Row(edge: SearchItemEdge, ts: string -> string): (r: string)
    ensures |edge.node.url| < |r| && r[..|edge.node.url|] == edge.node.url && r[|edge.node.url|] == ','
  {
    Join(RowFields(edge, ts), ',')
  }

  /** A reader of one CSV line that keeps double-quoted text together: the pieces
      between the commas that lie outside double quotes, quotes kept. `quoted`
      says whether the reading starts inside a quoted stretch. */
  function Fields(s: string, quoted: bool): (r: seq<string>)
    ensures |r| > 0
    decreases |s|
  {
    if |s| == 0 then [""]
    else
      var rest := Fields(s[1..], if s[0] == '"' then !quoted else quoted);
      if s[0] == ',' && !quoted then [""] + rest
      else [[s[0]] + rest[0]] + rest[1..]
  }

  /** Text without double quotes, and without commas unless inside quotes, joins
      the first field that follows it. */
  lemma {:induction false} FieldsPrepend(x: string, rest: string, quoted: bool)
    requires '"' !in x
    requires !quoted ==> ',' !in x
    ensures Fields(x + rest, quoted) == [x + Fields(rest, quoted)[0]] + Fields(rest, quoted)[1..]
    decreases |x|
  {
    if |x| > 0 {
      var s := x + rest;
      assert s[0] == x[0] && s[1..] == x[1..] + rest;
      assert '"' !in x[1..] && (!quoted ==> ',' !in x[1..]) by {
        forall k | 0 <= k < |x| - 1 ensures x[1..][k] == x[k + 1] { }
      }
      FieldsPrepend(x[1..], rest, quoted);
      assert [x[0]] + (x[1..] + Fields(rest, quoted)[0]) == x + Fields(rest, quoted)[0];
    } else {
      var r := Fields(rest, quoted);
      assert x + rest == rest && x + r[0] == r[0];
      assert [r[0]] + r[1..] == r;
    }
  }

  /** Text that a CSV reader takes as it is: no comma and no double quote. */
  predicate Plain(x: string)
  {
    ',' !in x && '"' !in x
  }

  /** A plain field followed by a comma is read as one field. */
  lemma PlainField(x: string, rest: string)
    requires Plain(x)
    ensures Fields(x + "," + rest, false) == [x] + Fields(rest, false)
  {
    var tail := "," + rest;
    assert tail[0] == ',' && tail[1..] == rest;
    var r := Fields(tail, false);
    assert r == [""] + Fields(rest, false);
    assert r[0] == "" && r[1..] == Fields(rest, false) && x + r[0] == x;
    FieldsPrepend(x, tail, false);
    assert x + "," + rest == x + tail;
  }

  /** A plain field at the end of the line is read as one field. */
  lemma PlainLastField(x: string)
    requires Plain(x)
    ensures Fields(x, false) == [x]
  {
    FieldsPrepend(x, "", false);
    assert x + "" == x;
  }

  /** The labels field is read as one field, commas between the names included. */
  lemma LabelsField(labels: seq<Label>, rest: string)
    requires forall i :: 0 <= i < |labels| ==> '"' !in labels[i].name
    ensures Fields(FormatLabels(labels) + "," + rest, false) == [FormatLabels(labels)] + Fields(rest, false)
  {
    var names := Names(labels);
    var inner := "[" + Join(names, ',') + "]";
    assert '"' !in inner by {
      JoinChars(names, ',', '"');
    }
    QuotedField(inner, rest);
    assert FormatLabels(labels) == "\"" + inner + "\"";
  }

  /** A double-quoted field without inner quotes is read as one field. */
  lemma QuotedField(inner: string, rest: string)
    requires '"' !in inner
    ensures Fields("\"" + inner + "\"" + "," + rest, false) == ["\"" + inner + "\""] + Fields(rest, false)
  {
    var r := Fields(rest, false);
    var comma := "," + rest;
    var close := "\"" + comma;
    assert Fields(comma, false) == [""] + r by {
      FieldsCons(',', rest, false);
    }
    assert Fields(close, true) == ["\""] + r by {
      FieldsCons('"', comma, true);
      assert ['"'] + "" == "\"";
    }
    assert Fields(inner + close, true) == [inner + "\""] + r by {
      FieldsPrepend(inner, close, true);
    }
    assert Fields("\"" + (inner + close), false) == ["\"" + inner + "\""] + r by {
      FieldsCons('"', inner + close, false);
      assert ['"'] + (inner + "\"") == "\"" + inner + "\"";
    }
    assert "\"" + inner + "\"" + "," + rest == "\"" + (inner + close);
  }

  /** Reading a line that starts with character c. */
  lemma FieldsCons(c: char, t: string, quoted: bool)
    ensures var rest := Fields(t, if c == '"' then !quoted else quoted);
      Fields([c] + t, quoted) ==
        if c == ',' && !quoted then [""] + rest else [[c] + rest[0]] + rest[1..]
  {
  }

  /** Read with a quote-aware CSV reader, an article's line gives back its five
      fields, provided the url and the two timestamps hold no comma or double
      quote and no label name holds a double quote. */
  lemma RowReadsBack(edge: SearchItemEdge, ts: string -> string)
    requires Plain(edge.node.url)
    requires forall i :: 0 <= i < |edge.node.labels| ==> '"' !in edge.node.labels[i].name
    requires Plain(ts(edge.node.savedAt))
    requires edge.node.publishedAt != "" ==> Plain(ts(edge.node.publishedAt))
    ensures Fields(Row(edge, ts), false) == RowFields(edge, ts)
  {
    var f := RowFields(edge, ts);
    JoinFive(f);
    TailFields(edge, ts);
    PlainField(f[0], Tail(f));
    assert [f[0]] + f[1..] == f;
  }

  /** The url is not escaped: a comma in it splits the line into six fields, the
      first of them only the part of the url before the comma. */
  lemma UrlCommaSplitsRow(edge: SearchItemEdge, ts: string -> string, x: string, y: string)
    requires edge.node.url == x + "," + y && Plain(x) && Plain(y)
    requires forall i :: 0 <= i < |edge.node.labels| ==> '"' !in edge.node.labels[i].name
    requires Plain(ts(edge.node.savedAt))
    requires edge.node.publishedAt != "" ==> Plain(ts(edge.node.publishedAt))
    ensures Fields(Row(edge, ts), false) == [x, y] + RowFields(edge, ts)[1..]
  {
    var f := RowFields(edge, ts);
    JoinFive(f);
    var tail := Tail(f);
    var u := y + "," + tail;
    assert Row(edge, ts) == x + "," + u by {
      assert (x + "," + y) + "," + tail == x + "," + u;
    }
    assert Fields(u, false) == [y] + f[1..] by {
      TailFields(edge, ts);
      PlainField(y, tail);
    }
    assert Fields(x + "," + u, false) == [x] + Fields(u, false) by {
      PlainField(x, u);
    }
    assert [x] + ([y] + f[1..]) == [x, y] + f[1..];
  }

  /** The fields after the url are read back one by one. */
  lemma TailFields(edge: SearchItemEdge, ts: string -> string)
    requires forall i :: 0 <= i < |edge.node.labels| ==> '"' !in edge.node.labels[i].name
    requires Plain(ts(edge.node.savedAt))
    requires edge.node.publishedAt != "" ==> Plain(ts(edge.node.publishedAt))
    ensures var f := RowFields(edge, ts);
      Fields(f[1] + "," + (f[2] + "," + (f[3] + "," + f[4])), false) == f[1..]
  {
    var f := RowFields(edge, ts);
    var t3 := f[3] + "," + f[4];
    var t2 := f[2] + "," + t3;
    PlainLastField(f[4]);
    PlainField(f[3], f[4]);
    assert Fields(t3, false) == [f[3], f[4]];
    LabelsField(edge.node.labels, t3);
    assert Fields(t2, false) == [f[2], f[3], f[4]];
    PlainField(f[1], t2);
    assert f[1..] == [f[1], f[2], f[3], f[4]];
  }

  /** The last four of five fields, joined by commas. */
  function Tail(f: seq<string>): string
    requires |f| == 5
  {
    f[1] + "," + (f[2] + "," + (f[3] + "," + f[4]))
  }

  /** Python's join of five fields: the first field, a comma and the rest. */
  lemma JoinFive(f: seq<string>)
    requires |f| == 5
    ensures Join(f, ',') == f[0] + "," + Tail(f)
  {
    assert f[1..][1..] == f[2..] && f[2..][1..] == f[3..] && f[3..][1..] == f[4..];
    assert Join(f[4..], ',') == f[4];
    assert Join(f[3..], ',') == f[3] + "," + f[4];
    assert Join(f[2..], ',') == f[2] + "," + (f[3] + "," + f[4]);
    assert Join(f[1..], ',') == f[1] + "," + (f[2] + "," + (f[3] + "," + f[4]));
  }

  /** The lines of `edges`, in order. */
  function RowList(edges: seq<SearchItemEdge>, ts: string -> string): (r: seq<string>)
    ensures |r| == |edges|
    ensures forall i :: 0 <= i < |edges| ==> r[i] == Row(edges[i], ts)
  {
    seq(|edges|, i requires 0 <= i < |edges| => Row(edges[i], ts))
  }

  /** The whole export of `edges`: the header line, then one line per edge,
      each line ended by a line break. So it starts with the header line and
      ends with a line break. */
  function Csv(edges: seq<SearchItemEdge>, ts: string -> string): (r: string)
    ensures |r| > |Header| && r[..|Header| + 1] == Header + "\n"
    ensures r[|r| - 1] == '\n'
  {
    Terminated([Header] + RowList(edges, ts), '\n')
  }

  /** The export of a longer edge list extends the export of its prefix by the
      lines of the added edges. */
  lemma CsvAppend(a: seq<SearchItemEdge>, b: seq<SearchItemEdge>, ts: string -> string)
    ensures Csv(a + b, ts) == Csv(a, ts) + Terminated(RowList(b, ts), '\n')
  {
    var la, lb := RowList(a, ts), RowList(b, ts);
    assert [Header] + RowList(a + b, ts) == ([Header] + la) + lb;
    TerminatedAppend([Header] + la, lb, '\n');
  }

  /** With no edges, the export is the header line alone. */
  lemma CsvEmpty(ts: string -> string)
    ensures Csv([], ts) == Header + "\n"
  {
    TerminatedSnoc([], Header, '\n');
    assert [Header] + RowList([], ts) == [] + [Header];
  }

  /** One more edge adds its line at the end. */
  lemma CsvSnoc(a: seq<SearchItemEdge>, e: SearchItemEdge, ts: string -> string)
    ensures Csv(a + [e], ts) == Csv(a, ts) + (Row(e, ts) + "\n")
  {
    CsvAppend(a, [e], ts);
    assert RowList([e], ts) == [] + [Row(e, ts)];
    TerminatedSnoc([], Row(e, ts), '\n');
  }

  /** A line holds no line break when its url, its label names and its timestamps
      hold none. */
  lemma RowWithoutNewline(edge: SearchItemEdge, ts: string -> string)
    requires '\n' !in edge.node.url
    requires forall i :: 0 <= i < |edge.node.labels| ==> '\n' !in edge.node.labels[i].name
    requires '\n' !in ts(edge.node.savedAt)
    requires edge.node.publishedAt != "" ==> '\n' !in ts(edge.node.publishedAt)
    ensures '\n' !in Row(edge, ts)
  {
    var f := RowFields(edge, ts);
    var names := Names(edge.node.labels);
    assert '\n' !in f[2] by {
      JoinChars(names, ',', '\n');
      assert f[2] == "\"[" + Join(names, ',') + "]\"";
    }
    JoinChars(f, ',', '\n');
  }

  /** One line per edge, in order: split at line breaks, the export is the header,
      the edges' lines and the empty rest after the final line break. */
  lemma CsvLines(edges: seq<SearchItemEdge>, ts: string -> string)
    requires forall i :: 0 <= i < |edges| ==> '\n' !in Row(edges[i], ts)
    ensures |Split(Csv(edges, ts), '\n')| == |edges| + 2
    ensures Split(Csv(edges, ts), '\n')[0] == Header
    ensures forall i :: 0 <= i < |edges| ==> Split(Csv(edges, ts), '\n')[i + 1] == Row(edges[i], ts)
    ensures Split(Csv(edges, ts), '\n')[|edges| + 1] == ""
  {
    var lines := [Header] + RowList(edges, ts);
    assert '\n' !in Header;
    SplitTerminated(lines, '\n');
  }

  /** `_generate_csv`: the header, then one line per edge. */
  method GenerateCsv(edges: seq<SearchItemEdge>, ts: string -> string) returns (output: string)
    ensures output == Csv(edges, ts)
  {
    output := Header + "\n";
    CsvEmpty(ts);
    assert edges[..0] == [];
    for i := 0 to |edges|
      invariant output == Csv(edges[..i], ts)
    {
      var line := Row(edges[i], ts);
      line := line + "\n";
      assert edges[..i + 1] == edges[..i] + [edges[i]];
      CsvSnoc(edges[..i], edges[i], ts);
      output := output + line;
    }
    assert edges[..|edges|] == edges;
  }
}
