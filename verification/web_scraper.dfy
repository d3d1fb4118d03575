/** The `WebScraper` class: text and link extraction from a parsed page, the
    single-page record, and the shape of what `save_to_csv` writes.

    Fetching (`get_page`) is a parameter `fetch` from a URL to the parsed page,
    or `None` when the request failed; `urljoin` and the clock are parameters
    too. */
module WebScraper {
  import opened Wrappers
  import opened Strings
  import opened Html
  import Cleanup

  /** The title used when a page has no `title` element. */
  const NoTitle: string := "No title"

  /** The dictionary `extract_text_content` returns. */
  datatype TextContent = TextContent(title: string, content: string)

  predicate IsTitle(n: Node)
  {
    IsTag(n, "title")
  }

  /** `extract_text_content`: the title is read from the document as given;
      the content is the cleaned text of the document without its `script`
      and `style` subtrees. */
  function ExtractTextContent(doc: Document): TextContent
  {
    var title := match Find(doc, IsTitle)
      case None => NoTitle
      case Some(t) => Strip(NodeText(t));
    TextContent(title, Cleanup.Clean(TextOf(StripScripts(doc))))
  }

  /** The title is "No title" or a stripped string; the content is a single
      stripped line without two-space runs. */
  lemma ExtractShape(doc: Document)
    ensures var r := ExtractTextContent(doc);
      && (r.title == NoTitle || Stripped(r.title))
      && Stripped(r.content) && NoLineBreak(r.content) && NoDoubleSpace(r.content)
  {
    Cleanup.CleanShape(TextOf(StripScripts(doc)));
  }

  /** The title is "No title" when the page has no `title` element, and
      otherwise the stripped text of the first one in document order, looked
      up before any `script` or `style` element is removed. */
  lemma TitleRule(doc: Document)
    ensures (forall d :: d in Descendants(doc) ==> !IsTitle(d))
            ==> ExtractTextContent(doc).title == NoTitle
    ensures forall k :: 0 <= k < |Descendants(doc)| && IsTitle(Descendants(doc)[k])
                        && (forall j :: 0 <= j < k ==> !IsTitle(Descendants(doc)[j]))
                        ==> ExtractTextContent(doc).title == Strip(NodeText(Descendants(doc)[k]))
  {
    var ds := Descendants(doc);
    forall k | 0 <= k < |ds| && IsTitle(ds[k]) && (forall j :: 0 <= j < k ==> !IsTitle(ds[j]))
      ensures ExtractTextContent(doc).title == Strip(NodeText(ds[k]))
    {
      FirstOfIsEarliest(ds, IsTitle, k);
    }
  }

  /** The content is the clean-up of the text leaves that are not under a
      `script` or `style` element, taken in document order. */
  lemma ContentRule(doc: Document)
    ensures ExtractTextContent(doc).content == Cleanup.Clean(VisibleText(Leaves(doc, {})))
  {
    StrippedTextIsVisibleLeaves(doc, {});
  }

  /** The content is empty exactly when the visible text is all whitespace,
      and it keeps every non-whitespace character of that text, in order. */
  lemma ContentEmptyIff(doc: Document)
    ensures var visible := VisibleText(Leaves(doc, {}));
      && (ExtractTextContent(doc).content == [] <==> AllSpace(visible))
      && NonSpace(ExtractTextContent(doc).content) == NonSpace(visible)
  {
    ContentRule(doc);
    var visible := VisibleText(Leaves(doc, {}));
    Cleanup.CleanEmptyIff(visible);
    Cleanup.CleanKeepsSkeleton(visible);
  }

  /** Text inside `script` and `style` elements, at any depth, does not reach
      the content: a page whose every leaf outside such an element is blank has
      empty content, whatever the scripts and styles hold. */
  lemma ScriptTextExcluded(doc: Document)
    requires forall l :: l in Leaves(doc, {}) && Visible(l) ==> AllSpace(l.text)
    ensures ExtractTextContent(doc).content == []
  {
    ContentRule(doc);
    VisibleTextAllSpace(Leaves(doc, {}));
    Cleanup.CleanEmptyIff(VisibleText(Leaves(doc, {})));
  }

  lemma {:induction false} VisibleTextAllSpace(ls: seq<Leaf>)
    requires forall l :: l in ls && Visible(l) ==> AllSpace(l.text)
    ensures AllSpace(VisibleText(ls))
  {
    if ls != [] {
      VisibleTextAllSpace(ls[1..]);
      var head := if Visible(ls[0]) then ls[0].text else [];
      assert AllSpace(head);
      var r := VisibleText(ls);
      assert r == head + VisibleText(ls[1..]);
      forall i | 0 <= i < |r| ensures IsSpace(r[i]) {
        if i >= |head| { assert r[i] == VisibleText(ls[1..])[i - |head|]; }
      }
    }
  }

  /** Removing scripts and styles works piecewise over the page's nodes. */
  lemma {:induction false} StripScriptsAppend(a: seq<Node>, b: seq<Node>)
    ensures StripScripts(a + b) == StripScripts(a) + StripScripts(b)
  {
    if a == [] {
      assert a + b == b;
    } else {
      assert (a + b)[0] == a[0] && (a + b)[1..] == a[1..] + b;
      StripScriptsAppend(a[1..], b);
    }
  }

  /** Every text leaf left after the removal was a text leaf before it. */
  lemma {:induction false} StripScriptsKeepsLeaves(ns: seq<Node>)
    ensures forall d :: d in Descendants(StripScripts(ns)) && d.Text? ==> d in Descendants(ns)
  {
    if ns != [] {
      DescendantsCons(ns[0], ns[1..]);
      assert [ns[0]] + ns[1..] == ns;
      StripScriptsKeepsLeaves(ns[1..]);
      if !IsScriptOrStyle(ns[0]) {
        var n := match ns[0]
          case Text(_) => ns[0]
          case Elem(t, a, cs) => Elem(t, a, StripScripts(cs));
        if ns[0].Elem? {
          StripScriptsKeepsLeaves(ns[0].children);
        }
        DescendantsCons(n, StripScripts(ns[1..]));
      }
    }
  }

  /** An `a` element carrying an `href` attribute (`find_all('a', href=True)`). */
  predicate IsLinkAnchor(n: Node)
  {
    IsTag(n, "a") && "href" in n.attrs
  }

  /** Resolves the `href` of each anchor against `base`. */
  function ResolveAll(anchors: seq<Node>, base: string, urljoin: (string, string) -> string): (links: seq<string>)
    requires forall i :: 0 <= i < |anchors| ==> IsLinkAnchor(anchors[i])
    ensures |links| == |anchors|
    ensures forall i :: 0 <= i < |anchors| ==>
      IsLinkAnchor(anchors[i]) && links[i] == urljoin(base, anchors[i].attrs["href"])
  {
    if anchors == [] then []
    else
      assert IsLinkAnchor(anchors[0]);
      [urljoin(base, anchors[0].attrs["href"])] + ResolveAll(anchors[1..], base, urljoin)
  }

  /** `extract_links`: one absolute URL per anchor with an `href`, in document
      order, without filtering or removal of duplicates. */
  function ExtractLinks(doc: Document, base: string, urljoin: (string, string) -> string): (links: seq<string>)
    ensures var anchors := FindAll(doc, IsLinkAnchor);
      && |links| == |anchors|
      && forall i :: 0 <= i < |anchors| ==> IsLinkAnchor(anchors[i]) && links[i] == urljoin(base, anchors[i].attrs["href"])
  {
    ResolveAll(FindAll(doc, IsLinkAnchor), base, urljoin)
  }

  /** A URL is among the links exactly when some anchor of the page with an
      `href` resolves to it. */
  lemma LinksCoverAnchors(doc: Document, base: string, urljoin: (string, string) -> string, u: string)
    ensures u in ExtractLinks(doc, base, urljoin)
        <==> exists d :: d in Descendants(doc) && IsLinkAnchor(d) && u == urljoin(base, d.attrs["href"])
  {
    var anchors := FindAll(doc, IsLinkAnchor);
    var links := ExtractLinks(doc, base, urljoin);
    if u in links {
      var i :| 0 <= i < |links| && links[i] == u;
      assert anchors[i] in anchors;
    } else {
      forall d | d in Descendants(doc) && IsLinkAnchor(d)
        ensures u != urljoin(base, d.attrs["href"])
      {
        assert d in anchors;
        var i :| 0 <= i < |anchors| && anchors[i] == d;
        assert links[i] == urljoin(base, d.attrs["href"]);
      }
    }
  }

  /** The record `scrape_single_page` returns; `timestamp` is the clock
      reading at the time of the call. */
  datatype PageRecord = PageRecord(url: string, timestamp: string, title: string, content: string)

  /** `scrape_single_page`: `None` when the fetch fails, otherwise the exact
      input URL, the clock reading, and the page's title and content. */
  function ScrapeSinglePage(fetch: string -> Option<Document>, now: string, url: string): (r: Option<PageRecord>)
    ensures r.None? <==> fetch(url).None?
    ensures r.Some? ==> r.value.url == url && r.value.timestamp == now
    ensures r.Some? ==> TextContent(r.value.title, r.value.content) == ExtractTextContent(fetch(url).value)
  {
    match fetch(url)
    case None => None
    case Some(doc) =>
      var text := ExtractTextContent(doc);
      Some(PageRecord(url, now, text.title, text.content))
  }

  /** A dictionary as the CSV writer sees it: key/value pairs in insertion
      order. */
  type Row = seq<(string, string)>

  function Keys(row: Row): (ks: seq<string>)
    ensures |ks| == |row|
    ensures forall j :: 0 <= j < |row| ==> ks[j] == row[j].0
  {
    if row == [] then [] else [row[0].0] + Keys(row[1..])
  }

  ghost predicate DistinctKeys(row: Row)
  {
    forall i, j :: 0 <= i < j < |row| ==> row[i].0 != row[j].0
  }

  /** `row.get(key)`. */
  function Lookup(row: Row, key: string): (r: Option<string>)
    ensures r.None? <==> key !in Keys(row)
  {
    if row == [] then None
    else if row[0].0 == key then Some(row[0].1)
    else
      assert Keys(row) == [row[0].0] + Keys(row[1..]);
      Lookup(row[1..], key)
  }

  /** The value found is that of the first pair with the key. */
  lemma {:induction false} LookupFirst(row: Row, j: nat)
    requires j < |row|
    requires forall i :: 0 <= i < j ==> row[i].0 != row[j].0
    ensures Lookup(row, row[j].0) == Some(row[j].1)
  {
    if j > 0 {
      assert row[1..][j - 1] == row[j];
      LookupFirst(row[1..], j - 1);
    }
  }

  /** The cells `DictWriter` writes for `row` under `header`: the row's value
      for each column, and the empty string where the row has no such key. */
  function RowCells(header: seq<string>, row: Row): (cells: seq<string>)
    ensures |cells| == |header|
    ensures forall j :: 0 <= j < |header| && header[j] !in Keys(row) ==> cells[j] == ""
    ensures forall j :: 0 <= j < |header| && header[j] in Keys(row) ==> Lookup(row, header[j]) == Some(cells[j])
  {
    if header == [] then []
    else
      var first := match Lookup(row, header[0]) case Some(v) => v case None => "";
      var rest := RowCells(header[1..], row);
      assert forall j :: 0 < j < |header| ==> header[j] == header[1..][j - 1] && ([first] + rest)[j] == rest[j - 1];
      [first] + rest
  }

  /** `DictWriter` refuses a row with a key that is not a column. */
  predicate HasExtraKey(header: seq<string>, row: Row)
  {
    row != [] && (row[0].0 !in header || HasExtraKey(header, row[1..]))
  }

  /** A row is refused exactly when one of its keys is not a column. */
  lemma {:induction false} HasExtraKeyIff(header: seq<string>, row: Row)
    ensures HasExtraKey(header, row) <==> exists k :: k in Keys(row) && k !in header
  {
    if row != [] {
      HasExtraKeyIff(header, row[1..]);
      assert Keys(row) == [row[0].0] + Keys(row[1..]);
    }
  }

  /** What `save_to_csv` leaves behind. */
  datatype CsvOutcome =
    | NotWritten
      /** header line, then one line of cells per row */
    | Written(header: seq<string>, lines: seq<seq<string>>)
      /** `ValueError` raised by the row after `lines`; the lines before it were written */
    | Raised(header: seq<string>, lines: seq<seq<string>>)

  /** The lines written for `rows`, stopping at the first row with an extra
      key; `failed` tells whether such a row was met. */
  function WriteRows(header: seq<string>, rows: seq<Row>): (out: (seq<seq<string>>, bool))
    ensures |out.0| <= |rows|
    ensures !out.1 ==> |out.0| == |rows|
    ensures !out.1 <==> forall i :: 0 <= i < |rows| ==> !HasExtraKey(header, rows[i])
    ensures out.1 ==> |out.0| < |rows| && HasExtraKey(header, rows[|out.0|])
    ensures forall i :: 0 <= i < |out.0| ==> !HasExtraKey(header, rows[i])
  {
    if rows == [] then ([], false)
    else if HasExtraKey(header, rows[0]) then ([], true)
    else
      var rest := WriteRows(header, rows[1..]);
      assert forall i :: 0 < i < |rows| ==> rows[i] == rows[1..][i - 1];
      ([RowCells(header, rows[0])] + rest.0, rest.1)
  }

  /** The i-th line written holds the cells of the i-th row. */
  lemma {:induction false} WriteRowsAt(header: seq<string>, rows: seq<Row>, i: nat)
    requires i < |WriteRows(header, rows).0|
    ensures WriteRows(header, rows).0[i] == RowCells(header, rows[i])
  {
    if i > 0 {
      WriteRowsAt(header, rows[1..], i - 1);
    }
  }

  /** `save_to_csv`: nothing at all for an empty list; otherwise the header is
      the first row's keys, in order, followed by one line per row. */
  function SaveToCsv(rows: seq<Row>): (r: CsvOutcome)
    ensures r.NotWritten? <==> rows == []
    ensures rows != [] ==> r.header == Keys(rows[0])
    ensures r.Written? ==> |r.lines| == |rows|
    ensures r.Raised? <==> rows != [] && exists i :: 0 <= i < |rows| && HasExtraKey(Keys(rows[0]), rows[i])
    ensures r.Raised? ==> |r.lines| < |rows| && HasExtraKey(r.header, rows[|r.lines|])
    ensures r.Raised? ==> forall i :: 0 <= i < |r.lines| ==> !HasExtraKey(r.header, rows[i])
    ensures !r.NotWritten? ==> forall i :: 0 <= i < |r.lines| ==> r.lines[i] == RowCells(r.header, rows[i])
  {
    if rows == [] then NotWritten
    else
      var header := Keys(rows[0]);
      var out := WriteRows(header, rows);
      assert forall i :: 0 <= i < |out.0| ==> out.0[i] == RowCells(header, rows[i]) by {
        forall i | 0 <= i < |out.0| ensures out.0[i] == RowCells(header, rows[i]) {
          WriteRowsAt(header, rows, i);
        }
      }
      if out.1 then Raised(header, out.0) else Written(header, out.0)
  }

  function Zip(keys: seq<string>, cells: seq<string>): Row
    requires |keys| == |cells|
  {
    if keys == [] then [] else [(keys[0], cells[0])] + Zip(keys[1..], cells[1..])
  }

  /** Pairing the header with a written line gives the row back when the row
      has the header's keys in the header's order. */
  lemma {:induction false} CellsRoundTrip(row: Row)
    requires DistinctKeys(row)
    ensures Zip(Keys(row), RowCells(Keys(row), row)) == row
  {
    var ks := Keys(row);
    var cells := RowCells(ks, row);
    var z := Zip(ks, cells);
    ZipIndex(ks, cells);
    forall j | 0 <= j < |row| ensures z[j] == row[j] {
      assert ks[j] in ks;
      LookupFirst(row, j);
    }
  }

  lemma {:induction false} ZipIndex(keys: seq<string>, cells: seq<string>)
    requires |keys| == |cells|
    ensures |Zip(keys, cells)| == |keys|
    ensures forall j :: 0 <= j < |keys| ==> Zip(keys, cells)[j] == (keys[j], cells[j])
  {
    if keys != [] {
      ZipIndex(keys[1..], cells[1..]);
    }
  }

  /** When every row has the first row's keys, in the same order, the whole
      list is written and each line pairs with the header to give its row. */
  lemma CsvRoundTrip(rows: seq<Row>)
    requires rows != []
    requires forall i :: 0 <= i < |rows| ==> Keys(rows[i]) == Keys(rows[0]) && DistinctKeys(rows[i])
    ensures SaveToCsv(rows).Written?
    ensures var out := SaveToCsv(rows);
      forall i :: 0 <= i < |rows| ==> Zip(out.header, out.lines[i]) == rows[i]
  {
    var header := Keys(rows[0]);
    forall i | 0 <= i < |rows| ensures !HasExtraKey(header, rows[i]) {
      assert Keys(rows[i]) == header;
      HasExtraKeyIff(header, rows[i]);
    }
    forall i | 0 <= i < |rows| ensures Zip(header, RowCells(header, rows[i])) == rows[i] {
      CellsRoundTrip(rows[i]);
    }
  }

  /** The dictionary `scrape_single_page` builds, in its key order. */
  function RecordRow(rec: PageRecord): Row
  {
    [("url", rec.url), ("timestamp", rec.timestamp), ("title", rec.title), ("content", rec.content)]
  }

  /** Saving one page record (as `main` does) writes the header
      url,timestamp,title,content and the record's four values. */
  lemma SingleRecordCsv(rec: PageRecord)
    ensures SaveToCsv([RecordRow(rec)])
         == Written(["url", "timestamp", "title", "content"], [[rec.url, rec.timestamp, rec.title, rec.content]])
  {
    var row := RecordRow(rec);
    var header := ["url", "timestamp", "title", "content"];
    var values := [rec.url, rec.timestamp, rec.title, rec.content];
    assert Keys(row) == header;
    var out := WriteRows(header, [row]);
    assert !out.1 && |out.0| == 1 by {
      assert !HasExtraKey(header, row) by { HasExtraKeyIff(header, row); }
      assert forall i :: 0 <= i < |[row]| ==> !HasExtraKey(header, [row][i]);
    }
    WriteRowsAt(header, [row], 0);
    RecordCells(rec);
    assert out.0 == [values];
  }

  /** The line written for one page record holds its four values in order. */
  lemma RecordCells(rec: PageRecord)
    ensures RowCells(["url", "timestamp", "title", "content"], RecordRow(rec))
         == [rec.url, rec.timestamp, rec.title, rec.content]
  {
    var row := RecordRow(rec);
    var header := ["url", "timestamp", "title", "content"];
    var values := [rec.url, rec.timestamp, rec.title, rec.content];
    var cells := RowCells(header, row);
    assert Keys(row) == header;
    forall j | 0 <= j < 4 ensures cells[j] == values[j] {
      assert header[j] == row[j].0 && values[j] == row[j].1;
      assert header[j] in Keys(row);
      LookupFirst(row, j);
    }
  }
}
