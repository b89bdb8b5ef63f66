/** `extract_table_data` (OECDSIDS/step1_htmltoxls.py): the first `<table>` of the saved
    listing page becomes a sheet whose header is the first row's cell texts plus two link
    columns, and whose rows are the data rows' cell texts plus the links of the CAS number
    and chemical name cells.

    The parsed page is an input: its tables, each a sequence of rows, each row the sequence
    of its `<th>`/`<td>` cells with the stripped text and the `href` of the cell's first
    `<a>`. `urljoin` is the parameter `join`. */
module HtmlTable {
  import opened Common
  import opened Strings

  datatype Tag = Th | Td

  /** A cell: `get_text(strip=True)`, and the `href` of its first `<a>` (`None` when the cell
      has no `<a>` or the `<a>` has no `href`). */
  datatype HtmlCell = HtmlCell(tag: Tag, text: string, href: Option<string>)

  type Row = seq<HtmlCell>

  type Table = seq<Row>

  /** What the function returns: `None` without a table; a table without rows makes
      `rows[0]` raise `IndexError`; otherwise the header and the data of the frame. */
  datatype Extraction = NoTable | EmptyTable | Extracted(headers: seq<string>, data: seq<seq<string>>)

  const BaseUrl := "https://hpvchemicals.oecd.org/ui/"
  const CasLinkHeader := "CAS Number Link"
  const NameLinkHeader := "Chemical Name Link"

  /** `row.find_all('td')`: the `<td>` cells in order, and all of them. */
  function Tds(row: Row): (tds: seq<HtmlCell>)
    ensures |tds| <= |row|
    ensures forall k :: 0 <= k < |tds| ==> tds[k].tag == Td && tds[k] in row
    ensures forall k :: 0 <= k < |row| && row[k].tag == Td ==> row[k] in tds
  {
    if row == [] then []
    else
      var prev := Tds(row[..|row| - 1]);
      assert forall k :: 0 <= k < |row| - 1 ==> row[..|row| - 1][k] == row[k];
      if row[|row| - 1].tag == Td then prev + [row[|row| - 1]] else prev
  }

  /** `find_all('td')` keeps order and multiplicity: the `<td>` cells of two stretches of a
      row are those of the first stretch followed by those of the second. */
  lemma {:induction false} TdsAppend(a: Row, b: Row)
    ensures Tds(a + b) == Tds(a) + Tds(b)
  {
    if b == [] {
      assert a + b == a;
    } else {
      assert (a + b)[..|a + b| - 1] == a + b[..|b| - 1];
      TdsAppend(a, b[..|b| - 1]);
    }
  }

  /** The cell texts, in order. */
  function Texts(cells: seq<HtmlCell>): (texts: seq<string>)
    ensures |texts| == |cells|
    ensures forall k :: 0 <= k < |cells| ==> texts[k] == cells[k].text
  {
    seq(|cells|, k requires 0 <= k < |cells| => cells[k].text)
  }

  /** The link kept for a non-empty `href`: one starting with `http` as it is, one starting
      with `javascript` as `''`, any other joined to the site's base URL. The two prefixes
      exclude each other, so the order of the tests does not matter. */
  function FullUrl(href: string, join: (string, string) -> string): (url: string)
    ensures StartsWith(href, "http") ==> url == href
    ensures StartsWith(href, "javascript") ==> url == ""
    ensures !StartsWith(href, "http") && !StartsWith(href, "javascript") ==> url == join(BaseUrl, href)
  {
    assert StartsWith(href, "http") ==> href[..4][0] == href[0] == 'h';
    assert StartsWith(href, "javascript") ==> href[..10][0] == href[0] == 'j';
    if !StartsWith(href, "http") && !StartsWith(href, "javascript") then join(BaseUrl, href)
    else if StartsWith(href, "http") then href
    else ""
  }

  /** `if link and link.get('href')`: the cell's link, when it has a non-empty `href`. */
  function CellLink(c: HtmlCell, join: (string, string) -> string): Option<string> {
    if c.href.Some? && c.href.value != "" then Some(FullUrl(c.href.value, join)) else None
  }

  /** The link column for cell `k`: its link, or `''` when the row has no such cell or the
      cell no link. */
  function LinkAt(tds: seq<HtmlCell>, k: nat, join: (string, string) -> string): string {
    if k < |tds| then CellLink(tds[k], join).GetOr("") else ""
  }

  /** A data row: the texts of its `<td>` cells, then the CAS link and the name link. */
  function RowData(tds: seq<HtmlCell>, join: (string, string) -> string): seq<string> {
    Texts(tds) + [LinkAt(tds, 0, join), LinkAt(tds, 1, join)]
  }

  /** An emitted row has one entry per `<td>` and two more: the texts in order, then the
      links of cells 0 and 1. */
  lemma RowDataShape(tds: seq<HtmlCell>, join: (string, string) -> string)
    ensures |RowData(tds, join)| == |tds| + 2
    ensures forall k :: 0 <= k < |tds| ==> RowData(tds, join)[k] == tds[k].text
    ensures RowData(tds, join)[|tds|] == LinkAt(tds, 0, join)
    ensures RowData(tds, join)[|tds| + 1] == LinkAt(tds, 1, join)
  {
  }

  /** Only the links of cells 0 and 1 are read: rows that agree on their texts and on the
      `href`s of their first two cells give the same data, whatever links the other cells
      hold. */
  lemma OtherLinksIgnored(tds: seq<HtmlCell>, other: seq<HtmlCell>, join: (string, string) -> string)
    requires |tds| == |other|
    requires forall k :: 0 <= k < |tds| ==> tds[k].text == other[k].text
    requires forall k :: 0 <= k < |tds| && k < 2 ==> tds[k].href == other[k].href
    ensures RowData(tds, join) == RowData(other, join)
  {
    assert Texts(tds) == Texts(other);
    assert LinkAt(tds, 0, join) == LinkAt(other, 0, join);
    assert LinkAt(tds, 1, join) == LinkAt(other, 1, join);
  }

  /** The header: every cell text of the first row, then the two link columns. */
  function Headers(header: Row): seq<string> {
    Texts(header) + [CasLinkHeader, NameLinkHeader]
  }

  /** The rows with at least one `<td>`, in order. */
  function Emitted(rows: seq<Row>): (out: seq<Row>)
    ensures forall k :: 0 <= k < |out| ==> out[k] in rows && Tds(out[k]) != []
    ensures forall k :: 0 <= k < |rows| && Tds(rows[k]) != [] ==> rows[k] in out
  {
    if rows == [] then []
    else
      var prev := Emitted(rows[..|rows| - 1]);
      assert forall k :: 0 <= k < |rows| - 1 ==> rows[..|rows| - 1][k] == rows[k];
      if Tds(rows[|rows| - 1]) != [] then prev + [rows[|rows| - 1]] else prev
  }

  /** The emitted rows keep their order and multiplicity: those of two stretches of the
      table are those of the first stretch followed by those of the second. */
  lemma {:induction false} EmittedAppend(a: seq<Row>, b: seq<Row>)
    ensures Emitted(a + b) == Emitted(a) + Emitted(b)
  {
    if b == [] {
      assert a + b == a;
    } else {
      assert (a + b)[..|a + b| - 1] == a + b[..|b| - 1];
      EmittedAppend(a, b[..|b| - 1]);
    }
  }

  /** The data of rows below the header: rows without `<td>` are skipped. */
  function DataRows(rows: seq<Row>, join: (string, string) -> string): seq<seq<string>> {
    if rows == [] then []
    else
      var prev := DataRows(rows[..|rows| - 1], join);
      var tds := Tds(rows[|rows| - 1]);
      if tds == [] then prev else prev + [RowData(tds, join)]
  }

  /** The data holds one row per row with `<td>` cells, in order, each built from that row. */
  lemma {:induction false} DataRowsSpec(rows: seq<Row>, join: (string, string) -> string)
    ensures |DataRows(rows, join)| == |Emitted(rows)|
    ensures forall k :: 0 <= k < |Emitted(rows)| ==>
      DataRows(rows, join)[k] == RowData(Tds(Emitted(rows)[k]), join)
  {
    if rows != [] {
      DataRowsSpec(rows[..|rows| - 1], join);
    }
  }

  /** `extract_table_data` on the parsed page. */
  function TableExtraction(tables: seq<Table>, join: (string, string) -> string): Extraction {
    if tables == [] then NoTable
    else if tables[0] == [] then EmptyTable
    else Extracted(Headers(tables[0][0]), DataRows(tables[0][1..], join))
  }

  /** The header is one column per cell of the first row, then the two link columns; the
      data is one row per later row that has `<td>` cells; each data row is as wide as the
      header exactly when its row has as many `<td>` cells as the first row has cells. */
  lemma {:induction false} TableExtractionShape(tables: seq<Table>, join: (string, string) -> string)
    requires tables != [] && tables[0] != []
    ensures var x := TableExtraction(tables, join);
      |x.headers| == |tables[0][0]| + 2 &&
      x.headers[|tables[0][0]|] == CasLinkHeader && x.headers[|tables[0][0]| + 1] == NameLinkHeader &&
      |x.data| == |Emitted(tables[0][1..])| &&
      forall k :: 0 <= k < |x.data| ==>
        (|x.data[k]| == |x.headers| <==> |Tds(Emitted(tables[0][1..])[k])| == |tables[0][0]|)
  {
    var rows := tables[0][1..];
    DataRowsSpec(rows, join);
    forall k | 0 <= k < |Emitted(rows)| ensures |DataRows(rows, join)[k]| == |Tds(Emitted(rows)[k])| + 2 {
      RowDataShape(Tds(Emitted(rows)[k]), join);
    }
  }

  /** The cell loop of one data row: texts appended in order, the link of cell 0 and of
      cell 1 remembered, both appended at the end. */
  method ExtractRow(tds: seq<HtmlCell>, join: (string, string) -> string) returns (rowData: seq<string>)
    ensures rowData == RowData(tds, join)
  {
    rowData := [];
    var casLink, chemLink := "", "";
    for cellIdx := 0 to |tds|
      invariant rowData == Texts(tds[..cellIdx])
      invariant casLink == if 0 < cellIdx then LinkAt(tds, 0, join) else ""
      invariant chemLink == if 1 < cellIdx then LinkAt(tds, 1, join) else ""
    {
      var cell := tds[cellIdx];
      rowData := rowData + [cell.text];
      if cell.href.Some? && cell.href.value != "" {
        var href := cell.href.value;
        var fullUrl;
        if !StartsWith(href, "http") && !StartsWith(href, "javascript") {
          fullUrl := join(BaseUrl, href);
        } else if StartsWith(href, "http") {
          fullUrl := href;
        } else {
          fullUrl := "";
        }
        if cellIdx == 0 {
          casLink := fullUrl;
        } else if cellIdx == 1 {
          chemLink := fullUrl;
        }
      }
    }
    assert tds[..|tds|] == tds;
    rowData := rowData + [casLink, chemLink];
  }

  /** `extract_table_data`: only the first table is read; without a table the result is
      `None`; otherwise the header loop and the row loop build the frame. */
  method ExtractTableData(tables: seq<Table>, join: (string, string) -> string) returns (result: Extraction)
    ensures result == TableExtraction(tables, join)
    ensures tables == [] <==> result == NoTable
    ensures tables != [] ==> result == TableExtraction([tables[0]], join)
  {
    if tables == [] {
      return NoTable;
    }
    var rows := tables[0];
    if rows == [] {
      return EmptyTable;
    }
    var headerRow := rows[0];
    var headers := [];
    for i := 0 to |headerRow|
      invariant headers == Texts(headerRow[..i])
    {
      headers := headers + [headerRow[i].text];
    }
    assert headerRow[..|headerRow|] == headerRow;
    headers := headers + [CasLinkHeader, NameLinkHeader];
    var data := [];
    for rowIdx := 1 to |rows|
      invariant data == DataRows(rows[1..rowIdx], join)
    {
      assert rows[1..rowIdx + 1][..rowIdx - 1] == rows[1..rowIdx];
      var cells := Tds(rows[rowIdx]);
      if cells == [] {
        continue;
      }
      var rowData := ExtractRow(cells, join);
      data := data + [rowData];
    }
    assert rows[1..|rows|] == rows[1..];
    return Extracted(headers, data);
  }
}
