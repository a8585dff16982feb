/** The background service of the extension: an always-quoting CSV writer,
    the spreadsheet-as-HTML writer, and the choice of file name and MIME type
    made when an export request arrives. */
module Background {
  import opened JsText
  import opened Rfc4180
  import opened HtmlTable

  /** `"${(cell || '').replace(/"/g, '""')}"`: every cell is enclosed in
      double quotes, whatever it holds. */
  function QuoteCell(c: Cell): string
  {
    EscapedField(CellText(c))
  }

  /** `convertToCSV`: quoted cells joined by commas, rows joined by line
      feeds, nothing after the last row. */
  function ConvertToCsv(data: seq<seq<Cell>>): string
  {
    Join(seq(|data|, i requires 0 <= i < |data| =>
           Join(seq(|data[i]|, j requires 0 <= j < |data[i]| => QuoteCell(data[i][j])), [Comma])),
         [LineFeed])
  }

  /** The always-quote writer is the reference writer of RFC 4180 with every
      field escaped, applied to the cell texts. */
  lemma ConvertToCsvIsWrite(data: seq<seq<Cell>>)
    ensures ConvertToCsv(data) == Write(EscapedField, Texts(data))
  {
    var t := Texts(data);
    var lines := seq(|data|, i requires 0 <= i < |data| =>
                   Join(seq(|data[i]|, j requires 0 <= j < |data[i]| => QuoteCell(data[i][j])), [Comma]));
    forall i | 0 <= i < |data|
      ensures lines[i] == WriteRecord(EscapedField, t[i])
    {
      var quoted := seq(|data[i]|, j requires 0 <= j < |data[i]| => QuoteCell(data[i][j]));
      assert quoted == WriteFields(EscapedField, t[i]);
      assert lines[i] == Join(quoted, [Comma]);
    }
    assert lines == WriteLines(EscapedField, t);
  }

  /** Every field the always-quote writer produces is well formed. */
  lemma EscapedFieldEncodes()
    ensures forall f :: FieldEncodes(EscapedField(f), f)
  {
  }

  /** Reading the CSV text back under RFC 4180 gives the cell texts, as long
      as no row is empty (an empty row is written as an empty line). */
  lemma {:induction false} ConvertToCsvRoundTrip(data: seq<seq<Cell>>)
    requires forall i :: 0 <= i < |data| ==> |data[i]| > 0
    ensures Parse(ConvertToCsv(data)) == Some(Texts(data))
  {
    ConvertToCsvIsWrite(data);
    EscapedFieldEncodes();
    var t := Texts(data);
    if t != [] {
      var last := t[|t| - 1];
      if |last| == 1 {
        assert WriteRecord(EscapedField, last) == EscapedField(last[0]);
      } else {
        assert WriteRecord(EscapedField, last)[0] == EscapedField(last[0])[0];
      }
    }
    WriteRoundTrip(EscapedField, t);
  }

  /** The layout: no rows give the empty text, and when the last row has a
      cell the text ends with that cell's closing quote, so no line feed
      follows it. An empty last row is written as an empty line, which
      leaves a line feed at the end. */
  lemma {:induction false} ConvertToCsvLayout(data: seq<seq<Cell>>)
    ensures data == [] ==> ConvertToCsv(data) == ""
    ensures data != [] && data[|data| - 1] != [] ==>
      var s := ConvertToCsv(data); |s| >= 2 && s[|s| - 1] == Quote
  {
    ConvertToCsvIsWrite(data);
    if data != [] && data[|data| - 1] != [] {
      WriteEndsWithLastRecord(EscapedField, Texts(data));
      var last := Texts(data)[|data| - 1];
      var fields := WriteFields(EscapedField, last);
      JoinEndsWithLast(fields, [Comma]);
      var line := WriteRecord(EscapedField, last);
      assert line == Join(fields, [Comma]);
      var f := fields[|fields| - 1];
      assert line[|line| - |f|..][|f| - 1] == f[|f| - 1] == Quote;
      var s := ConvertToCsv(data);
      assert s[|s| - |line|..][|line| - 1] == line[|line| - 1];
    }
  }

  /** A join ends with its last part. */
  lemma {:induction false} JoinEndsWithLast(parts: seq<string>, sep: string)
    requires |parts| > 0
    ensures |Join(parts, sep)| >= |parts[|parts| - 1]|
    ensures Join(parts, sep)[|Join(parts, sep)| - |parts[|parts| - 1]|..] == parts[|parts| - 1]
  {
    if |parts| > 1 {
      JoinEndsWithLast(parts[1..], sep);
    }
  }

  /** The written text ends with the last record's line. */
  lemma {:induction false} WriteEndsWithLastRecord(enc: string -> string, records: seq<seq<string>>)
    requires |records| > 0
    ensures var s, l := Write(enc, records), WriteRecord(enc, records[|records| - 1]);
      |s| >= |l| && s[|s| - |l|..] == l
  {
    JoinEndsWithLast(WriteLines(enc, records), [LineFeed]);
  }

  /** The fixed opening of the spreadsheet document. */
  const ExcelHeader: string :=
    "<html xmlns:o=\"urn:schemas-microsoft-com:office:office\" xmlns:x=\"urn:schemas-microsoft-com:office:excel\">"
    + "<head><meta http-equiv=\"content-type\" content=\"application/vnd.ms-excel; charset=UTF-8\"></head><body>"
    + "<table border=\"1\">"

  /** The document `convertToExcel` builds: the fixed opening, one `<tr>` per
      row with one `<td>` per cell, and the fixed closing. */
  function ExcelDocument(data: seq<seq<Cell>>): string
  {
    ExcelHeader + RowsHtml(data) + TableEnd
  }

  /** `convertToExcel`: appends the document piece by piece, row by row and
      cell by cell (the loops are shared with the popup's writer). The title
      argument is never read, so the document is the same whatever the
      title. */
  method ConvertToExcel(data: seq<seq<Cell>>, title: string) returns (html: string)
    ensures html == ExcelDocument(data)
  {
    html := ExcelHeader;
    html := AppendRows(html, data);
    html := html + TableEnd;
  }

  /** The piece of the document between its fixed opening and closing is
      the table body, one `<tr>` per row and, when no cell holds `<`, one
      `<td>` per cell. */
  lemma {:induction false} ExcelDocumentBody(data: seq<seq<Cell>>)
    requires NoMarkupInCells(data)
    ensures var d := ExcelDocument(data);
      |d| == |ExcelHeader| + |RowsHtml(data)| + |TableEnd|
      && d[|ExcelHeader|..|d| - |TableEnd|] == RowsHtml(data)
      && CountOcc("<tr>", d[|ExcelHeader|..|d| - |TableEnd|]) == |data|
      && CountOcc("<td>", d[|ExcelHeader|..|d| - |TableEnd|]) == TotalCells(data)
  {
    var d := ExcelDocument(data);
    assert d[|ExcelHeader|..|d| - |TableEnd|] == RowsHtml(data);
    RowsCounts(data);
  }

  /** What the background asks the browser to save. */
  datatype Download = Download(content: string, fileName: string, mimeType: string)

  /** The reply to an export request: `{ success: true }` or
      `{ success: false, error }`. */
  datatype Response = Response(success: bool, error: Option<string>)

  /** The `exportTable` request handler: CSV and Excel are written and handed
      to the download, anything else is refused. */
  method ExportTable(data: seq<seq<Cell>>, title: string, format: string)
    returns (response: Response, download: Option<Download>)
    ensures response.success <==> format == "csv" || format == "excel"
    ensures response.success <==> download.Some?
    ensures response.success ==> response.error == None
    ensures format == "csv" ==>
      download == Some(Download(ConvertToCsv(data), title + ".csv", "text/csv"))
    ensures format == "excel" ==>
      download == Some(Download(ExcelDocument(data), title + ".xls", "application/vnd.ms-excel"))
    ensures !response.success ==> response.error == Some("Unsupported format")
    ensures format == "csv" && (forall i :: 0 <= i < |data| ==> |data[i]| > 0) ==>
      Parse(download.value.content) == Some(Texts(data))
  {
    if format == "csv" {
      var csv := ConvertToCsv(data);
      download := Some(Download(csv, title + ".csv", "text/csv"));
      response := Response(true, None);
      if forall i :: 0 <= i < |data| ==> |data[i]| > 0 {
        ConvertToCsvRoundTrip(data);
      }
    } else if format == "excel" {
      var excel := ConvertToExcel(data, title);
      download := Some(Download(excel, title + ".xls", "application/vnd.ms-excel"));
      response := Response(true, None);
    } else {
      download := None;
      response := Response(false, Some("Unsupported format"));
    }
  }
}
