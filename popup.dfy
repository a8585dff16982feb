/** The popup: its small state (the detected tables, the selected one, the
    chosen format), the checks it makes on the page's reply before saving a
    file, the file-name fallback, and the two writers it carries inline (an
    always-quoting CSV writer and a spreadsheet-as-HTML fallback). */
module Popup {
  import opened JsText
  import opened Rfc4180
  import opened HtmlTable
  import Content
  import Background

  /** The inline CSV builder of `directDownload`: every cell quoted, cells
      joined by commas and rows by line feeds. */
  function InlineCsv(data: seq<seq<Cell>>): string
  {
    Join(seq(|data|, i requires 0 <= i < |data| =>
           Join(seq(|data[i]|, j requires 0 <= j < |data[i]| => EscapedField(CellText(data[i][j]))), [Comma])),
         [LineFeed])
  }

  /** The popup's CSV text and the background's are the same for every grid. */
  lemma CsvPathsAgree(data: seq<seq<Cell>>)
    ensures InlineCsv(data) == Background.ConvertToCsv(data)
  {
    var t := Texts(data);
    var lines := seq(|data|, i requires 0 <= i < |data| =>
                   Join(seq(|data[i]|, j requires 0 <= j < |data[i]| => EscapedField(CellText(data[i][j]))), [Comma]));
    forall i | 0 <= i < |data|
      ensures lines[i] == WriteRecord(EscapedField, t[i])
    {
      var quoted := seq(|data[i]|, j requires 0 <= j < |data[i]| => EscapedField(CellText(data[i][j])));
      assert quoted == WriteFields(EscapedField, t[i]);
    }
    assert lines == WriteLines(EscapedField, t);
    Background.ConvertToCsvIsWrite(data);
  }

  /** The fixed opening of the fallback spreadsheet document. */
  const FallbackHeader: string := "<html><head><meta charset=\"UTF-8\"></head><body><table>"

  /** The fallback document: the fixed opening, one `<tr>` per row with one
      `<td>` per cell, and the fixed closing. */
  function FallbackDocument(data: seq<seq<Cell>>): string
  {
    FallbackHeader + RowsHtml(data) + TableEnd
  }

  /** The HTML fallback of `directDownload`, appended row by row and cell by
      cell. */
  method BuildFallbackHtml(data: seq<seq<Cell>>) returns (html: string)
    ensures html == FallbackDocument(data)
  {
    html := FallbackHeader;
    html := AppendRows(html, data);
    html := html + TableEnd;
  }

  /** The fallback and the background's Excel writer differ only in their
      fixed opening: between opening and closing both hold the same table
      body, with one `<tr>` per row and, when no cell holds `<`, one `<td>`
      per cell. */
  lemma {:induction false} FallbackMatchesExcel(data: seq<seq<Cell>>)
    ensures var f, e := FallbackDocument(data), Background.ExcelDocument(data);
      && |f| - |FallbackHeader| == |e| - |Background.ExcelHeader|
      && f[|FallbackHeader|..|f| - |TableEnd|] == e[|Background.ExcelHeader|..|e| - |TableEnd|]
      && f[|f| - |TableEnd|..] == e[|e| - |TableEnd|..] == TableEnd
    ensures NoMarkupInCells(data) ==>
      var f := FallbackDocument(data);
      && CountOcc("<tr>", f[|FallbackHeader|..|f| - |TableEnd|]) == |data|
      && CountOcc("<td>", f[|FallbackHeader|..|f| - |TableEnd|]) == TotalCells(data)
  {
    var f, e := FallbackDocument(data), Background.ExcelDocument(data);
    assert f[|FallbackHeader|..|f| - |TableEnd|] == RowsHtml(data);
    assert e[|Background.ExcelHeader|..|e| - |TableEnd|] == RowsHtml(data);
    if NoMarkupInCells(data) {
      RowsCounts(data);
    }
  }

  /** What a saved file holds: text, or a workbook written by the
      spreadsheet library from the grid (the library itself is not part of
      this model). */
  datatype FileBody = Text(text: string) | Workbook(sheet: seq<seq<Cell>>)

  /** A file handed to the browser to save. */
  datatype FileSave = FileSave(name: string, mimeType: string, body: FileBody)

  const XlsxMime: string := "application/vnd.openxmlformats-officedocument.spreadsheetml.sheet"

  /** The file `directDownload` saves: CSV for `csv`; for any other format a
      workbook (`.xlsx`) when the spreadsheet library is loaded, and the HTML
      fallback (`.xls`) when it is not. */
  predicate DescribesDownload(save: FileSave, data: seq<seq<Cell>>, fileName: string, format: string, xlsxAvailable: bool)
  {
    if format == "csv" then
      save == FileSave(fileName + ".csv", "text/csv", Text(InlineCsv(data)))
    else if xlsxAvailable then
      save == FileSave(fileName + ".xlsx", XlsxMime, Workbook(data))
    else
      save == FileSave(fileName + ".xls", "application/vnd.ms-excel", Text(FallbackDocument(data)))
  }

  /** `directDownload`, up to the browser's save: chooses the extension,
      MIME type and content by format and library availability. */
  method DirectDownload(data: seq<seq<Cell>>, fileName: string, format: string, xlsxAvailable: bool)
    returns (save: FileSave)
    ensures DescribesDownload(save, data, fileName, format, xlsxAvailable)
  {
    if format == "csv" {
      var content := InlineCsv(data);
      save := FileSave(fileName + ".csv", "text/csv", Text(content));
    } else if xlsxAvailable {
      save := FileSave(fileName + ".xlsx", XlsxMime, Workbook(data));
    } else {
      var html := BuildFallbackHtml(data);
      save := FileSave(fileName + ".xls", "application/vnd.ms-excel", Text(html));
    }
  }

  /** The popup's saved CSV reads back under RFC 4180 as the cell texts when
      no row is empty, and is the background's CSV text; the extension is
      `.csv`, `.xlsx` or `.xls` as the format and the library decide. */
  lemma {:induction false} DownloadFacts(save: FileSave, data: seq<seq<Cell>>, fileName: string, format: string, xlsxAvailable: bool)
    requires DescribesDownload(save, data, fileName, format, xlsxAvailable)
    ensures format == "csv" ==> save.name == fileName + ".csv" && save.body == Text(Background.ConvertToCsv(data))
    ensures format == "csv" && (forall i :: 0 <= i < |data| ==> |data[i]| > 0) ==>
      Parse(save.body.text) == Some(Texts(data))
    ensures format != "csv" && xlsxAvailable ==> save.name == fileName + ".xlsx" && save.body == Workbook(data)
    ensures format != "csv" && !xlsxAvailable ==>
      && save.name == fileName + ".xls"
      && save.body.Text?
      && save.body.text[|FallbackHeader|..|save.body.text| - |TableEnd|] == RowsHtml(data)
  {
    CsvPathsAgree(data);
    if format == "csv" && (forall i :: 0 <= i < |data| ==> |data[i]| > 0) {
      Background.ConvertToCsvRoundTrip(data);
    }
    if format != "csv" && !xlsxAvailable {
      var f := FallbackDocument(data);
      assert f[|FallbackHeader|..|f| - |TableEnd|] == RowsHtml(data);
    }
  }

  /** The rows `processTable` extracts are strings, all present: the CSV the
      popup saves from them reads back as those very rows when none is
      empty. */
  lemma ExtractedCsvRoundTrip(rows: seq<seq<string>>)
    requires forall i :: 0 <= i < |rows| ==> |rows[i]| > 0
    ensures Parse(InlineCsv(Present(rows))) == Some(rows)
  {
    var cells := Present(rows);
    assert forall i :: 0 <= i < |rows| ==> |cells[i]| == |Texts(cells)[i]| == |rows[i]|;
    CsvPathsAgree(cells);
    Background.ConvertToCsvRoundTrip(cells);
  }

  /** `title || \`Table_${index + 1}\``: the name a saved table gets. */
  function FileNameFor(title: Option<string>, index: nat): (name: string)
  {
    match title
    case Some(t) => if t != "" then t else "Table_" + NatToString(index + 1)
    case None => "Table_" + NatToString(index + 1)
  }

  /** A non-empty title is the file name; otherwise the name is `Table_`
      followed by the decimal one-based position. The name is never empty. */
  lemma FileNameFallback(title: Option<string>, index: nat)
    ensures FileNameFor(title, index) != ""
    ensures title.Some? && title.value != "" ==> FileNameFor(title, index) == title.value
    ensures title.None? || title.value == "" ==>
      var n := FileNameFor(title, index);
      && n[..6] == "Table_"
      && (forall k :: 6 <= k < |n| ==> '0' <= n[k] <= '9')
      && DigitsValue(n[6..]) == index + 1
  {
    if title.None? || title.value == "" {
      var n := FileNameFor(title, index);
      assert n[6..] == NatToString(index + 1);
    }
  }

  /** The title `processTable` gives a table is always the name its file
      is saved under. */
  lemma ProcessedTitleIsFileName(tables: seq<Content.Table>, tableIndex: nat, e: Content.Extraction)
    requires tableIndex < |tables|
    requires Content.TitledBy(e.title, tables[tableIndex], "Table_" + NatToString(tableIndex + 1))
    ensures FileNameFor(Some(e.title), tableIndex) == e.title
  {
  }

  /** The `data` field of a reply: absent or falsy, present but not an
      array, or an array of rows. */
  datatype PayloadData = Missing | NotAnArray | Rows(rows: seq<seq<Cell>>)

  /** The `result` of a `processTable` reply. */
  datatype ProcessResult = ProcessResult(data: PayloadData, title: Option<string>)

  /** How an export request to the page ends: no active tab, a messaging
      error, or a reply whose `result` may be missing. */
  datatype Reply = NoActiveTab | LastError | Delivered(result: Option<ProcessResult>)

  /** What the popup does with a reply: alert the user, or save a file. */
  datatype ExportOutcome = Alerted(message: string) | Saved(file: FileSave)

  /** A scheduled export of the table at `index`, `delayMs` milliseconds on. */
  datatype ScheduledExport = ScheduledExport(index: nat, delayMs: nat)

  /** The popup's module-level state. */
  class PopupState {
    var detectedTables: seq<Content.TableSummary>
    var selectedTableIndex: int
    var exportFormat: string

    /** Nothing detected, nothing selected, Excel chosen. */
    constructor ()
      ensures detectedTables == [] && selectedTableIndex == -1 && exportFormat == "excel"
    {
      detectedTables := [];
      selectedTableIndex := -1;
      exportFormat := "excel";
    }

    /** `setExportFormat`: the format becomes exactly the argument. */
    method SetExportFormat(format: string)
      modifies this
      ensures exportFormat == format
      ensures detectedTables == old(detectedTables) && selectedTableIndex == old(selectedTableIndex)
    {
      exportFormat := format;
    }

    /** `selectTable`: the list shows one item per detected table; an index
        naming one of them becomes the selection, any other is ignored. */
    method SelectTable(index: int)
      modifies this
      ensures 0 <= index < |old(detectedTables)| ==> selectedTableIndex == index
      ensures !(0 <= index < |old(detectedTables)|) ==> selectedTableIndex == old(selectedTableIndex)
      ensures detectedTables == old(detectedTables) && exportFormat == old(exportFormat)
    {
      if 0 <= index < |detectedTables| {
        selectedTableIndex := index;
      }
    }

    /** The reply to `detectTables`: a non-empty list replaces the detected
        tables; an error, a missing reply or an empty list leaves them. The
        selection is kept either way. Gives whether a list is shown. */
    method TablesDetected(reply: Option<seq<Content.TableSummary>>) returns (listed: bool)
      modifies this
      ensures listed <==> reply.Some? && reply.value != []
      ensures listed ==> detectedTables == reply.value
      ensures !listed ==> detectedTables == old(detectedTables)
      ensures selectedTableIndex == old(selectedTableIndex) && exportFormat == old(exportFormat)
    {
      if reply.None? || reply.value == [] {
        return false;
      }
      detectedTables := reply.value;
      return true;
    }

    /** The export-selected button: asks for the selected table when there
        is a selection. */
    method ExportSelectedClicked() returns (request: Option<nat>)
      ensures request.Some? <==> selectedTableIndex >= 0
      ensures request.Some? ==> request.value == selectedTableIndex
    {
      if selectedTableIndex >= 0 {
        return Some(selectedTableIndex);
      }
      return None;
    }

    /** `exportAllTables`: nothing when no table was detected; otherwise one
        export per table, in order, half a second apart. */
    method ExportAllTables() returns (scheduled: seq<ScheduledExport>)
      ensures |scheduled| == |detectedTables|
      ensures forall i :: 0 <= i < |scheduled| ==> scheduled[i] == ScheduledExport(i, 500 * i)
    {
      scheduled := [];
      if |detectedTables| == 0 {
        return;
      }
      for index := 0 to |detectedTables|
        invariant |scheduled| == index
        invariant forall i :: 0 <= i < index ==> scheduled[i] == ScheduledExport(i, 500 * i)
      {
        scheduled := scheduled + [ScheduledExport(index, index * 500)];
      }
    }

    /** The reply handler of `exportTable`: alerts on a missing tab, a
        messaging error, a missing result or data that is not a non-empty
        array; otherwise saves the rows under the title, or `Table_N`, in the
        chosen format. */
    method ExportReplied(index: nat, reply: Reply, xlsxAvailable: bool) returns (outcome: ExportOutcome)
      ensures reply.NoActiveTab? ==> outcome == Alerted("Could not get active tab")
      ensures reply.LastError? ==> outcome == Alerted("Error connecting to page. Please refresh and try again.")
      ensures reply.Delivered? && reply.result.None? ==> outcome == Alerted("Could not process table data")
      ensures reply.Delivered? && reply.result.Some? && !(reply.result.value.data.Rows? && reply.result.value.data.rows != []) ==>
        outcome == Alerted("Invalid table data received")
      ensures outcome.Saved? <==>
        reply.Delivered? && reply.result.Some? && reply.result.value.data.Rows? && reply.result.value.data.rows != []
      ensures outcome.Saved? ==>
        var r := reply.result.value;
        DescribesDownload(outcome.file, r.data.rows, FileNameFor(r.title, index), exportFormat, xlsxAvailable)
    {
      match reply
      case NoActiveTab =>
        outcome := Alerted("Could not get active tab");
      case LastError =>
        outcome := Alerted("Error connecting to page. Please refresh and try again.");
      case Delivered(result) =>
        if result.None? {
          outcome := Alerted("Could not process table data");
        } else if !result.value.data.Rows? || result.value.data.rows == [] {
          outcome := Alerted("Invalid table data received");
        } else {
          var fileName := FileNameFor(result.value.title, index);
          var save := DirectDownload(result.value.data.rows, fileName, exportFormat, xlsxAvailable);
          outcome := Saved(save);
        }
    }
  }
}
