# Table Exporter, modelled in Dafny

Table Exporter is a browser extension. It finds the HTML tables of a page,
lets the user pick one (or all) of them, and saves a table as CSV or as a
spreadsheet. This project models its three scripts:

- **content script** (`content.dfy`, module `Content`). It finds the tables
  of the page and summarises each one (`detectTables`): row and column
  counts, a 3×3 preview and a title. It reads one table out as a ragged grid
  of trimmed texts (`processTable`). Beside these sit a quote-when-needed CSV
  writer and a header-row JSON mapping. The page is modelled as a sequence of
  tables. Each table is the `innerText` of its cells row by row, an optional
  caption and the element just before it.
- **background service** (`background.dfy`, module `Background`). It holds an
  always-quoting CSV writer and the spreadsheet-as-HTML writer
  (`convertToExcel`). It also has the format → file name / MIME type dispatch
  of its `exportTable` request handler.
- **popup** (`popup.dfy`, module `Popup`). Its state is the detected tables,
  the selected index and the chosen format. It checks the page's reply before
  saving and falls back to `Table_N` when a table has no title. It carries
  its own inline copies of the always-quoting CSV writer and of an HTML
  spreadsheet writer. It chooses `.csv`, `.xlsx` or `.xls` from the format
  and from whether the SheetJS library is loaded.

Three supporting modules:

- `jstext.dfy` (`JsText`): the JavaScript semantics the scripts rely on.
  This covers `String.prototype.trim` over the exact ECMAScript white-space
  set, `Array.prototype.join`, the `cell || ''` default and the decimal
  rendering of `index + 1`.
- `rfc4180.dfy` (`Rfc4180`): a reference reader and writer for the CSV
  format of section 2 of RFC 4180. Both CSV writers are proved against it.
  Records are separated by a line feed, the only line break the writers
  emit. A carriage return is ordinary field text.
- `htmltable.dfy` (`HtmlTable`): the `<tr>`/`<td>` table body that both HTML
  writers emit, the appending loops that build it, and an occurrence count.
  That count shows the markup is undisturbed when no cell holds `<`.

The always-quoting CSV writers (background and popup) and the two HTML
writers take `Option<string>` cells. `None` stands for a `null` or
`undefined` cell, which `cell || ''` turns into the empty string. The
quote-when-needed writer of the content script takes plain strings, as
`processTable` produces them; it has no `cell || ''` default.

Two details of the code are kept as written:

- An untitled table is listed as `Table N` by `detectTables`
  (content.js:40) but named `Table_N`, with an underscore, by
  `processTable` (content.js:86).
- A preview row that yields no cell is dropped from the preview
  (content.js:30-32).

## Model

| member | source | states |
|---|---|---|
| `JsText.TrimStartSpec` | content.js:70 | dropping leading white space leaves a suffix that does not start with white space, and everything dropped is white space |
| `JsText.TrimEndSpec` | content.js:70 | dropping trailing white space leaves a prefix that does not end with white space, and everything dropped is white space |
| `JsText.TrimSpec` | content.js:70 | `trim()` gives the slice of the text that neither starts nor ends with white space; everything cut from either end is white space |
| `JsText.TrimIdempotent` | content.js:70 | trimming a trimmed text changes nothing |
| `JsText.TrimClean` | content.js:27 | a text without white space at either end is its own trim |
| `JsText.NatToString` | content.js:40 | `${index + 1}` is a non-empty string of decimal digits, with no leading zero, whose value is the number |
| `Rfc4180.EscapeWithoutQuote` | background.js:6 | doubling quotes leaves a text without quotes unchanged |
| `Rfc4180.EscapedStep` | background.js:6 | reading an escaped body, a doubled quote gives one quote and any other character gives itself |
| `Rfc4180.FieldRoundTrip` | background.js:6 | a well-formed field followed by `,`, `\n` or the end of the text reads back as its text |
| `Rfc4180.FieldThenRecord` | background.js:6-7 | a well-formed field followed by `,` and a record reads as that field in front of the record |
| `Rfc4180.RecordRoundTrip` | background.js:6-7 | a written record followed by `\n` or the end of the text reads back as the same fields |
| `Rfc4180.WriteRoundTripCons` | background.js:9 | if the later records read back, so does one more record written in front of them |
| `Rfc4180.WriteRoundTrip` | background.js:4-10 | records written with any well-formed field writer, fields joined by `,` and records by `\n`, parse back under RFC 4180 to the same records, when no record is empty and the last one is not written as an empty line |
| `Background.ConvertToCsvIsWrite` | background.js:4-10 | the always-quote CSV is the RFC 4180 writer with every field escaped (`"` + cell with `"` doubled + `"`, a missing cell `""`), cells joined by `,`, rows by `\n`, nothing after the last row |
| `Background.EscapedFieldEncodes` | background.js:6 | every always-quoted cell is a well-formed escaped field |
| `Background.ConvertToCsvRoundTrip` | background.js:4-10 | when every row has a cell, parsing the CSV gives back the grid of cell texts |
| `Background.ConvertToCsvLayout` | background.js:5-9 | no rows give `""`; when the last row has a cell, the text ends with that cell's closing quote, so no line feed follows it (an empty last row leaves a trailing `\n`, which this lemma does not cover) |
| `Background.JoinEndsWithLast` | background.js:9 | a join ends with its last part |
| `Background.WriteEndsWithLastRecord` | background.js:9 | the CSV text ends with the last row's line |
| `HtmlTable.CellsHtmlStep` | background.js:22-24 | one more cell appends one `<td>…</td>` |
| `HtmlTable.RowsHtmlStep` | background.js:20-26 | one more row appends one `<tr>…</tr>` |
| `HtmlTable.AppendCells` | background.js:22-24 | the cell loop appends `<td>` + cell text (or nothing for a missing cell) + `</td>` for each cell in order |
| `HtmlTable.AppendRows` | background.js:20-26 | the row loop appends `<tr>`, the row's cells, `</tr>` for each row in order |
| `HtmlTable.CountSplit` | background.js:21-25 | a tag opening never straddles a point followed by `<`, so counts add up |
| `HtmlTable.CountNoMarkup` | background.js:23 | a tag does not occur in cell text without `<` |
| `HtmlTable.CountOneTag` | background.js:23 | a single tag followed by plain text holds a given tag opening once or not at all |
| `HtmlTable.CellCounts` | background.js:23 | one cell gives one `<td>` and no `<tr>` |
| `HtmlTable.CellsCounts` | background.js:22-24 | a row's cells give one `<td>` per cell |
| `HtmlTable.WrapCount` | background.js:21-25 | counting tags in markup enclosed between two single tags |
| `HtmlTable.RowCounts` | background.js:21-25 | a row gives one `<tr>` and one `<td>` per cell |
| `HtmlTable.RowsCounts` | background.js:20-26 | when no cell holds `<`, the body has exactly one `<td>` per cell and one `<tr>` per row |
| `Background.ConvertToExcel` | background.js:13-31 | the document is the fixed opening, one `<tr>` per row with one verbatim `<td>` per cell, then `</table></body></html>`; the title argument has no effect on it |
| `Background.ExcelDocumentBody` | background.js:16-28 | between the fixed opening and closing lies exactly the table body, with one `<tr>` per row and one `<td>` per cell when no cell holds `<` |
| `Background.ExportTable` | background.js:70-85 | `csv` saves `title.csv` as `text/csv`, `excel` saves `title.xls` as `application/vnd.ms-excel`, both succeed; any other format fails with `Unsupported format` and saves nothing; the saved CSV reads back as the grid when every row has a cell |
| `Content.PreviewRow` | content.js:25-28 | a preview row holds the trimmed texts of the existing cells among the first min(3, cols), in column order, neither padded nor beyond the row |
| `Content.PreviewOf` | content.js:22-33 | the preview of the first n rows has at most n rows, none empty, each of at most min(3, cols) cells |
| `Content.Preview` | content.js:22-33 | the preview has at most min(3, rows) rows of at most min(3, cols) cells, none empty |
| `Content.BuildPreviewRow` | content.js:24-29 | the inner preview loop yields the trimmed texts of the existing cells among the first min(3, cols) |
| `Content.BuildPreview` | content.js:22-33 | the preview loops build the preview of the first min(3, rows) rows |
| `Content.DetectTables` | content.js:4-46 | one summary per table, in document order, each the table's summary at its position |
| `Content.SummaryFacts` | content.js:8-42 | id is the position, rows the row count, cols the first row's cell count or 0 without rows; the title is a non-empty preceding H1–H6 text, else a non-empty caption, else `Table N` |
| `Content.PreviewSourcesExact` | content.js:23-32 | each preview row is the preview row of a distinct table row among the first n, and those rows come in increasing order |
| `Content.PreviewSourcesComplete` | content.js:23-32 | every table row left out of the preview gives no cell |
| `Content.PreviewComplete` | content.js:23-32 | when each of the first rows has a cell, the preview has one row per table row, each that row's preview |
| `Content.PreviewOfLargeTable` | content.js:22-33 | a table with three rows of three cells or more gets a 3×3 preview of trimmed texts |
| `Content.ExtractRow` | content.js:68-72 | the extraction loop yields every cell of the row, trimmed, in order |
| `Content.ProcessTable` | content.js:49-93 | null exactly when the index names no table; otherwise one data row per table row, each that row's trimmed texts with no padding or truncation, the title chosen by the heading/caption/`Table_N` policy, and the format passed through |
| `Content.CsvFieldPolicy` | content.js:98-103 | a cell is enclosed in quotes exactly when it holds `,`, `"` or a line feed, otherwise written unchanged; either way it is a well-formed field |
| `Content.ConvertToCsvIsWrite` | content.js:96-105 | the quote-when-needed CSV is the RFC 4180 writer with that policy |
| `Content.ConvertToCsvRoundTrip` | content.js:96-105 | parsing its output gives back the grid when no row is empty and the last row is not a single empty cell |
| `Content.EmptyCellRowIsLost` | content.js:96-105 | a grid whose only row is one empty cell is written as the empty text and reads back as no rows |
| `Content.ConvertToJson` | content.js:108-132 | with two rows or more, one object per row after the header row, each mapping the header positions the row reaches; otherwise the grid itself |
| `Content.RowObjectKeys` | content.js:118-122 | a key is in a row object exactly when some position below min(headers, row) holds it as header (a `__proto__` header sets nothing) |
| `Content.RowObjectLastWins` | content.js:118-122 | a repeated header takes the cell at its last position the row reaches |
| `Popup.CsvPathsAgree` | popup.js:150-154 | the popup's inline CSV builder gives the same text as the background's `convertToCSV` for every grid |
| `Popup.BuildFallbackHtml` | popup.js:216-224 | the fallback is `<html><head><meta charset="UTF-8"></head><body><table>`, one `<tr>` per row with verbatim `<td>` cells, then `</table></body></html>` |
| `Popup.FallbackMatchesExcel` | popup.js:216-224 | the fallback and the background's Excel document hold the same table body and closing, and differ only in their opening |
| `Popup.DirectDownload` | popup.js:148-245 | `csv` saves `name.csv` as `text/csv`; any other format saves `name.xlsx` as a workbook when the library is loaded, else `name.xls` as the HTML fallback |
| `Popup.DownloadFacts` | popup.js:148-245 | the saved CSV is the background's CSV and reads back as the grid when every row has a cell; the `.xls` file holds the table body between its fixed opening and closing |
| `Popup.ExtractedCsvRoundTrip` | popup.js:150-154 | the rows `processTable` extracts, taken as present cells, are saved as CSV that reads back as the same rows when no row is empty |
| `Popup.FileNameFallback` | popup.js:316 | the file name is the title when it is non-empty, else `Table_` followed by the decimal one-based index; it is never empty |
| `Popup.ProcessedTitleIsFileName` | popup.js:316 | a title chosen by `processTable` is always kept as the file name |
| `Popup.PopupState.constructor` | popup.js:2-4 | nothing detected, selection −1, format `excel` |
| `Popup.PopupState.SetExportFormat` | popup.js:56-61 | the format becomes exactly the argument; nothing else changes |
| `Popup.PopupState.SelectTable` | popup.js:126-137 | the selection becomes the index only when it names a listed table; otherwise nothing changes |
| `Popup.PopupState.TablesDetected` | popup.js:72-84 | a non-empty list replaces the detected tables; an error, no reply or an empty list leaves them; the selection is kept |
| `Popup.PopupState.ExportSelectedClicked` | popup.js:46-50 | an export is requested, for the selected table, exactly when the selection is at least 0 |
| `Popup.PopupState.ExportAllTables` | popup.js:330-357 | nothing when no table was detected; otherwise one export per table, in order, 500 ms apart |
| `Popup.PopupState.ExportReplied` | popup.js:275-326 | a missing tab, a messaging error, a missing result, or data that is not a non-empty array each raise their own alert and save nothing; otherwise the rows are saved as `DirectDownload` describes, under the title or `Table_N`, in the current format |

## Left out

- The DOM is not modelled. A table is given as its cells' `innerText`, its
  caption's `textContent` and the element just before it (`querySelectorAll`,
  `rows`, `cells`, `previousElementSibling` are not modelled).
- Browser messaging and saving are not modelled. This covers
  `chrome.tabs.*`, `chrome.runtime.onMessage` and `chrome.downloads.download`.
  A reply is a parameter, and a save is a returned value.
- `Blob`, object URLs, anchor clicks and the `setTimeout` clean-ups are host
  side effects. Only the 500 ms spacing of "export all" is kept, as a number.
- The SheetJS library is foreign code. Only whether it is loaded is modelled.
  The `.xlsx` file is represented by the grid it is written from.
- `JSON.stringify` formatting is not modelled. `ConvertToJson` stops at the
  objects and the grid. Object key order is not modelled (objects are maps).
- Rendering, status messages and CSS toggling are not modelled
  (`displayTables`, `showLoading`, `showNoTables`, the "Exporting…" texts).
- `debug.js` is not part of this model. It only saves hard-coded data.
- The `try`/`catch` paths are not modelled. These are `processTable`
  returning null after an exception, the background handler's
  `{ success: false, error: err.message }` reply (background.js:86-89), and
  the popup's "Error exporting table" alert with `directDownload` returning
  false (popup.js:258-261). Some of these exceptions come from the DOM or
  the host. Others come from data the CSV writers cannot handle: a `data`
  that is not an array fails at `tableData.map` (background.js:5), and a
  truthy cell that is not a string fails at `(cell || '').replace`
  (background.js:6, popup.js:151). The model's grids are always arrays of
  string-or-missing cells, so these failures cannot arise in it.
- A `null` or `undefined` cell given to the content script's
  `convertToCSV` makes it throw at `cell.includes` (content.js:100). Its
  model, `Content.ConvertToCsv`, takes plain strings, so that failure is not
  modelled.
- Cell values other than strings and `null`/`undefined` are not modelled.
  `cell || ''` on a number or boolean is not covered, nor is the exception
  `replace` raises on such a value.
- `Content.ConvertToCsvRoundTrip`: the reader it is proved against treats a
  carriage return as ordinary text, while RFC 4180's grammar excludes a bare
  CR from an unquoted field. The quote-when-needed writer does not quote a
  CR (content.js:100), so a cell such as `a\r` is written bare. A reader
  that also breaks records at CR would split such a cell, and the round
  trip does not hold for that reader.
- `Content.ConvertToCsvRoundTrip`: proved only when the last row is not a
  single empty cell. Such a row is written as nothing and cannot be read
  back.
- `Background.ConvertToCsvRoundTrip`: proved only when every row has a cell.
  An empty row is written as an empty line. The reader treats that as the
  end of the text, or as a record holding one empty field.
- `Background.ExcelDocumentBody`: the tag counts are stated for the part
  between the fixed opening and closing. The fixed opening holds no `<td>`
  or `<tr>`, but that is not proved.
- `Popup.PopupState.TablesDetected`: the selection is kept across a fresh
  detection, as in the code. A kept index past the new list leads to a
  `processTable` null and the "Could not process table data" alert.
