/** The page-side script: finding the tables of a page and summarising them,
    reading one table out as a grid of trimmed texts, and the
    quote-when-needed CSV writer and header-row JSON mapping that sit beside
    them. The page itself is given as a sequence of tables in document
    order. */
module Content {
  import opened JsText
  import opened Rfc4180

  /** An element of the page: its upper-case tag name and its textContent. */
  datatype Element = Element(tagName: string, textContent: string)

  /** A table of the page. `rows` holds the innerText of every cell, row by
      row (rows may differ in length); `caption` the textContent of its
      caption, if it has one; `previousSibling` the element just before it. */
  datatype Table = Table(rows: seq<seq<string>>, caption: Option<string>, previousSibling: Option<Element>)

  /** What detection reports about one table. */
  datatype TableSummary = TableSummary(
    id: nat, rows: nat, cols: nat, caption: string, title: string, preview: seq<seq<string>>)

  /** What processing a table gives back for export. */
  datatype Extraction = Extraction(data: seq<seq<string>>, title: string, format: string)

  function Min(a: int, b: int): int
  {
    if a < b then a else b
  }

  predicate IsHeadingTag(tag: string)
  {
    tag in ["H1", "H2", "H3", "H4", "H5", "H6"]
  }

  /** The text of a heading (H1 to H6) just before the table, or "". */
  function HeadingText(t: Table): string
  {
    match t.previousSibling
    case Some(e) => if IsHeadingTag(e.tagName) then e.textContent else ""
    case None => ""
  }

  /** `table.caption?.textContent || ''`. */
  function CaptionText(t: Table): string
  {
    match t.caption
    case Some(c) => c
    case None => ""
  }

  /** `table.rows[0]?.cells.length || 0`: the first row's cell count. */
  function ColumnCount(t: Table): nat
  {
    if t.rows == [] then 0 else |t.rows[0]|
  }

  /** `title || caption || placeholder`. */
  function ResolveTitle(heading: string, caption: string, placeholder: string): string
  {
    if heading != "" then heading else if caption != "" then caption else placeholder
  }

  /** The title policy: a non-empty preceding heading wins, then a non-empty
      caption, then the placeholder. */
  predicate TitledBy(title: string, t: Table, placeholder: string)
  {
    && (HeadingText(t) != "" ==> title == HeadingText(t))
    && (HeadingText(t) == "" && CaptionText(t) != "" ==> title == CaptionText(t))
    && (HeadingText(t) == "" && CaptionText(t) == "" ==> title == placeholder)
  }

  /** The preview of one row: the trimmed texts of those of its first
      min(3, cols) cells that exist. */
  function PreviewRow(row: seq<string>, cols: nat): (r: seq<string>)
    ensures |r| == Min(Min(3, cols), |row|)
    ensures forall j :: 0 <= j < |r| ==> r[j] == Trim(row[j])
  {
    TrimAll(row[..Min(Min(3, cols), |row|)])
  }

  /** The preview rows of the first `n` table rows; a row that gives no
      cell is left out. */
  function PreviewOf(rows: seq<seq<string>>, cols: nat, n: nat): (p: seq<seq<string>>)
    requires n <= |rows|
    ensures |p| <= n
    ensures forall k :: 0 <= k < |p| ==> 0 < |p[k]| <= Min(3, cols)
  {
    if n == 0 then []
    else
      var p := PreviewOf(rows, cols, n - 1);
      var r := PreviewRow(rows[n - 1], cols);
      if r != [] then p + [r] else p
  }

  /** The preview of a table: at most three rows of at most three cells. */
  function Preview(t: Table): (p: seq<seq<string>>)
    ensures |p| <= Min(3, |t.rows|)
    ensures forall k :: 0 <= k < |p| ==> 0 < |p[k]| <= Min(3, ColumnCount(t))
  {
    PreviewOf(t.rows, ColumnCount(t), Min(3, |t.rows|))
  }

  /** The summary that detection gives table number `index`. */
  function Summary(t: Table, index: nat): TableSummary
  {
    TableSummary(index, |t.rows|, ColumnCount(t), CaptionText(t),
                 ResolveTitle(HeadingText(t), CaptionText(t), "Table " + NatToString(index + 1)),
                 Preview(t))
  }

  /** The inner preview loop of `detectTables`: the trimmed texts of the
      cells among the first min(3, cols) that exist. */
  method BuildPreviewRow(row: seq<string>, cols: nat) returns (rowData: seq<string>)
    ensures rowData == PreviewRow(row, cols)
  {
    rowData := [];
    for j := 0 to Min(3, cols)
      invariant rowData == TrimAll(row[..Min(j, |row|)])
    {
      if j < |row| {
        assert row[..j + 1] == row[..j] + [row[j]];
        rowData := rowData + [Trim(row[j])];
      }
    }
  }

  /** The outer preview loop of `detectTables`: the preview rows of the
      first three table rows, each kept when it has at least one cell. */
  method BuildPreview(rows: seq<seq<string>>, cols: nat) returns (preview: seq<seq<string>>)
    ensures preview == PreviewOf(rows, cols, Min(3, |rows|))
  {
    preview := [];
    for i := 0 to Min(3, |rows|)
      invariant preview == PreviewOf(rows, cols, i)
    {
      var rowData := BuildPreviewRow(rows[i], cols);
      if |rowData| > 0 {
        preview := preview + [rowData];
      }
    }
  }

  /** `detectTables`: one summary per table, in document order. */
  method DetectTables(tables: seq<Table>) returns (infos: seq<TableSummary>)
    ensures |infos| == |tables|
    ensures forall i :: 0 <= i < |tables| ==> infos[i] == Summary(tables[i], i)
  {
    infos := [];
    for index := 0 to |tables|
      invariant |infos| == index
      invariant forall i :: 0 <= i < index ==> infos[i] == Summary(tables[i], i)
    {
      var table := tables[index];
      var rows := |table.rows|;
      var cols := if rows > 0 then |table.rows[0]| else 0;
      var caption := CaptionText(table);
      var title := HeadingText(table);
      var preview := BuildPreview(table.rows, cols);
      var summary := TableSummary(index, rows, cols, caption,
                                  ResolveTitle(title, caption, "Table " + NatToString(index + 1)),
                                  preview);
      assert summary == Summary(table, index);
      infos := infos + [summary];
    }
  }

  /** What a summary reports: its position, the row count, the first row's
      cell count, and a non-empty title chosen by the title policy. */
  lemma SummaryFacts(t: Table, index: nat)
    ensures Summary(t, index).id == index
    ensures Summary(t, index).rows == |t.rows|
    ensures Summary(t, index).cols == (if t.rows == [] then 0 else |t.rows[0]|)
    ensures Summary(t, index).title != ""
    ensures TitledBy(Summary(t, index).title, t, "Table " + NatToString(index + 1))
  {
  }

  /** The table rows whose preview rows are kept, in order. */
  function PreviewSources(rows: seq<seq<string>>, cols: nat, n: nat): (src: seq<nat>)
    requires n <= |rows|
    ensures |src| <= n
  {
    if n == 0 then []
    else
      var s := PreviewSources(rows, cols, n - 1);
      if PreviewRow(rows[n - 1], cols) != [] then s + [n - 1] else s
  }

  /** Each preview row is the preview row of a distinct table row among the
      first `n`, and the table rows come in increasing order. */
  lemma {:induction false} PreviewSourcesExact(rows: seq<seq<string>>, cols: nat, n: nat)
    requires n <= |rows|
    ensures var src := PreviewSources(rows, cols, n);
      && |src| == |PreviewOf(rows, cols, n)|
      && (forall k :: 0 <= k < |src| ==> src[k] < n)
      && (forall k :: 0 <= k < |src| ==> PreviewOf(rows, cols, n)[k] == PreviewRow(rows[src[k]], cols))
      && (forall k, l :: 0 <= k < l < |src| ==> src[k] < src[l])
  {
    if n > 0 {
      PreviewSourcesExact(rows, cols, n - 1);
      var s, p := PreviewSources(rows, cols, n - 1), PreviewOf(rows, cols, n - 1);
      var r := PreviewRow(rows[n - 1], cols);
      if r != [] {
        assert PreviewSources(rows, cols, n) == s + [n - 1];
        assert PreviewOf(rows, cols, n) == p + [r];
      }
    }
  }

  /** The preview leaves out only table rows that give no cell. */
  lemma {:induction false} PreviewSourcesComplete(rows: seq<seq<string>>, cols: nat, n: nat)
    requires n <= |rows|
    ensures forall i :: 0 <= i < n && i !in PreviewSources(rows, cols, n) ==> PreviewRow(rows[i], cols) == []
  {
    if n > 0 {
      PreviewSourcesComplete(rows, cols, n - 1);
      var s := PreviewSources(rows, cols, n - 1);
      if PreviewRow(rows[n - 1], cols) != [] {
        assert PreviewSources(rows, cols, n) == s + [n - 1];
        assert forall i :: i in s ==> i in s + [n - 1];
      }
    }
  }

  /** When each of the first three rows has a cell within the first `cols`
      columns, the preview has one row per table row (at most three), each
      the trimmed texts of that row's first min(3, cols) cells; a 10 by 10
      table gives a 3 by 3 preview. */
  lemma {:induction false} PreviewComplete(rows: seq<seq<string>>, cols: nat, n: nat)
    requires n <= |rows| && cols > 0
    requires forall i :: 0 <= i < n ==> |rows[i]| > 0
    ensures |PreviewOf(rows, cols, n)| == n
    ensures forall i :: 0 <= i < n ==> PreviewOf(rows, cols, n)[i] == PreviewRow(rows[i], cols)
  {
    if n > 0 {
      PreviewComplete(rows, cols, n - 1);
      var p, r := PreviewOf(rows, cols, n - 1), PreviewRow(rows[n - 1], cols);
      assert |r| > 0;
      assert PreviewOf(rows, cols, n) == p + [r];
    }
  }

  /** The square case of the preview bound. */
  lemma PreviewOfLargeTable(t: Table)
    requires |t.rows| >= 3
    requires forall i :: 0 <= i < 3 ==> |t.rows[i]| >= 3
    ensures |Preview(t)| == 3
    ensures forall i, j :: 0 <= i < 3 && 0 <= j < 3 ==> |Preview(t)[i]| == 3 && Preview(t)[i][j] == Trim(t.rows[i][j])
  {
    PreviewComplete(t.rows, ColumnCount(t), 3);
  }

  /** The inner extraction loop of `processTable`: every cell of the row,
      trimmed, in order. */
  method ExtractRow(row: seq<string>) returns (rowData: seq<string>)
    ensures rowData == TrimAll(row)
  {
    rowData := [];
    for j := 0 to |row|
      invariant rowData == TrimAll(row[..j])
    {
      assert row[..j + 1] == row[..j] + [row[j]];
      rowData := rowData + [Trim(row[j])];
    }
    assert row[..|row|] == row;
  }

  /** `processTable`: null when the page has no table or the index names
      none; otherwise every row's cells, trimmed, neither padded nor cut,
      with the table's title. */
  method ProcessTable(tables: seq<Table>, tableIndex: int, format: string) returns (result: Option<Extraction>)
    ensures result.Some? <==> 0 <= tableIndex < |tables|
    ensures result.Some? ==>
      var t, d := tables[tableIndex], result.value.data;
      && |d| == |t.rows|
      && (forall i :: 0 <= i < |d| ==> |d[i]| == |t.rows[i]|)
      && (forall i, j :: 0 <= i < |d| && 0 <= j < |d[i]| ==> d[i][j] == Trim(t.rows[i][j]))
      && TitledBy(result.value.title, t, "Table_" + NatToString(tableIndex + 1))
      && result.value.title != ""
      && result.value.format == format
  {
    if |tables| == 0 {
      return None;
    }
    if !(0 <= tableIndex < |tables|) {
      return None;
    }
    var table := tables[tableIndex];
    var data: seq<seq<string>> := [];
    for i := 0 to |table.rows|
      invariant |data| == i
      invariant forall k :: 0 <= k < i ==> data[k] == TrimAll(table.rows[k])
    {
      var rowData := ExtractRow(table.rows[i]);
      data := data + [rowData];
    }
    var caption := CaptionText(table);
    var title := HeadingText(table);
    var tableTitle := ResolveTitle(title, caption, "Table_" + NatToString(tableIndex + 1));
    return Some(Extraction(data, tableTitle, format));
  }

  /** A cell is enclosed in quotes when it holds a comma, a double quote or
      a line feed. */
  predicate NeedsQuoting(cell: string)
  {
    Comma in cell || Quote in cell || LineFeed in cell
  }

  /** One cell as the quote-when-needed writer writes it. */
  function CsvField(cell: string): string
  {
    if NeedsQuoting(cell) then EscapedField(cell) else cell
  }

  /** `convertToCSV`: cells joined by commas, rows by line feeds. */
  function ConvertToCsv(data: seq<seq<string>>): string
  {
    Join(seq(|data|, i requires 0 <= i < |data| =>
           Join(seq(|data[i]|, j requires 0 <= j < |data[i]| => CsvField(data[i][j])), [Comma])),
         [LineFeed])
  }

  /** The quoting policy: a cell is written enclosed in quotes exactly when
      it holds a comma, quote or line feed, and is otherwise written
      unchanged; either way it reads back as itself. */
  lemma CsvFieldPolicy(cell: string)
    ensures (CsvField(cell) != [] && CsvField(cell)[0] == Quote) <==> NeedsQuoting(cell)
    ensures !NeedsQuoting(cell) ==> CsvField(cell) == cell
    ensures FieldEncodes(CsvField(cell), cell)
  {
    if !NeedsQuoting(cell) && cell != [] {
      assert cell[0] in cell;
    }
  }

  /** The quote-when-needed writer is the reference writer of RFC 4180 with
      fields escaped only when they must be. */
  lemma ConvertToCsvIsWrite(data: seq<seq<string>>)
    ensures ConvertToCsv(data) == Write(CsvField, data)
  {
    var lines := seq(|data|, i requires 0 <= i < |data| =>
                   Join(seq(|data[i]|, j requires 0 <= j < |data[i]| => CsvField(data[i][j])), [Comma]));
    forall i | 0 <= i < |data|
      ensures lines[i] == WriteRecord(CsvField, data[i])
    {
      var fields := seq(|data[i]|, j requires 0 <= j < |data[i]| => CsvField(data[i][j]));
      assert fields == WriteFields(CsvField, data[i]);
      assert lines[i] == Join(fields, [Comma]);
    }
    assert lines == WriteLines(CsvField, data);
  }

  /** Reading the text back under RFC 4180 gives the grid again, provided no
      row is empty and the last row is not a single empty cell (which is
      written as nothing at all). */
  lemma {:induction false} ConvertToCsvRoundTrip(data: seq<seq<string>>)
    requires forall i :: 0 <= i < |data| ==> |data[i]| > 0
    requires data == [] || data[|data| - 1] != [""]
    ensures Parse(ConvertToCsv(data)) == Some(data)
  {
    ConvertToCsvIsWrite(data);
    forall f ensures FieldEncodes(CsvField(f), f) {
      CsvFieldPolicy(f);
    }
    if data != [] {
      var last := data[|data| - 1];
      var fields := WriteFields(CsvField, last);
      if |last| == 1 {
        assert WriteRecord(CsvField, last) == CsvField(last[0]);
      } else {
        assert WriteRecord(CsvField, last) == fields[0] + [Comma] + Join(fields[1..], [Comma]);
      }
    }
    WriteRoundTrip(CsvField, data);
  }

  /** Why the round trip needs its last condition: a grid whose only row is
      one empty cell is written exactly as the empty grid is. */
  lemma EmptyCellRowIsLost()
    ensures ConvertToCsv([[""]]) == ConvertToCsv([]) == ""
    ensures Parse(ConvertToCsv([[""]])) == Some([])
  {
    assert CsvField("") == "";
  }

  /** The JSON mapping: an array of row objects, or the grid itself. */
  datatype Json = ObjectArray(objects: seq<map<string, string>>) | GridArray(rows: seq<seq<string>>)

  /** The one key whose assignment on a plain object does not create a
      property: `__proto__` goes to the prototype setter, which ignores a
      string value. */
  const ProtoKey: string := "__proto__"

  /** `obj[key] = value` on a plain object. */
  function SetProperty(obj: map<string, string>, key: string, value: string): map<string, string>
  {
    if key == ProtoKey then obj else obj[key := value]
  }

  /** The object built for `row` after the first `n` header positions: each
      header position that the row reaches sets that header to the cell. */
  function RowObject(headers: seq<string>, row: seq<string>, n: nat): map<string, string>
    requires n <= |headers|
  {
    if n == 0 then map[]
    else
      var obj := RowObject(headers, row, n - 1);
      if n - 1 < |row| then SetProperty(obj, headers[n - 1], row[n - 1]) else obj
  }

  /** `convertToJSON` up to serialisation: with a header row and at least one
      more, one object per further row; otherwise the grid as it is. */
  method ConvertToJson(data: seq<seq<string>>) returns (json: Json)
    ensures |data| > 1 ==> json.ObjectArray? && |json.objects| == |data| - 1
    ensures |data| > 1 ==> forall i :: 0 <= i < |data| - 1 ==>
      json.objects[i] == RowObject(data[0], data[i + 1], |data[0]|)
    ensures |data| <= 1 ==> json == GridArray(data)
  {
    if |data| > 1 {
      var headers := data[0];
      var jsonData: seq<map<string, string>> := [];
      for i := 1 to |data|
        invariant |jsonData| == i - 1
        invariant forall k :: 0 <= k < i - 1 ==> jsonData[k] == RowObject(headers, data[k + 1], |headers|)
      {
        var row := data[i];
        var rowObject: map<string, string> := map[];
        for j := 0 to |headers|
          invariant rowObject == RowObject(headers, row, j)
        {
          if j < |row| {
            rowObject := SetProperty(rowObject, headers[j], row[j]);
          }
        }
        jsonData := jsonData + [rowObject];
      }
      return ObjectArray(jsonData);
    }
    return GridArray(data);
  }

  /** The keys of a row object are the headers at the positions that both
      the header row and the row reach (except `__proto__`). */
  lemma {:induction false} RowObjectKeys(headers: seq<string>, row: seq<string>, n: nat, key: string)
    requires n <= |headers|
    ensures key in RowObject(headers, row, n) <==>
      key != ProtoKey && exists j :: 0 <= j < Min(n, |row|) && headers[j] == key
  {
    if n > 0 {
      RowObjectKeys(headers, row, n - 1, key);
      if key in RowObject(headers, row, n) && key !in RowObject(headers, row, n - 1) {
        assert headers[n - 1] == key;
      }
    }
  }

  /** A header that occurs more than once takes the cell of its last
      position the row reaches: a later duplicate overwrites an earlier one. */
  lemma {:induction false} RowObjectLastWins(headers: seq<string>, row: seq<string>, n: nat, j: nat)
    requires n <= |headers| && j < Min(n, |row|)
    requires headers[j] != ProtoKey
    requires forall l :: j < l < Min(n, |row|) ==> headers[l] != headers[j]
    ensures headers[j] in RowObject(headers, row, n)
    ensures RowObject(headers, row, n)[headers[j]] == row[j]
  {
    if n - 1 > j {
      RowObjectLastWins(headers, row, n - 1, j);
    }
  }
}
