/** The table body that both spreadsheet-as-HTML writers emit: one `<tr>` per
    row and one `<td>` per cell, the cell text inserted verbatim (no entity
    escaping), and what that means for the markup when no cell holds `<`. */
module HtmlTable {
  import opened JsText

  /** `<td>${cell || ''}</td>`. */
  function CellHtml(c: Cell): string
  {
    "<td>" + CellText(c) + "</td>"
  }

  /** The cells of a row, in order; written from the back, the way the
      writers append them. */
  function CellsHtml(row: seq<Cell>): string
  {
    if row == [] then "" else CellsHtml(row[..|row| - 1]) + CellHtml(row[|row| - 1])
  }

  /** `<tr>`, the row's cells, `</tr>`. */
  function RowHtml(row: seq<Cell>): string
  {
    "<tr>" + CellsHtml(row) + "</tr>"
  }

  /** Every row of the grid, in order. */
  function RowsHtml(g: seq<seq<Cell>>): string
  {
    if g == [] then "" else RowsHtml(g[..|g| - 1]) + RowHtml(g[|g| - 1])
  }

  /** Appending one more cell to the markup of a row's first `j` cells. */
  lemma CellsHtmlStep(prefix: string, row: seq<Cell>, j: nat, before: string, after: string)
    requires j < |row|
    requires before == prefix + CellsHtml(row[..j])
    requires after == before + "<td>" + CellText(row[j]) + "</td>"
    ensures after == prefix + CellsHtml(row[..j + 1])
  {
    assert row[..j + 1][..j] == row[..j];
    assert CellsHtml(row[..j + 1]) == CellsHtml(row[..j]) + CellHtml(row[j]);
    Concat4(prefix + CellsHtml(row[..j]), "<td>", CellText(row[j]), "</td>");
    Concat3(prefix, CellsHtml(row[..j]), CellHtml(row[j]));
  }

  /** Appending one more row to the markup of the first `i` rows. */
  lemma RowsHtmlStep(prefix: string, g: seq<seq<Cell>>, i: nat, before: string, after: string)
    requires i < |g|
    requires before == prefix + RowsHtml(g[..i])
    requires after == before + "<tr>" + CellsHtml(g[i]) + "</tr>"
    ensures after == prefix + RowsHtml(g[..i + 1])
  {
    assert g[..i + 1][..i] == g[..i];
    assert RowsHtml(g[..i + 1]) == RowsHtml(g[..i]) + RowHtml(g[i]);
    Concat4(prefix + RowsHtml(g[..i]), "<tr>", CellsHtml(g[i]), "</tr>");
    Concat3(prefix, RowsHtml(g[..i]), RowHtml(g[i]));
  }

  /** Regrouping three appended pieces. The step lemmas above hold
      without these regroupings, but naming them keeps those proofs cheap. */
  lemma Concat3(a: string, b: string, c: string)
    ensures a + b + c == a + (b + c)
  {
  }

  /** Regrouping four appended pieces. */
  lemma Concat4(a: string, b: string, c: string, d: string)
    ensures a + b + c + d == a + (b + c + d)
  {
  }

  /** `row.forEach(cell => { html += `<td>${cell || ''}</td>`; })`: appends
      the row's cells to the markup built so far. */
  method AppendCells(prefix: string, row: seq<Cell>) returns (html: string)
    ensures html == prefix + CellsHtml(row)
  {
    html := prefix;
    for j := 0 to |row|
      invariant html == prefix + CellsHtml(row[..j])
    {
      ghost var before := html;
      html := html + "<td>" + CellText(row[j]) + "</td>";
      CellsHtmlStep(prefix, row, j, before, html);
    }
    assert row[..|row|] == row;
  }

  /** `data.forEach(row => { html += '<tr>'; ...; html += '</tr>'; })`:
      appends every row to the markup built so far. */
  method AppendRows(prefix: string, data: seq<seq<Cell>>) returns (html: string)
    ensures html == prefix + RowsHtml(data)
  {
    html := prefix;
    for i := 0 to |data|
      invariant html == prefix + RowsHtml(data[..i])
    {
      ghost var before := html;
      html := html + "<tr>";
      html := AppendCells(html, data[i]);
      html := html + "</tr>";
      RowsHtmlStep(prefix, data, i, before, html);
    }
    assert data[..|data|] == data;
  }

  /** What closes both documents. */
  const TableEnd: string := "</table></body></html>"

  /** The number of cells in a grid. */
  function TotalCells(g: seq<seq<Cell>>): nat
  {
    if g == [] then 0 else TotalCells(g[..|g| - 1]) + |g[|g| - 1]|
  }

  /** No cell text holds a `<`. */
  predicate NoMarkupInCells(g: seq<seq<Cell>>)
  {
    forall i, j :: 0 <= i < |g| && 0 <= j < |g[i]| ==> '<' !in CellText(g[i][j])
  }

  /** The number of positions at which `p` occurs in `s`. */
  function CountOcc(p: string, s: string): nat
    requires |p| > 0
    decreases |s|
  {
    if |s| < |p| then 0 else (if s[..|p|] == p then 1 else 0) + CountOcc(p, s[1..])
  }

  /** A tag opening such as `<td>`: a `<` and no other. */
  predicate IsTagOpen(p: string)
  {
    |p| > 0 && p[0] == '<' && forall i :: 1 <= i < |p| ==> p[i] != '<'
  }

  /** A tag opening cannot straddle a split point that is followed by `<`. */
  lemma {:induction false} CountSplit(p: string, a: string, b: string)
    requires IsTagOpen(p)
    requires b == [] || b[0] == '<'
    ensures CountOcc(p, a + b) == CountOcc(p, a) + CountOcc(p, b)
  {
    if a == [] {
      assert a + b == b;
    } else {
      assert (a + b)[1..] == a[1..] + b;
      CountSplit(p, a[1..], b);
      if |a| < |p| {
        assert CountOcc(p, a[1..]) == 0;
        if |a + b| >= |p| {
          assert (a + b)[..|p|][|a|] != p[|a|];
        }
      } else {
        assert (a + b)[..|p|] == a[..|p|];
      }
    }
  }

  /** A tag opening does not occur in text without `<`. */
  lemma {:induction false} CountNoMarkup(p: string, s: string)
    requires IsTagOpen(p)
    requires '<' !in s
    ensures CountOcc(p, s) == 0
  {
    if |s| >= |p| {
      assert s[..|p|][0] != p[0];
      CountNoMarkup(p, s[1..]);
    }
  }

  /** A single tag followed by plain text holds `p` once if it starts with
      `p`, and not at all otherwise. */
  lemma {:induction false} CountOneTag(p: string, tag: string, text: string)
    requires IsTagOpen(p)
    requires |tag| >= |p| && tag[0] == '<' && '<' !in tag[1..] && '<' !in text
    ensures CountOcc(p, tag + text) == if tag[..|p|] == p then 1 else 0
  {
    var s := tag + text;
    assert s[..|p|] == tag[..|p|];
    assert s[1..] == tag[1..] + text;
    CountNoMarkup(p, s[1..]);
  }

  /** Counting `<td>` and `<tr>` in one cell. */
  lemma {:induction false} CellCounts(c: Cell)
    requires '<' !in CellText(c)
    ensures CountOcc("<td>", CellHtml(c)) == 1
    ensures CountOcc("<tr>", CellHtml(c)) == 0
  {
    var td, tr, close := "<td>", "<tr>", "</td>";
    var open := td + CellText(c);
    assert CellHtml(c) == open + close;
    assert td[1..] == "td>" && close[1..] == "/td>" && td[..4] == td;
    assert td[..4] != tr by { assert td[2] != tr[2]; }
    assert close[..4] != td && close[..4] != tr by { assert close[1] == '/'; }
    assert close + "" == close;
    CountSplit(td, open, close);
    CountOneTag(td, td, CellText(c));
    CountOneTag(td, close, "");
    CountSplit(tr, open, close);
    CountOneTag(tr, td, CellText(c));
    CountOneTag(tr, close, "");
  }

  /** Every cell of a row gives one `<td>` and no `<tr>`. */
  lemma {:induction false} CellsCounts(row: seq<Cell>)
    requires forall j :: 0 <= j < |row| ==> '<' !in CellText(row[j])
    ensures CellsHtml(row) == [] || CellsHtml(row)[0] == '<'
    ensures CountOcc("<td>", CellsHtml(row)) == |row|
    ensures CountOcc("<tr>", CellsHtml(row)) == 0
  {
    if row != [] {
      var init, last := row[..|row| - 1], row[|row| - 1];
      CellsCounts(init);
      CellCounts(last);
      CountSplit("<td>", CellsHtml(init), CellHtml(last));
      CountSplit("<tr>", CellsHtml(init), CellHtml(last));
      if CellsHtml(init) == [] {
        assert CellsHtml(row) == CellHtml(last);
      }
    }
  }

  /** Markup enclosed between two single tags, split at the `<` of each. */
  lemma {:induction false} WrapCount(p: string, open: string, mid: string, close: string)
    requires IsTagOpen(p)
    requires |open| >= |p| && open[0] == '<' && '<' !in open[1..]
    requires |close| >= |p| && close[0] == '<' && '<' !in close[1..]
    requires mid == [] || mid[0] == '<'
    ensures CountOcc(p, open + mid + close)
         == (if open[..|p|] == p then 1 else 0) + CountOcc(p, mid) + (if close[..|p|] == p then 1 else 0)
  {
    assert open + mid + close == open + (mid + close);
    assert (mid + close)[0] == '<';
    CountSplit(p, open, mid + close);
    CountSplit(p, mid, close);
    CountOneTag(p, open, "");
    CountOneTag(p, close, "");
    assert open + "" == open && close + "" == close;
  }

  /** A row gives one `<td>` per cell and exactly one `<tr>`. */
  lemma {:induction false} RowCounts(row: seq<Cell>)
    requires forall j :: 0 <= j < |row| ==> '<' !in CellText(row[j])
    ensures CountOcc("<td>", RowHtml(row)) == |row|
    ensures CountOcc("<tr>", RowHtml(row)) == 1
  {
    CellsCounts(row);
    var open, close := "<tr>", "</tr>";
    assert open[1..] == "tr>" && close[1..] == "/tr>";
    assert open[..4] == "<tr>";
    assert close[..4] != "<tr>" && close[..4] != "<td>" by { assert close[1] == '/'; }
    WrapCount("<td>", open, CellsHtml(row), close);
    WrapCount("<tr>", open, CellsHtml(row), close);
  }

  /** When no cell holds `<`, the table body has exactly one `<td>` per cell
      and one `<tr>` per row: the markup is not disturbed by cell text. */
  lemma {:induction false} RowsCounts(g: seq<seq<Cell>>)
    requires NoMarkupInCells(g)
    ensures RowsHtml(g) == [] || RowsHtml(g)[0] == '<'
    ensures CountOcc("<td>", RowsHtml(g)) == TotalCells(g)
    ensures CountOcc("<tr>", RowsHtml(g)) == |g|
  {
    if g != [] {
      var init, last := g[..|g| - 1], g[|g| - 1];
      assert forall j :: 0 <= j < |last| ==> '<' !in CellText(last[j]) by {
        forall j | 0 <= j < |last| ensures '<' !in CellText(last[j]) {
          assert last[j] == g[|g| - 1][j];
        }
      }
      RowsCounts(init);
      RowCounts(last);
      CountSplit("<td>", RowsHtml(init), RowHtml(last));
      CountSplit("<tr>", RowsHtml(init), RowHtml(last));
      if RowsHtml(init) == [] {
        assert RowsHtml(g) == RowHtml(last);
      }
    }
  }
}
