/** `createSheetWithFormulas` and `addStylingToSheet` of `utils/export-excel.js`: the row
    matrix of a parsed table, the sheet the spreadsheet library makes of it (a map from
    (row, column) to a cell), the formulas placed on it in place, and the column widths. */
module DataSheet {
  import opened Wrappers
  import SheetReader

  /** An entry of the row matrix: a text, or `null`. */
  datatype Item = Entry(text: string) | Nothing

  /** `row[header] !== undefined ? row[header] : ""`. */
  function ItemOf(r: SheetReader.Record, key: string): Item {
    if key !in r then Entry("") else if r[key].None? then Nothing else Entry(r[key].value)
  }

  function HeaderRow(headers: seq<string>): seq<Item> {
    seq(|headers|, j requires 0 <= j < |headers| => Entry(headers[j]))
  }

  function RecordRow(headers: seq<string>, r: SheetReader.Record): seq<Item> {
    seq(|headers|, j requires 0 <= j < |headers| => ItemOf(r, headers[j]))
  }

  /** `rows`: the header keys, then one row per record in header order; a missing value
      becomes the empty text and a `null` stays `null`. */
  function Matrix(t: SheetReader.Table): (rows: seq<seq<Item>>)
    ensures |rows| == |t.data| + 1
    ensures forall i :: 0 <= i < |rows| ==> |rows[i]| == |t.headers|
    ensures forall j :: 0 <= j < |t.headers| ==> rows[0][j] == Entry(t.headers[j])
    ensures forall i, j :: 0 <= i < |t.data| && 0 <= j < |t.headers| ==>
              && (t.headers[j] !in t.data[i] ==> rows[i + 1][j] == Entry(""))
              && (rows[i + 1][j] == Nothing <==> t.headers[j] in t.data[i] && t.data[i][t.headers[j]].None?)
              && (t.headers[j] in t.data[i] && t.data[i][t.headers[j]].Some? ==>
                    rows[i + 1][j] == Entry(t.data[i][t.headers[j]].value))
  {
    [HeaderRow(t.headers)] + seq(|t.data|, i requires 0 <= i < |t.data| => RecordRow(t.headers, t.data[i]))
  }

  /** `row[h.key] || ""` of the fallback sheet. */
  function FallbackText(r: SheetReader.Record, key: string): string {
    if key in r && r[key].Some? then r[key].value else ""
  }

  /** The fallback matrix: as `Matrix`, but every missing or `null` value is the empty text. */
  function FallbackMatrix(t: SheetReader.Table): (rows: seq<seq<Item>>)
    ensures |rows| == |t.data| + 1
    ensures forall i :: 0 <= i < |rows| ==> |rows[i]| == |t.headers|
    ensures forall i, j :: 0 <= i < |rows| && 0 <= j < |t.headers| ==> rows[i][j].Entry?
    ensures forall j :: 0 <= j < |t.headers| ==> rows[0][j] == Entry(t.headers[j])
    ensures forall i, j :: 0 <= i < |t.data| && 0 <= j < |t.headers| ==>
              && (t.headers[j] in t.data[i] && t.data[i][t.headers[j]].Some? ==>
                    rows[i + 1][j] == Entry(t.data[i][t.headers[j]].value))
              && (t.headers[j] !in t.data[i] || t.data[i][t.headers[j]].None? ==> rows[i + 1][j] == Entry(""))
  {
    [HeaderRow(t.headers)]
    + seq(|t.data|, i requires 0 <= i < |t.data| =>
            seq(|t.headers|, j requires 0 <= j < |t.headers| => Entry(FallbackText(t.data[i], t.headers[j]))))
  }

  // ---------------------------------------------------------------------------
  // Sheets

  datatype CellValue = StrCell(s: string) | NumCell(n: real)

  /** A sheet cell: its value and the formula set on it, if any. */
  datatype SheetCell = SheetCell(value: CellValue, formula: Option<string>)

  type Cells = map<(nat, nat), SheetCell>

  /** The cells `aoa_to_sheet` makes of a matrix: a text cell per text entry; `null`
      makes none. */
  function AoaCells(rows: seq<seq<Item>>): (cells: Cells)
    ensures forall i: nat, j: nat :: (i, j) in cells <==> i < |rows| && j < |rows[i]| && rows[i][j].Entry?
    ensures forall i: nat, j: nat :: (i, j) in cells ==> cells[(i, j)] == SheetCell(StrCell(rows[i][j].text), None)
  {
    map i: nat, j: nat | i < |rows| && j < |rows[i]| && rows[i][j].Entry? :: (i, j) := SheetCell(StrCell(rows[i][j].text), None)
  }

  /** The number of columns in the range of the sheet made of a matrix: the length of its
      longest row (0 when there is no range). */
  function Width(rows: seq<seq<Item>>): (w: nat)
    ensures forall i :: 0 <= i < |rows| ==> |rows[i]| <= w
    ensures w == 0 || exists i :: 0 <= i < |rows| && |rows[i]| == w
  {
    if rows == [] then 0
    else
      var w := Width(rows[..|rows| - 1]);
      assert forall i :: 0 <= i < |rows| - 1 ==> rows[..|rows| - 1][i] == rows[i];
      if |rows[|rows| - 1]| > w then |rows[|rows| - 1]| else w
  }

  /** The matrix range spans exactly the header columns. */
  lemma MatrixWidth(t: SheetReader.Table)
    ensures Width(Matrix(t)) == |t.headers|
  {
    var rows := Matrix(t);
    assert |rows[0]| == |t.headers|;
  }

  /** `{ wch: 15 }` for each of `n` columns. */
  function Widths(n: nat): (ws: seq<nat>)
    ensures |ws| == n && forall c :: 0 <= c < n ==> ws[c] == 15
  {
    seq(n, _ => 15)
  }

  /** A formula of `fileData.formulas`: the data row it belongs to, its column and its text. */
  datatype FormulaEntry = FormulaEntry(row: nat, column: string, formula: string)

  /** `headers.indexOf(col)`. */
  function IndexOf(headers: seq<string>, col: string): (r: int)
    ensures -1 <= r < |headers|
    ensures r == -1 <==> col !in headers
    ensures r >= 0 ==> headers[r] == col && forall j :: 0 <= j < r ==> headers[j] != col
  {
    if headers == [] then -1
    else if headers[0] == col then 0
    else
      var r := IndexOf(headers[1..], col);
      if r == -1 then -1 else r + 1
  }

  /** The cell a formula goes to: one row below its data row (the header row comes first),
      in the column of its header; none when the column is not a header. */
  function Target(headers: seq<string>, e: FormulaEntry): (t: Option<(nat, nat)>)
    ensures t.None? <==> e.column !in headers
    ensures t.Some? ==> t.value.0 == e.row + 1 && t.value.1 < |headers| && headers[t.value.1] == e.column
  {
    var c := IndexOf(headers, e.column);
    if c == -1 then None else Some((e.row + 1, c as nat))
  }

  /** The target cell, created as the number 0 when missing, gets the formula. */
  function WithFormula(cells: Cells, headers: seq<string>, e: FormulaEntry): Cells {
    match Target(headers, e)
    case None => cells
    case Some(key) =>
      var base := if key in cells then cells[key] else SheetCell(NumCell(0.0), None);
      cells[key := base.(formula := Some(e.formula))]
  }

  function WithFormulas(cells: Cells, headers: seq<string>, fs: seq<FormulaEntry>): Cells {
    if fs == [] then cells else WithFormula(WithFormulas(cells, headers, fs[..|fs| - 1]), headers, fs[|fs| - 1])
  }

  predicate Targets(headers: seq<string>, fs: seq<FormulaEntry>, key: (nat, nat)) {
    exists k :: 0 <= k < |fs| && Target(headers, fs[k]) == Some(key)
  }

  /** A cell no formula goes to is left as it was. */
  lemma {:induction false} FormulasElsewhere(cells: Cells, headers: seq<string>, fs: seq<FormulaEntry>, key: (nat, nat))
    requires !Targets(headers, fs, key)
    ensures key in WithFormulas(cells, headers, fs) <==> key in cells
    ensures key in cells ==> WithFormulas(cells, headers, fs)[key] == cells[key]
  {
    if fs != [] {
      var init := fs[..|fs| - 1];
      assert forall k :: 0 <= k < |init| ==> init[k] == fs[k];
      FormulasElsewhere(cells, headers, init, key);
    }
  }

  /** A cell some formula goes to exists afterwards, keeps its value (0 when it was
      created) and holds the formula of the last entry that goes to it. */
  lemma {:induction false} FormulaLands(cells: Cells, headers: seq<string>, fs: seq<FormulaEntry>, k: int)
    requires 0 <= k < |fs| && Target(headers, fs[k]).Some?
    requires forall k' :: k < k' < |fs| ==> Target(headers, fs[k']) != Target(headers, fs[k])
    ensures var key := Target(headers, fs[k]).value;
            var r := WithFormulas(cells, headers, fs);
            && key in r
            && r[key].value == (if key in cells then cells[key].value else NumCell(0.0))
            && r[key].formula == Some(fs[k].formula)
  {
    var key := Target(headers, fs[k]).value;
    var init := fs[..|fs| - 1];
    if k == |fs| - 1 {
      FormulaValue(cells, headers, init, key);
    } else {
      assert init[k] == fs[k];
      FormulaLands(cells, headers, init, k);
    }
  }

  /** Formulas never change the value of a cell, and a cell they create holds 0. */
  lemma {:induction false} FormulaValue(cells: Cells, headers: seq<string>, fs: seq<FormulaEntry>, key: (nat, nat))
    ensures var r := WithFormulas(cells, headers, fs);
            (key in cells ==> key in r && r[key].value == cells[key].value)
            && (key in r && key !in cells ==> r[key].value == NumCell(0.0))
  {
    if fs != [] {
      FormulaValue(cells, headers, fs[..|fs| - 1], key);
    }
  }

  /** The sheet `createSheetWithFormulas` returns. */
  datatype Sheet = Sheet(cells: Cells, cols: seq<nat>)

  /** The matrix sheet with its formulas and one width per column; when that sheet has no
      range (there are no headers) the styling step fails and the fallback sheet, without
      formulas or widths, is returned instead. */
  function CreateSheet(t: SheetReader.Table, formulas: seq<FormulaEntry>): Sheet {
    var rows := Matrix(t);
    if Width(rows) > 0 then Sheet(WithFormulas(AoaCells(rows), t.headers, formulas), Widths(Width(rows)))
    else Sheet(AoaCells(FallbackMatrix(t)), [])
  }

  /** One width of 15 per header, no cell at all for a table without headers, the header
      keys across the first row, and every data cell no formula goes to holding its value
      (none for `null`). */
  lemma SheetLayout(t: SheetReader.Table, formulas: seq<FormulaEntry>)
    ensures var s := CreateSheet(t, formulas);
            && |s.cols| == |t.headers|
            && (forall c :: 0 <= c < |s.cols| ==> s.cols[c] == 15)
            && (t.headers == [] ==> s.cells == map[])
            && (forall j: nat :: j < |t.headers| ==> (0, j) in s.cells && s.cells[(0, j)].value == StrCell(t.headers[j]))
  {
    var s := CreateSheet(t, formulas);
    var rows := Matrix(t);
    MatrixWidth(t);
    if t.headers != [] {
      forall j: nat | j < |t.headers|
        ensures (0, j) in s.cells && s.cells[(0, j)].value == StrCell(t.headers[j])
      {
        FormulaValue(AoaCells(rows), t.headers, formulas, (0, j));
      }
    } else {
      var f := FallbackMatrix(t);
      assert forall key :: key !in AoaCells(f);
    }
  }

  /** A data cell no formula goes to: present exactly when the value is not `null`,
      holding the value's text, or the empty text when the record has no such key. */
  lemma DataCell(t: SheetReader.Table, formulas: seq<FormulaEntry>, i: nat, j: nat)
    requires i < |t.data| && j < |t.headers|
    requires !Targets(t.headers, formulas, (i + 1, j))
    ensures var s := CreateSheet(t, formulas);
            var key := t.headers[j];
            && ((i + 1, j) in s.cells <==> !(key in t.data[i] && t.data[i][key].None?))
            && ((i + 1, j) in s.cells ==>
                  s.cells[(i + 1, j)] == SheetCell(StrCell(FallbackText(t.data[i], key)), None))
  {
    MatrixWidth(t);
    FormulasElsewhere(AoaCells(Matrix(t)), t.headers, formulas, (i + 1, j));
  }

  // ---------------------------------------------------------------------------
  // The sheet object

  /** A worksheet while it is being built: the library makes its cells from a matrix,
      then formulas are set on cells in place and the column widths are added. */
  class Worksheet {
    var cells: Cells
    /** Columns in the sheet range; 0 for a sheet without a range. */
    var width: nat
    /** `!cols`: the column widths. */
    var cols: seq<nat>

    /** `aoa_to_sheet(rows)`. */
    constructor FromRows(rows: seq<seq<Item>>)
      ensures cells == AoaCells(rows) && width == Width(rows) && cols == []
    {
      cells := AoaCells(rows);
      width := Width(rows);
      cols := [];
    }

    /** Sets one formula, creating its cell as the number 0 when it is missing. */
    method SetFormula(headers: seq<string>, e: FormulaEntry)
      modifies this
      ensures cells == WithFormula(old(cells), headers, e)
      ensures width == old(width) && cols == old(cols)
    {
      var c := IndexOf(headers, e.column);
      if c != -1 {
        var key := (e.row + 1, c as nat);
        if key !in cells {
          cells := cells[key := SheetCell(NumCell(0.0), None)];
        }
        cells := cells[key := cells[key].(formula := Some(e.formula))];
      }
    }

    /** Sets every formula in turn. */
    method ApplyFormulas(headers: seq<string>, fs: seq<FormulaEntry>)
      modifies this
      ensures cells == WithFormulas(old(cells), headers, fs)
      ensures width == old(width) && cols == old(cols)
    {
      var k := 0;
      while k < |fs|
        invariant 0 <= k <= |fs|
        invariant cells == WithFormulas(old(cells), headers, fs[..k])
        invariant width == old(width) && cols == old(cols)
      {
        SetFormula(headers, fs[k]);
        assert fs[..k + 1][..k] == fs[..k];
        k := k + 1;
      }
      assert fs[..|fs|] == fs;
    }

    /** `addStylingToSheet`: one width of 15 per column of the range. A sheet without a
        range makes the range decoding fail, reported as `false` with nothing changed. */
    method AddStyling() returns (ok: bool)
      modifies this
      ensures ok <==> old(width) > 0
      ensures ok ==> cols == Widths(width)
      ensures !ok ==> cols == old(cols)
      ensures cells == old(cells) && width == old(width)
    {
      if width == 0 {
        return false;
      }
      var widths: seq<nat> := [];
      var c := 0;
      while c < width
        invariant 0 <= c <= width
        invariant widths == Widths(c)
      {
        widths := widths + [15];
        c := c + 1;
      }
      cols := widths;
      return true;
    }
  }

  /** The matrix, built row by row. */
  method BuildMatrix(t: SheetReader.Table) returns (rows: seq<seq<Item>>)
    ensures rows == Matrix(t)
  {
    rows := [HeaderRow(t.headers)];
    var i := 0;
    while i < |t.data|
      invariant 0 <= i <= |t.data|
      invariant rows == Matrix(SheetReader.Table(t.headers, t.data[..i]))
    {
      var rowData := BuildRow(t.headers, t.data[i]);
      rows := rows + [rowData];
      i := i + 1;
    }
    assert t.data[..|t.data|] == t.data;
  }

  method BuildRow(headers: seq<string>, r: SheetReader.Record) returns (rowData: seq<Item>)
    ensures rowData == RecordRow(headers, r)
  {
    rowData := [];
    var j := 0;
    while j < |headers|
      invariant 0 <= j <= |headers|
      invariant rowData == RecordRow(headers[..j], r)
    {
      var header := headers[j];
      var item := if header in r then (if r[header].None? then Nothing else Entry(r[header].value)) else Entry("");
      rowData := rowData + [item];
      j := j + 1;
    }
    assert headers[..|headers|] == headers;
  }

  /** The fallback matrix, built row by row. */
  method BuildFallback(t: SheetReader.Table) returns (rows: seq<seq<Item>>)
    ensures rows == FallbackMatrix(t)
  {
    rows := [HeaderRow(t.headers)];
    var i := 0;
    while i < |t.data|
      invariant 0 <= i <= |t.data|
      invariant rows == FallbackMatrix(SheetReader.Table(t.headers, t.data[..i]))
    {
      var r := t.data[i];
      var rowData := seq(|t.headers|, j requires 0 <= j < |t.headers| => Entry(FallbackText(r, t.headers[j])));
      rows := rows + [rowData];
      i := i + 1;
    }
    assert t.data[..|t.data|] == t.data;
  }

  /** `createSheetWithFormulas`. */
  method CreateSheetWithFormulas(t: SheetReader.Table, formulas: seq<FormulaEntry>) returns (sheet: Worksheet)
    ensures fresh(sheet)
    ensures sheet.cells == CreateSheet(t, formulas).cells && sheet.cols == CreateSheet(t, formulas).cols
  {
    var rows := BuildMatrix(t);
    sheet := new Worksheet.FromRows(rows);
    sheet.ApplyFormulas(t.headers, formulas);
    var ok := sheet.AddStyling();
    if !ok {
      var data := BuildFallback(t);
      sheet := new Worksheet.FromRows(data);
    }
  }
}
