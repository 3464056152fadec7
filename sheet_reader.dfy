/** The table extraction of `parseExcelFile` in `utils/excel-parser.js`: header-row
    detection, header cleaning and record building over the rows that the spreadsheet
    library yields for the first sheet (`sheet_to_json` with `header: 1`,
    `raw: false`, `defval: null`). */
module SheetReader {
  import opened Wrappers
  import opened JsText

  /** One cell as the library yields it with `raw: false`: its formatted text, or null. */
  type Cell = Option<string>
  type Row = seq<Cell>

  /** One data row keyed by header: a missing key reads as undefined, a present key
      holds the cell (text or null). */
  type Record = map<string, Cell>

  /** A sheet's name and its rows. */
  datatype Sheet = Sheet(name: string, rows: seq<Row>)

  /** The extracted table: the kept header keys in order (duplicates kept) and the records. */
  datatype Table = Table(headers: seq<string>, data: seq<Record>)

  datatype ParsedFile = ParsedFile(sheetName: string, table: Table)

  datatype ParseError = NoSheets

  /** The keywords that mark a header row, matched case-sensitively as substrings. */
  const HeaderKeywords: seq<string> := ["Matricule", "matricule", "ID", "Id", "id", "Code"]

  /** Only the first ten rows are searched for a header row. */
  const MaxHeaderRows: nat := 10

  function Min(a: nat, b: nat): nat {
    if a < b then a else b
  }

  predicate CellHasKeyword(c: Cell) {
    c.Some? && ContainsAny(c.value, HeaderKeywords)
  }

  predicate HasKeyword(row: Row) {
    exists j :: 0 <= j < |row| && CellHasKeyword(row[j])
  }

  /** The first row at or after `i`, among the first ten, that has a keyword cell; 0 when
      there is none. */
  function HeaderRowFrom(rows: seq<Row>, i: nat): nat
    decreases Min(MaxHeaderRows, |rows|) - i
  {
    if i >= Min(MaxHeaderRows, |rows|) then 0
    else if HasKeyword(rows[i]) then i
    else HeaderRowFrom(rows, i + 1)
  }

  function HeaderRow(rows: seq<Row>): nat {
    HeaderRowFrom(rows, 0)
  }

  /** `HeaderRow` is the smallest index below min(10, |rows|) whose row has a keyword
      cell, and 0 when there is none; it is a valid index into non-empty input. */
  lemma HeaderRowIsFirst(rows: seq<Row>)
    ensures var h := HeaderRow(rows);
      && (rows != [] ==> h < |rows|)
      && (forall i :: 0 <= i < h ==> !HasKeyword(rows[i]))
      && (h > 0 ==> h < MaxHeaderRows && HasKeyword(rows[h]))
      && (h == 0 ==> (rows != [] && HasKeyword(rows[0]))
                     || forall i :: 0 <= i < Min(MaxHeaderRows, |rows|) ==> !HasKeyword(rows[i]))
  {
    HeaderRowFromIsFirst(rows, 0);
  }

  lemma {:induction false} HeaderRowFromIsFirst(rows: seq<Row>, i: nat)
    requires i <= Min(MaxHeaderRows, |rows|)
    requires forall k :: 0 <= k < i ==> !HasKeyword(rows[k])
    ensures var h := HeaderRowFrom(rows, i);
      && (rows != [] ==> h < |rows|)
      && (forall k :: 0 <= k < h ==> !HasKeyword(rows[k]))
      && (h > 0 ==> h < MaxHeaderRows && HasKeyword(rows[h]))
      && (h == 0 ==> (rows != [] && HasKeyword(rows[0]))
                     || forall k :: 0 <= k < Min(MaxHeaderRows, |rows|) ==> !HasKeyword(rows[k]))
    decreases Min(MaxHeaderRows, |rows|) - i
  {
    if i < Min(MaxHeaderRows, |rows|) && !HasKeyword(rows[i]) {
      HeaderRowFromIsFirst(rows, i + 1);
    }
  }

  /** `detectHeaderRow`: scans the first ten rows, cell by cell and keyword by keyword,
      and returns at the first match. */
  method DetectHeaderRow(rows: seq<Row>) returns (r: nat)
    ensures r == HeaderRow(rows)
  {
    var i := 0;
    while i < Min(MaxHeaderRows, |rows|)
      invariant i <= Min(MaxHeaderRows, |rows|)
      invariant HeaderRowFrom(rows, i) == HeaderRow(rows)
    {
      var row := rows[i];
      var j := 0;
      while j < |row|
        invariant j <= |row|
        invariant forall k :: 0 <= k < j ==> !CellHasKeyword(row[k])
      {
        var cell := row[j];
        if cell.Some? && cell.value != "" {
          var w := 0;
          while w < |HeaderKeywords|
            invariant w <= |HeaderKeywords|
            invariant forall k :: 0 <= k < w ==> !Contains(cell.value, HeaderKeywords[k])
          {
            if Contains(cell.value, HeaderKeywords[w]) {
              assert CellHasKeyword(row[j]);
              assert HasKeyword(rows[i]);
              return i;
            }
            w := w + 1;
          }
        } else if cell.Some? {
          EmptyHasNoKeyword();
        }
        j := j + 1;
      }
      i := i + 1;
    }
    return 0;
  }

  lemma EmptyHasNoKeyword()
    ensures !ContainsAny("", HeaderKeywords)
  {
    forall k | k in HeaderKeywords ensures !Contains("", k) {
    }
  }

  // ---------------------------------------------------------------------------
  // Header cleaning

  /** The placeholder for a blank header: a space and the column index. */
  function Placeholder(index: nat): string {
    " " + NatToString(index)
  }

  predicate IsBlank(c: Cell) {
    c.None? || Trim(c.value) == []
  }

  /** `cleanHeaders`: blank headers become their placeholder, the others are trimmed. */
  function CleanHeaders(raw: seq<Cell>): (r: seq<string>)
    ensures |r| == |raw|
    ensures forall i :: 0 <= i < |raw| && IsBlank(raw[i]) ==> r[i] == Placeholder(i)
    ensures forall i :: 0 <= i < |raw| && !IsBlank(raw[i]) ==> r[i] == Trim(raw[i].value)
  {
    seq(|raw|, i requires 0 <= i < |raw| => if IsBlank(raw[i]) then Placeholder(i) else Trim(raw[i].value))
  }

  /** The test `/^\s*\d+\s*$/`: optional `\s`, at least one digit, optional `\s`. */
  predicate IsNumericKey(s: string) {
    var t := Trim(s);
    |t| > 0 && AllDigits(t)
  }

  /** A placeholder is always a numeric key, so blank headers never survive. */
  lemma PlaceholderIsNumeric(index: nat)
    ensures IsNumericKey(Placeholder(index))
  {
    var d := NatToString(index);
    var p := " " + d;
    assert p[1..] == d;
    assert TrimStart(p) == TrimStart(d);
    DigitNotSpace(d[0]);
    DigitNotSpace(d[|d| - 1]);
    assert TrimStart(d) == d;
    TrimUnchanged(d);
  }

  /** The headers `extractDataWithCleanHeaders` reports: every cleaned header that is not
      a numeric key, in order. */
  function ReportedHeaders(clean: seq<string>): (r: seq<string>)
    ensures forall h :: h in r ==> h in clean && !IsNumericKey(h)
    ensures forall h :: h in clean && !IsNumericKey(h) ==> h in r
    ensures |r| <= |clean|
  {
    if clean == [] then []
    else
      var rest := ReportedHeaders(clean[..|clean| - 1]);
      var h := clean[|clean| - 1];
      assert forall x :: x in clean[..|clean| - 1] ==> x in clean;
      assert forall x :: x in clean ==> x in clean[..|clean| - 1] || x == h;
      if IsNumericKey(h) then rest else rest + [h]
  }

  /** A cleaned header that becomes a record key: non-empty and not a numeric key. */
  predicate KeptKey(h: string) {
    h != [] && !IsNumericKey(h)
  }

  /** Exactly the non-blank headers, trimmed, that are not made of digits are reported;
      the placeholders of blank headers are never reported. */
  lemma {:induction false} ReportedAreNonBlank(raw: seq<Cell>)
    ensures ReportedHeaders(CleanHeaders(raw)) == TrimmedNonNumeric(raw)
  {
    if raw != [] {
      var c := CleanHeaders(raw);
      var last := |raw| - 1;
      assert c[..last] == CleanHeaders(raw[..last]);
      ReportedAreNonBlank(raw[..last]);
      if IsBlank(raw[last]) {
        PlaceholderIsNumeric(last);
      }
    }
  }

  /** The non-blank header texts, trimmed, that are not numeric keys, in order. */
  function TrimmedNonNumeric(raw: seq<Cell>): seq<string> {
    if raw == [] then []
    else
      var rest := TrimmedNonNumeric(raw[..|raw| - 1]);
      var c := raw[|raw| - 1];
      if IsBlank(c) || IsNumericKey(Trim(c.value)) then rest else rest + [Trim(c.value)]
  }

  /** Every cleaned header is non-empty, so for cleaned headers being reported and
      becoming a record key are the same test. */
  lemma CleanHeadersKept(raw: seq<Cell>)
    ensures forall i :: 0 <= i < |raw| ==> (KeptKey(CleanHeaders(raw)[i]) <==> !IsNumericKey(CleanHeaders(raw)[i]))
  {
  }

  // ---------------------------------------------------------------------------
  // Records

  /** The cell under column `j`: null beyond the row's length. */
  function CellAt(row: Row, j: nat): Cell {
    if j < |row| then row[j] else None
  }

  /** Whether each cleaned header becomes a record key. */
  function KeptFlags(clean: seq<string>): (kept: seq<bool>)
    ensures |kept| == |clean|
  {
    if clean == [] then [] else KeptFlags(clean[..|clean| - 1]) + [KeptKey(clean[|clean| - 1])]
  }

  lemma {:induction false} KeptFlagsAt(clean: seq<string>, i: nat)
    requires i < |clean|
    ensures KeptFlags(clean)[i] == KeptKey(clean[i])
  {
    if i < |clean| - 1 {
      KeptFlagsAt(clean[..|clean| - 1], i);
    }
  }

  /** The record the inner loop builds from the first `n` headers: for each kept header,
      in order, the key is (re)assigned, so a repeated header holds its last column. */
  function RecordUpTo(clean: seq<string>, kept: seq<bool>, row: Row, n: nat): Record
    requires n <= |clean| == |kept|
  {
    if n == 0 then map[]
    else
      var m := RecordUpTo(clean, kept, row, n - 1);
      if kept[n - 1] then m[clean[n - 1] := CellAt(row, n - 1)] else m
  }

  function RecordOf(clean: seq<string>, row: Row): Record {
    RecordUpTo(clean, KeptFlags(clean), row, |clean|)
  }

  lemma {:induction false} KeysUpTo(clean: seq<string>, kept: seq<bool>, row: Row, n: nat)
    requires n <= |clean| == |kept|
    ensures forall k :: k in RecordUpTo(clean, kept, row, n) <==> exists i :: 0 <= i < n && kept[i] && clean[i] == k
  {
    if n > 0 {
      KeysUpTo(clean, kept, row, n - 1);
      var prev := RecordUpTo(clean, kept, row, n - 1);
      var m := RecordUpTo(clean, kept, row, n);
      assert m == if kept[n - 1] then prev[clean[n - 1] := CellAt(row, n - 1)] else prev;
      forall k | k in m ensures exists i :: 0 <= i < n && kept[i] && clean[i] == k {
        if !(kept[n - 1] && clean[n - 1] == k) {
          assert k in prev;
          var i :| 0 <= i < n - 1 && kept[i] && clean[i] == k;
        }
      }
      forall k | exists i :: 0 <= i < n && kept[i] && clean[i] == k ensures k in m {
        var i :| 0 <= i < n && kept[i] && clean[i] == k;
        if i < n - 1 {
          assert k in prev;
        }
      }
    }
  }

  /** The keys of a record are exactly the kept headers. */
  lemma RecordKeys(clean: seq<string>, row: Row)
    ensures forall k :: k in RecordOf(clean, row) <==> k in clean && KeptKey(k)
  {
    var kept := KeptFlags(clean);
    KeysUpTo(clean, kept, row, |clean|);
    forall k | k in clean && KeptKey(k) ensures k in RecordOf(clean, row) {
      var i :| 0 <= i < |clean| && clean[i] == k;
      KeptFlagsAt(clean, i);
    }
    forall k | k in RecordOf(clean, row) ensures k in clean && KeptKey(k) {
      var i :| 0 <= i < |clean| && kept[i] && clean[i] == k;
      KeptFlagsAt(clean, i);
    }
  }

  lemma {:induction false} ValueUpTo(clean: seq<string>, kept: seq<bool>, row: Row, n: nat, j: nat)
    requires j < n <= |clean| == |kept| && kept[j]
    requires forall k :: j < k < n ==> clean[k] != clean[j]
    ensures clean[j] in RecordUpTo(clean, kept, row, n)
    ensures RecordUpTo(clean, kept, row, n)[clean[j]] == CellAt(row, j)
  {
    if j < n - 1 {
      ValueUpTo(clean, kept, row, n - 1, j);
    }
  }

  /** A key holds the cell of the last column carrying that header. */
  lemma RecordValue(clean: seq<string>, row: Row, j: nat)
    requires j < |clean| && KeptKey(clean[j])
    requires forall k :: j < k < |clean| ==> clean[k] != clean[j]
    ensures clean[j] in RecordOf(clean, row)
    ensures RecordOf(clean, row)[clean[j]] == CellAt(row, j)
  {
    KeptFlagsAt(clean, j);
    ValueUpTo(clean, KeptFlags(clean), row, |clean|, j);
  }

  /** Every cell is null, or the row has no cells at all. */
  predicate BlankRow(row: Row) {
    forall j :: 0 <= j < |row| ==> row[j].None?
  }

  /** The records built from the data rows: blank rows are skipped, and so is a record
      without keys. */
  function Records(clean: seq<string>, rows: seq<Row>): seq<Record> {
    if rows == [] then []
    else
      var prev := Records(clean, rows[..|rows| - 1]);
      var row := rows[|rows| - 1];
      if BlankRow(row) then prev
      else
        var rec := RecordOf(clean, row);
        if |rec| > 0 then prev + [rec] else prev
  }

  /** Each record comes from a non-blank row and has at least one key,
      every key being a kept header. */
  lemma {:induction false} RecordsShape(clean: seq<string>, rows: seq<Row>)
    ensures |Records(clean, rows)| <= |rows|
    ensures forall r :: r in Records(clean, rows) ==>
              |r| > 0 && (exists row :: row in rows && !BlankRow(row) && r == RecordOf(clean, row))
    ensures forall r, k :: r in Records(clean, rows) && k in r ==> k in clean && KeptKey(k)
  {
    if rows != [] {
      var init := rows[..|rows| - 1];
      var row := rows[|rows| - 1];
      RecordsShape(clean, init);
      RecordKeys(clean, row);
      assert forall x :: x in init ==> x in rows;
      forall r, k | r in Records(clean, rows) && k in r ensures k in clean && KeptKey(k) {
        if r !in Records(clean, init) {
          assert r == RecordOf(clean, row);
        }
      }
    }
  }

  /** A data row that yields a record: not blank, and with a cell under a kept header. */
  predicate KeptRow(clean: seq<string>, row: Row) {
    !BlankRow(row) && |RecordOf(clean, row)| > 0
  }

  /** The positions of the data rows that yield a record, in increasing order. */
  function KeptPositions(clean: seq<string>, rows: seq<Row>): seq<nat> {
    if rows == [] then []
    else
      KeptPositions(clean, rows[..|rows| - 1])
      + if KeptRow(clean, rows[|rows| - 1]) then [|rows| - 1] else []
  }

  predicate Increasing(ps: seq<nat>) {
    forall i, j :: 0 <= i < j < |ps| ==> ps[i] < ps[j]
  }

  /** The kept positions are increasing and name exactly the rows that yield a record. */
  lemma {:induction false} KeptPositionsExact(clean: seq<string>, rows: seq<Row>)
    ensures var ps := KeptPositions(clean, rows);
            && Increasing(ps)
            && (forall k :: 0 <= k < |ps| ==> ps[k] < |rows|)
            && (forall p :: p in ps <==> 0 <= p < |rows| && KeptRow(clean, rows[p]))
  {
    if rows != [] {
      var init := rows[..|rows| - 1];
      var n := |rows| - 1;
      KeptPositionsExact(clean, init);
      var ps0 := KeptPositions(clean, init);
      assert forall p :: 0 <= p < n ==> init[p] == rows[p];
      var ps := KeptPositions(clean, rows);
      assert ps == ps0 + if KeptRow(clean, rows[n]) then [n] else [];
    }
  }

  /** The `k`-th record is the record of the `k`-th kept row. */
  lemma {:induction false} RecordsAtPositions(clean: seq<string>, rows: seq<Row>)
    ensures var ps := KeptPositions(clean, rows);
            && (forall k :: 0 <= k < |ps| ==> ps[k] < |rows|)
            && |Records(clean, rows)| == |ps|
            && forall k :: 0 <= k < |ps| ==> Records(clean, rows)[k] == RecordOf(clean, rows[ps[k]])
  {
    if rows != [] {
      var init := rows[..|rows| - 1];
      var n := |rows| - 1;
      var row := rows[n];
      RecordsAtPositions(clean, init);
      var ps0 := KeptPositions(clean, init);
      var rs0 := Records(clean, init);
      assert forall p :: 0 <= p < n ==> init[p] == rows[p];
      var ps := KeptPositions(clean, rows);
      var rs := Records(clean, rows);
      if KeptRow(clean, row) {
        assert ps == ps0 + [n];
        assert rs == rs0 + [RecordOf(clean, row)];
      } else {
        assert ps == ps0;
        assert rs == rs0;
      }
    }
  }

  /** The records are exactly the records of the rows that yield one, one each, in row
      order: position `p` is listed exactly when row `p` is kept, and the `k`-th record
      is that of the `k`-th kept row. */
  lemma RecordsExact(clean: seq<string>, rows: seq<Row>)
    ensures var ps := KeptPositions(clean, rows);
            && Increasing(ps)
            && (forall p :: p in ps <==> 0 <= p < |rows| && KeptRow(clean, rows[p]))
            && |Records(clean, rows)| == |ps|
            && forall k :: 0 <= k < |ps| ==> ps[k] < |rows| && Records(clean, rows)[k] == RecordOf(clean, rows[ps[k]])
  {
    KeptPositionsExact(clean, rows);
    RecordsAtPositions(clean, rows);
  }

  /** The row index `extractDataWithCleanHeaders` uses: the requested one, or 0 when it
      is out of range. */
  function EffectiveHeaderRow(rows: seq<Row>, h: nat): nat {
    if h >= |rows| then 0 else h
  }

  function HeaderCells(rows: seq<Row>, h: nat): seq<Cell> {
    var e := EffectiveHeaderRow(rows, h);
    if e < |rows| then rows[e] else []
  }

  function DataRows(rows: seq<Row>, h: nat): seq<Row> {
    var e := EffectiveHeaderRow(rows, h);
    if e < |rows| then rows[e + 1..] else []
  }

  function Extracted(rows: seq<Row>, h: nat): Table {
    var clean := CleanHeaders(HeaderCells(rows, h));
    Table(ReportedHeaders(clean), Records(clean, DataRows(rows, h)))
  }

  /** The extracted table keeps only non-empty records from non-blank rows below the
      header row, every key of a record is one of the reported headers, and every row
      below the header row that yields a record has it in the table. */
  lemma ExtractedShape(rows: seq<Row>, h: nat)
    ensures |Extracted(rows, h).data| <= |DataRows(rows, h)|
    ensures forall r :: r in Extracted(rows, h).data ==>
              |r| > 0 &&
              (exists row :: row in DataRows(rows, h) && !BlankRow(row) &&
                 r == RecordOf(CleanHeaders(HeaderCells(rows, h)), row))
    ensures forall r, k :: r in Extracted(rows, h).data && k in r ==> k in Extracted(rows, h).headers
    ensures forall j :: 0 <= j < |DataRows(rows, h)| && KeptRow(CleanHeaders(HeaderCells(rows, h)), DataRows(rows, h)[j]) ==>
              RecordOf(CleanHeaders(HeaderCells(rows, h)), DataRows(rows, h)[j]) in Extracted(rows, h).data
  {
    var clean := CleanHeaders(HeaderCells(rows, h));
    var data := DataRows(rows, h);
    RecordsShape(clean, data);
    RecordsExact(clean, data);
    var ps := KeptPositions(clean, data);
    forall j | 0 <= j < |data| && KeptRow(clean, data[j]) ensures RecordOf(clean, data[j]) in Records(clean, data) {
      var k :| 0 <= k < |ps| && ps[k] == j;
      assert Records(clean, data)[k] == RecordOf(clean, data[j]);
    }
  }

  /** `extractDataWithCleanHeaders`: cleans the header row, then walks the rows below it,
      filling one record per row and keeping the non-empty ones. */
  method ExtractDataWithCleanHeaders(rows: seq<Row>, headerRowIndex: nat) returns (t: Table)
    ensures t == Extracted(rows, headerRowIndex)
  {
    var h := headerRowIndex;
    if h >= |rows| {
      h := 0;
    }
    var headersRaw := if h < |rows| then rows[h] else [];
    var headers := CleanHeaders(headersRaw);
    var data := CollectRecords(headers, rows, h + 1);
    t := Table(ReportedHeaders(headers), data);
    ExtractedAt(rows, headerRowIndex, h);
  }

  /** `Extracted` spelled out at the header row actually used. */
  lemma ExtractedAt(rows: seq<Row>, headerRowIndex: nat, h: nat)
    requires h == EffectiveHeaderRow(rows, headerRowIndex)
    ensures var clean := CleanHeaders(if h < |rows| then rows[h] else []);
            Extracted(rows, headerRowIndex)
            == Table(ReportedHeaders(clean), Records(clean, if h + 1 <= |rows| then rows[h + 1..] else []))
  {
    assert HeaderCells(rows, headerRowIndex) == if h < |rows| then rows[h] else [];
    assert DataRows(rows, headerRowIndex) == if h + 1 <= |rows| then rows[h + 1..] else [];
  }

  /** The loop over the rows below the header row. */
  method CollectRecords(headers: seq<string>, rows: seq<Row>, start: nat) returns (data: seq<Record>)
    ensures data == Records(headers, if start <= |rows| then rows[start..] else [])
  {
    data := [];
    ghost var below := if start <= |rows| then rows[start..] else [];
    var i := start;
    while i < |rows|
      invariant start <= i && i - start <= |below|
      invariant forall k :: 0 <= k < |below| ==> below[k] == rows[start + k]
      invariant data == Records(headers, below[..i - start])
    {
      var row := rows[i];
      ghost var k := i - start;
      assert below[..k + 1][..k] == below[..k];
      assert below[..k + 1][k] == row;
      if !(|row| == 0 || forall c :: 0 <= c < |row| ==> row[c].None?) {
        var rowData := FillRecord(headers, row);
        if |rowData| > 0 {
          data := data + [rowData];
        }
      }
      i := i + 1;
    }
    assert below[..|below|] == below;
  }

  /** The loop that fills one record. */
  method FillRecord(headers: seq<string>, row: Row) returns (rowData: Record)
    ensures rowData == RecordOf(headers, row)
  {
    rowData := map[];
    ghost var kept := KeptFlags(headers);
    var j := 0;
    while j < |headers|
      invariant j <= |headers|
      invariant rowData == RecordUpTo(headers, kept, row, j)
    {
      var h := headers[j];
      KeptFlagsAt(headers, j);
      if h != "" && !IsNumericKey(h) {
        rowData := rowData[h := if j < |row| then row[j] else None];
      }
      j := j + 1;
    }
  }

  /** The table `parseExcelFile` returns for its first sheet. */
  function ParsedTable(rows: seq<Row>): Table {
    if rows == [] then Table([], []) else Extracted(rows, HeaderRow(rows))
  }

  /** `parseExcelFile` after the workbook has been read: fails on a workbook without
      sheets, returns an empty table for an empty first sheet, and otherwise extracts the
      table under the detected header row. */
  method ParseExcelFile(sheets: seq<Sheet>) returns (r: Result<ParsedFile, ParseError>)
    ensures sheets == [] <==> r.Failure?
    ensures r.Success? ==> r.value == ParsedFile(sheets[0].name, ParsedTable(sheets[0].rows))
  {
    if |sheets| == 0 {
      return Failure(NoSheets);
    }
    var rows := sheets[0].rows;
    if |rows| == 0 {
      return Success(ParsedFile(sheets[0].name, Table([], [])));
    }
    var h := DetectHeaderRow(rows);
    var t := ExtractDataWithCleanHeaders(rows, h);
    return Success(ParsedFile(sheets[0].name, t));
  }
}
