/** `exportToExcelWithFormulas` of `utils/export-excel.js` as the loops that push the row
    arrays of each sheet, each proved to build the rows `ExportRows` specifies, and the
    workbook it assembles. */
module ExportRun {
  import opened Wrappers
  import opened CellValues
  import opened Reconcile
  import opened StringOrder
  import opened ExportRows
  import SheetReader
  import DataSheet

  // ---------------------------------------------------------------------------
  // Summary and details

  /** `summaryData`, pushed entry by entry. */
  method BuildSummary(c: Comparison, nameA: string, nameB: string, extras: Extras, exportedAt: string)
    returns (rows: seq<Row>)
    ensures rows == SummaryRows(c, nameA, nameB, extras, exportedAt)
  {
    var head := SummaryHead(c, nameA, nameB);
    var columns := PushColumnCounts(head, c.columnDifferences);
    var duplicates := PushDuplicateCounts(columns, extras.duplicates);
    rows := duplicates + SequentialSummary(extras.sequential);
    rows := rows + [[]];
    rows := rows + [[Text("Date d'exportation"), Text(exportedAt)]];
  }

  /** One summary row per entry of `columnDifferences`. */
  method PushColumnCounts(rows0: seq<Row>, counts: seq<ColumnCount>) returns (rows: seq<Row>)
    ensures rows == rows0 + seq(|counts|, k requires 0 <= k < |counts| => ColumnRow(counts[k]))
  {
    rows := rows0;
    var k := 0;
    while k < |counts|
      invariant 0 <= k <= |counts|
      invariant rows == rows0 + seq(k, m requires 0 <= m < k => ColumnRow(counts[m]))
    {
      var colDiff := counts[k];
      rows := rows + [[Text(colDiff.column), Number(colDiff.count as real)]];
      k := k + 1;
    }
  }

  /** The duplicate counts, when duplicates were reported. */
  method PushDuplicateCounts(rows0: seq<Row>, duplicates: Option<Duplicates>) returns (rows: seq<Row>)
    ensures rows == rows0 + DuplicateSummary(duplicates)
  {
    rows := rows0;
    if duplicates.Some? {
      var d := duplicates.value;
      rows := rows + [[], [Text("Doublons de matricules")]];
      if |d.fileA| > 0 {
        rows := rows + [[Text("Doublons Fichier Fournisseur"), Number(|d.fileA| as real)]];
      }
      if |d.fileB| > 0 {
        rows := rows + [[Text("Doublons Fichier SEGUCE RDC"), Number(|d.fileB| as real)]];
      }
    }
  }

  /** The lines of one detail, pushed one difference at a time. */
  method PushDetail(rows0: seq<Row>, detail: Detail) returns (rows: seq<Row>)
    ensures rows == rows0 + DetailLines(detail)
  {
    match detail
    case OnlyInA(id, _) =>
      rows := rows0 + [[Text(id), Text(WholeLine), Text("Pr\U{E9}sent"), Text("Absent"), Text("")]];
    case OnlyInB(id, _) =>
      rows := rows0 + [[Text(id), Text(WholeLine), Text("Absent"), Text("Pr\U{E9}sent"), Text("")]];
    case Matched(id, ds) =>
      rows := rows0;
      var k := 0;
      while k < |ds|
        invariant 0 <= k <= |ds|
        invariant rows == rows0 + seq(k, m requires 0 <= m < k => DiffLine(id, ds[m]))
      {
        var diff := ds[k];
        rows := rows + [[Text(id), Text(diff.column), Val(diff.valueA), Val(diff.valueB), Change(diff.difference)]];
        k := k + 1;
      }
  }

  /** `detailsData`. */
  method BuildDetails(details: seq<Detail>) returns (rows: seq<Row>)
    ensures rows == DetailsRows(details)
  {
    rows := [DetailsHeader];
    var i := 0;
    while i < |details|
      invariant 0 <= i <= |details|
      invariant rows == DetailsRows(details[..i])
    {
      rows := PushDetail(rows, details[i]);
      assert details[..i + 1][..i] == details[..i];
      i := i + 1;
    }
    assert details[..|details|] == details;
  }

  // ---------------------------------------------------------------------------
  // Significant differences

  method PushSignificant(rows0: seq<Row>, id: string, ds: seq<Difference>) returns (rows: seq<Row>)
    ensures rows == rows0 + SignificantOf(id, ds)
  {
    rows := rows0;
    var k := 0;
    while k < |ds|
      invariant 0 <= k <= |ds|
      invariant rows == rows0 + SignificantOf(id, ds[..k])
    {
      var diff := ds[k];
      if diff.valueA.Num? && diff.valueB.Num? {
        var absDiff := Abs(diff.valueB.n - diff.valueA.n);
        var percentDiff := if diff.valueA.n != 0.0 then absDiff / Abs(diff.valueA.n) * 100.0 else 100.0;
        if percentDiff > 5.0 || absDiff > 100.0 {
          rows := rows + [[Text(id), Text(diff.column), Number(diff.valueA.n), Number(diff.valueB.n),
                           Number(diff.valueB.n - diff.valueA.n), Percent(percentDiff)]];
        }
      }
      assert ds[..k + 1][..k] == ds[..k];
      k := k + 1;
    }
    assert ds[..|ds|] == ds;
  }

  /** `significantDifferencesData` and `significantDiffsFound`. */
  method BuildSignificant(details: seq<Detail>) returns (rows: seq<Row>, found: bool)
    ensures rows == SignificantRows(details)
    ensures found <==> AnySignificant(details)
  {
    rows := SignificantHead;
    found := false;
    var i := 0;
    while i < |details|
      invariant 0 <= i <= |details|
      invariant rows == SignificantRows(details[..i])
      invariant found <==> |rows| > |SignificantHead|
    {
      var detail := details[i];
      if detail.Matched? {
        rows := PushSignificant(rows, detail.id, detail.differences);
        found := |rows| > |SignificantHead|;
      }
      assert details[..i + 1][..i] == details[..i];
      i := i + 1;
    }
    assert details[..|details|] == details;
    SignificantNonEmpty(details);
  }

  // ---------------------------------------------------------------------------
  // Totals

  lemma MentionsInSnoc(ds: seq<Difference>, k: int, col: string)
    requires 0 <= k < |ds|
    ensures MentionsIn(ds[..k + 1], col) <==> MentionsIn(ds[..k], col) || ds[k].column == col
  {
    var a := ds[..k + 1];
    assert forall m :: 0 <= m < k ==> a[m] == ds[..k][m];
    assert a[k] == ds[k];
  }

  lemma MentionsSnoc(details: seq<Detail>, i: int, col: string)
    requires 0 <= i < |details|
    ensures Mentions(details[..i + 1], col) <==>
              Mentions(details[..i], col) || (details[i].Matched? && MentionsIn(details[i].differences, col))
  {
    var a := details[..i + 1];
    assert forall m :: 0 <= m < i ==> a[m] == details[..i][m];
    assert a[i] == details[i];
  }

  /** Adds the numbers of the differences in `col` of one detail to the running totals;
      `mentioned` is set when one of them is in `col`. */
  method SumDifferences(ds: seq<Difference>, col: string, a0: real, b0: real, m0: bool)
    returns (totalA: real, totalB: real, mentioned: bool)
    ensures totalA == a0 + SumIn(ds, col, true) && totalB == b0 + SumIn(ds, col, false)
    ensures mentioned <==> m0 || MentionsIn(ds, col)
  {
    totalA, totalB, mentioned := a0, b0, m0;
    var k := 0;
    while k < |ds|
      invariant 0 <= k <= |ds|
      invariant totalA == a0 + SumIn(ds[..k], col, true) && totalB == b0 + SumIn(ds[..k], col, false)
      invariant mentioned <==> m0 || MentionsIn(ds[..k], col)
    {
      var diff := ds[k];
      if diff.column == col {
        if diff.valueA.Num? {
          totalA := totalA + diff.valueA.n;
        }
        if diff.valueB.Num? {
          totalB := totalB + diff.valueB.n;
        }
        mentioned := true;
      }
      MentionsInSnoc(ds, k, col);
      assert ds[..k + 1][..k] == ds[..k];
      k := k + 1;
    }
    assert ds[..|ds|] == ds;
  }

  /** `totalA` and `totalB` of one column over all details, and whether a difference is in
      that column. */
  method SumColumn(details: seq<Detail>, col: string) returns (totalA: real, totalB: real, mentioned: bool)
    ensures totalA == Total(details, col, true) && totalB == Total(details, col, false)
    ensures mentioned <==> Mentions(details, col)
  {
    totalA, totalB, mentioned := 0.0, 0.0, false;
    var i := 0;
    while i < |details|
      invariant 0 <= i <= |details|
      invariant totalA == Total(details[..i], col, true) && totalB == Total(details[..i], col, false)
      invariant mentioned <==> Mentions(details[..i], col)
    {
      var detail := details[i];
      if detail.Matched? {
        totalA, totalB, mentioned := SumDifferences(detail.differences, col, totalA, totalB, mentioned);
      }
      MentionsSnoc(details, i, col);
      assert details[..i + 1][..i] == details[..i];
      i := i + 1;
    }
    assert details[..|details|] == details;
  }

  lemma AnyMentionedSnoc(elements: seq<string>, j: int, details: seq<Detail>)
    requires 0 <= j < |elements|
    ensures AnyMentioned(elements[..j + 1], details) <==>
              AnyMentioned(elements[..j], details) || Mentions(details, elements[j])
  {
    var a := elements[..j + 1];
    assert forall m :: 0 <= m < j ==> a[m] == elements[..j][m];
    assert a[j] == elements[j];
  }

  /** The lines of a totals sheet, one element at a time, and whether a difference fell
      on one of the elements. */
  method TotalsLoop(elements: seq<string>, details: seq<Detail>) returns (lines: seq<Row>, found: bool)
    ensures lines == TotalsLines(elements, details)
    ensures found <==> AnyMentioned(elements, details)
  {
    lines, found := [], false;
    var j := 0;
    while j < |elements|
      invariant 0 <= j <= |elements|
      invariant lines == TotalsLines(elements[..j], details)
      invariant found <==> AnyMentioned(elements[..j], details)
    {
      var element := elements[j];
      var totalA, totalB, mentioned := SumColumn(details, element);
      if mentioned {
        found := true;
      }
      if totalA != 0.0 || totalB != 0.0 {
        var difference := totalB - totalA;
        var percentDiff := if totalA != 0.0 then Abs(difference) / Abs(totalA) * 100.0 else 100.0;
        lines := lines + [[Text(element), Number(totalA), Number(totalB), Number(difference), Percent(percentDiff)]];
      }
      AnyMentionedSnoc(elements, j, details);
      assert elements[..j + 1][..j] == elements[..j];
      j := j + 1;
    }
    assert elements[..|elements|] == elements;
  }

  /** `variableElementsData` / `fixedElementsData` and their flags. */
  method BuildTotals(title: string, elements: seq<string>, details: seq<Detail>) returns (rows: seq<Row>, found: bool)
    ensures rows == TotalsRows(title, elements, details)
    ensures found <==> AnyMentioned(elements, details)
  {
    var lines;
    lines, found := TotalsLoop(elements, details);
    rows := [[Text(title)], [], TotalsHeader] + lines;
  }

  // ---------------------------------------------------------------------------
  // Rubric summary

  /** `allColumns.add(diff.column)` over one detail's differences. */
  method AddDetailColumns(seen: seq<string>, ds: seq<Difference>) returns (cols: seq<string>)
    requires forall i, j :: 0 <= i < j < |seen| ==> seen[i] != seen[j]
    ensures cols == AddColumns(seen, ds)
  {
    cols := seen;
    var k := 0;
    while k < |ds|
      invariant 0 <= k <= |ds|
      invariant cols == AddColumns(seen, ds[..k])
    {
      var column := ds[k].column;
      if column !in cols {
        cols := cols + [column];
      }
      assert ds[..k + 1][..k] == ds[..k];
      k := k + 1;
    }
    assert ds[..|ds|] == ds;
  }

  /** `allRubriquesData`. The library sort is modelled by its result. */
  method BuildRubrics(details: seq<Detail>) returns (rows: seq<Row>)
    ensures rows == RubricRows(details)
  {
    var allColumns: seq<string> := [];
    var i := 0;
    while i < |details|
      invariant 0 <= i <= |details|
      invariant allColumns == ColumnsOf(details[..i])
    {
      var detail := details[i];
      if detail.Matched? {
        allColumns := AddDetailColumns(allColumns, detail.differences);
      }
      assert details[..i + 1][..i] == details[..i];
      i := i + 1;
    }
    assert details[..|details|] == details;
    var sorted := Sort(allColumns);
    var lines, _ := TotalsLoop(sorted, details);
    rows := [[Text(RubricTitle)], [], TotalsHeader] + lines;
  }

  // ---------------------------------------------------------------------------
  // Duplicates and lexicon

  /** `duplicatesData`. */
  method BuildDuplicates(d: Duplicates) returns (rows: seq<Row>)
    ensures rows == DuplicatesRows(d)
  {
    rows := [[Text("Synth\U{E8}se des doublons d\U{E9}tect\U{E9}s")], []];
    if |d.fileA| > 0 {
      rows := PushDuplicates(rows + [[Text("Doublons dans le Fichier Fournisseur")], DuplicateHeader], d.fileA);
      rows := rows + [[]];
    }
    if |d.fileB| > 0 {
      rows := PushDuplicates(rows + [[Text("Doublons dans le Fichier SEGUCE RDC")], DuplicateHeader], d.fileB);
    }
  }

  method PushDuplicates(rows0: seq<Row>, entries: seq<DuplicateEntry>) returns (rows: seq<Row>)
    ensures rows == rows0 + seq(|entries|, k requires 0 <= k < |entries| => DuplicateRow(entries[k]))
  {
    rows := rows0;
    var k := 0;
    while k < |entries|
      invariant 0 <= k <= |entries|
      invariant rows == rows0 + seq(k, m requires 0 <= m < k => DuplicateRow(entries[m]))
    {
      var dup := entries[k];
      rows := rows + [[Text(dup.matricule), Number(dup.count as real), Text(JoinNumbers(dup.rows))]];
      k := k + 1;
    }
  }

  /** `lexiqueData`. */
  method BuildLexicon(items: seq<LexiconItem>) returns (rows: seq<Row>)
    ensures rows == LexiconRows(items)
  {
    rows := LexiconHead;
    if |items| > 0 {
      var k := 0;
      while k < |items|
        invariant 0 <= k <= |items|
        invariant rows == LexiconHead + seq(k, m requires 0 <= m < k => LexiconLine(items[m]))
      {
        var item := items[k];
        rows := rows + [[Text(item.columnName), Text(KindLabel(item.columnType)),
                         Text(OrDash(item.description)), Text(OrDash(item.formula))]];
        k := k + 1;
      }
    } else {
      rows := rows + DefaultLexicon;
    }
  }

  // ---------------------------------------------------------------------------
  // Workbook

  /** A sheet of the workbook: a row array, or one of the two data sheets. */
  datatype Tab = Grid(name: string, rows: seq<Row>) | Data(name: string, sheet: DataSheet.Sheet)

  /** The parsed file an export data sheet is made from, with its formulas. */
  datatype FileData = FileData(table: SheetReader.Table, formulas: seq<DataSheet.FormulaEntry>)

  const SummaryTab: string := "R\U{E9}sum\U{E9}"
  const DetailsTab: string := "D\U{E9}tails"
  const DataTabA: string := "Donn\U{E9}es Fournisseur"
  const DataTabB: string := "Donn\U{E9}es SEGUCE"
  const DuplicatesTab: string := "Doublons"
  const SignificantTab: string := "\U{C9}carts significatifs"
  const VariableTab: string := "\U{C9}carts Variables"
  const FixedTab: string := "\U{C9}carts Fixes"
  const RubricTab: string := "Synth\U{E8}se rubriques"
  const LexiconTab: string := "Lexique"

  /** The row arrays and data sheets of a report; an optional sheet is `None` when it is
      not appended. */
  datatype Report = Report(
    summary: seq<Row>, details: seq<Row>, sheetA: DataSheet.Sheet, sheetB: DataSheet.Sheet,
    duplicates: Option<seq<Row>>, significant: Option<seq<Row>>, variable: Option<seq<Row>>,
    fixed: Option<seq<Row>>, rubrics: seq<Row>, lexicon: seq<Row>)

  function When(present: bool, rows: seq<Row>): Option<seq<Row>> {
    if present then Some(rows) else None
  }

  /** What each sheet of the report holds, and whether the optional ones are appended. */
  function ReportOf(c: Comparison, fileA: FileData, fileB: FileData, nameA: string, nameB: string,
                    extras: Extras, lexicon: seq<LexiconItem>, exportedAt: string): Report
  {
    Report(
      SummaryRows(c, nameA, nameB, extras, exportedAt),
      DetailsRows(c.details),
      DataSheet.CreateSheet(fileA.table, fileA.formulas),
      DataSheet.CreateSheet(fileB.table, fileB.formulas),
      if extras.duplicates.Some? then Some(DuplicatesRows(extras.duplicates.value)) else None,
      When(AnySignificant(c.details), SignificantRows(c.details)),
      When(AnyMentioned(VariableElements, c.details), TotalsRows(VariableTitle, VariableElements, c.details)),
      When(AnyMentioned(FixedElements, c.details), TotalsRows(FixedTitle, FixedElements, c.details)),
      RubricRows(c.details),
      LexiconRows(lexicon))
  }

  function OptionalTab(name: string, rows: Option<seq<Row>>): seq<Tab> {
    if rows.Some? then [Grid(name, rows.value)] else []
  }

  /** The sheets in the order they are appended. */
  function Tabs(r: Report): seq<Tab> {
    [Grid(SummaryTab, r.summary), Grid(DetailsTab, r.details), Data(DataTabA, r.sheetA), Data(DataTabB, r.sheetB)]
    + OptionalTab(DuplicatesTab, r.duplicates) + OptionalTab(SignificantTab, r.significant)
    + OptionalTab(VariableTab, r.variable) + OptionalTab(FixedTab, r.fixed)
    + [Grid(RubricTab, r.rubrics), Grid(LexiconTab, r.lexicon)]
  }

  function Names(tabs: seq<Tab>): seq<string> {
    seq(|tabs|, k requires 0 <= k < |tabs| => tabs[k].name)
  }

  const LeadingTabs: seq<string> := [SummaryTab, DetailsTab, DataTabA, DataTabB]
  const TrailingTabs: seq<string> := [RubricTab, LexiconTab]

  function OptionalNames(r: Report): seq<string> {
    (if r.duplicates.Some? then [DuplicatesTab] else [])
    + (if r.significant.Some? then [SignificantTab] else [])
    + (if r.variable.Some? then [VariableTab] else [])
    + (if r.fixed.Some? then [FixedTab] else [])
  }

  lemma NamesConcat(a: seq<Tab>, b: seq<Tab>)
    ensures Names(a + b) == Names(a) + Names(b)
  {
  }

  lemma NamesOptional(name: string, rows: Option<seq<Row>>)
    ensures Names(OptionalTab(name, rows)) == if rows.Some? then [name] else []
  {
  }

  lemma NamesOfParts(lead: seq<Tab>, d: seq<Tab>, s: seq<Tab>, v: seq<Tab>, f: seq<Tab>, trail: seq<Tab>)
    ensures Names(lead + (d + s + v + f) + trail)
            == Names(lead) + (Names(d) + Names(s) + Names(v) + Names(f)) + Names(trail)
  {
    NamesConcat(lead + (d + s + v + f), trail);
    NamesConcat(lead, d + s + v + f);
    NamesConcat(d + s + v, f);
    NamesConcat(d + s, v);
    NamesConcat(d, s);
  }

  lemma TabsNames(r: Report)
    ensures Names(Tabs(r)) == LeadingTabs + OptionalNames(r) + TrailingTabs
  {
    var lead := [Grid(SummaryTab, r.summary), Grid(DetailsTab, r.details), Data(DataTabA, r.sheetA), Data(DataTabB, r.sheetB)];
    var d := OptionalTab(DuplicatesTab, r.duplicates);
    var s := OptionalTab(SignificantTab, r.significant);
    var v := OptionalTab(VariableTab, r.variable);
    var f := OptionalTab(FixedTab, r.fixed);
    var trail := [Grid(RubricTab, r.rubrics), Grid(LexiconTab, r.lexicon)];
    assert Tabs(r) == lead + (d + s + v + f) + trail;
    NamesOfParts(lead, d, s, v, f, trail);
    NamesOptional(DuplicatesTab, r.duplicates);
    NamesOptional(SignificantTab, r.significant);
    NamesOptional(VariableTab, r.variable);
    NamesOptional(FixedTab, r.fixed);
    assert Names(lead) == LeadingTabs;
    assert Names(trail) == TrailingTabs;
  }

  lemma OptionalNamesIn(r: Report)
    ensures |OptionalNames(r)| <= 4
    ensures DuplicatesTab in OptionalNames(r) <==> r.duplicates.Some?
    ensures SignificantTab in OptionalNames(r) <==> r.significant.Some?
    ensures VariableTab in OptionalNames(r) <==> r.variable.Some?
    ensures FixedTab in OptionalNames(r) <==> r.fixed.Some?
  {
    assert |DuplicatesTab| == 8 && |SignificantTab| == 20 && |VariableTab| == 16 && |FixedTab| == 12;
  }

  /** The summary, details and both data sheets come first and the rubric summary and
      lexicon last; each optional sheet is there exactly when the report has it. */
  lemma TabsOrder(r: Report)
    ensures var names := Names(Tabs(r));
            && 6 <= |names| <= 10
            && names[..4] == LeadingTabs
            && names[|names| - 2..] == TrailingTabs
            && (DuplicatesTab in names <==> r.duplicates.Some?)
            && (SignificantTab in names <==> r.significant.Some?)
            && (VariableTab in names <==> r.variable.Some?)
            && (FixedTab in names <==> r.fixed.Some?)
  {
    TabsNames(r);
    NamesOrder(r, Names(Tabs(r)));
  }

  lemma NamesOrder(r: Report, names: seq<string>)
    requires names == LeadingTabs + OptionalNames(r) + TrailingTabs
    ensures && 6 <= |names| <= 10
            && names[..4] == LeadingTabs
            && names[|names| - 2..] == TrailingTabs
            && (DuplicatesTab in names <==> r.duplicates.Some?)
            && (SignificantTab in names <==> r.significant.Some?)
            && (VariableTab in names <==> r.variable.Some?)
            && (FixedTab in names <==> r.fixed.Some?)
  {
    var opt := OptionalNames(r);
    OptionalNamesIn(r);
    OptionalApart();
    InMiddle(opt, DuplicatesTab);
    InMiddle(opt, SignificantTab);
    InMiddle(opt, VariableTab);
    InMiddle(opt, FixedTab);
    assert names[..4] == LeadingTabs;
    assert names[|names| - 2..] == TrailingTabs;
  }

  /** No optional sheet name is one of the fixed ones. */
  lemma OptionalApart()
    ensures forall x :: x in [DuplicatesTab, SignificantTab, VariableTab, FixedTab] ==>
              x !in LeadingTabs && x !in TrailingTabs
  {
    assert |SummaryTab| == 6 && |DetailsTab| == 7 && |DataTabA| == 19 && |DataTabB| == 14;
    assert |RubricTab| == 18 && |LexiconTab| == 7;
    assert |DuplicatesTab| == 8 && |SignificantTab| == 20 && |VariableTab| == 16 && |FixedTab| == 12;
  }

  lemma InMiddle(opt: seq<string>, x: string)
    requires x !in LeadingTabs && x !in TrailingTabs
    ensures x in LeadingTabs + opt + TrailingTabs <==> x in opt
  {
  }

  /** The duplicates sheet is appended exactly when the summary has duplicates, the
      significant-difference sheet exactly when a significant difference exists, and the
      variable and fixed sheets exactly when a difference falls on one of their elements. */
  lemma WorkbookSheets(c: Comparison, fileA: FileData, fileB: FileData, nameA: string, nameB: string,
                       extras: Extras, lexicon: seq<LexiconItem>, exportedAt: string)
    ensures var names := Names(Tabs(ReportOf(c, fileA, fileB, nameA, nameB, extras, lexicon, exportedAt)));
            && names[0] == SummaryTab && names[|names| - 1] == LexiconTab
            && (DuplicatesTab in names <==> extras.duplicates.Some?)
            && (SignificantTab in names <==> AnySignificant(c.details))
            && (VariableTab in names <==> AnyMentioned(VariableElements, c.details))
            && (FixedTab in names <==> AnyMentioned(FixedElements, c.details))
  {
    var r := ReportOf(c, fileA, fileB, nameA, nameB, extras, lexicon, exportedAt);
    TabsOrder(r);
    var names := Names(Tabs(r));
    assert names[0] == LeadingTabs[0];
    assert names[|names| - 1] == TrailingTabs[1];
  }

  /** `exportToExcelWithFormulas`, up to the writing of the workbook. */
  method ExportToExcelWithFormulas(c: Comparison, fileA: FileData, fileB: FileData, nameA: string, nameB: string,
                                   extras: Extras, lexicon: seq<LexiconItem>, exportedAt: string)
    returns (tabs: seq<Tab>)
    ensures tabs == Tabs(ReportOf(c, fileA, fileB, nameA, nameB, extras, lexicon, exportedAt))
  {
    var summaryData := BuildSummary(c, nameA, nameB, extras, exportedAt);
    var detailsData := BuildDetails(c.details);
    var sheetA := DataSheet.CreateSheetWithFormulas(fileA.table, fileA.formulas);
    var sheetB := DataSheet.CreateSheetWithFormulas(fileB.table, fileB.formulas);
    var duplicatesData: Option<seq<Row>> := None;
    if extras.duplicates.Some? {
      var rows := BuildDuplicates(extras.duplicates.value);
      duplicatesData := Some(rows);
    }
    var significantData, significantFound := BuildSignificant(c.details);
    var variableData, variableFound := BuildTotals(VariableTitle, VariableElements, c.details);
    var fixedData, fixedFound := BuildTotals(FixedTitle, FixedElements, c.details);
    var rubricData := BuildRubrics(c.details);
    var lexiconData := BuildLexicon(lexicon);
    var report := Report(summaryData, detailsData, DataSheet.Sheet(sheetA.cells, sheetA.cols),
                         DataSheet.Sheet(sheetB.cells, sheetB.cols), duplicatesData,
                         When(significantFound, significantData), When(variableFound, variableData),
                         When(fixedFound, fixedData), rubricData, lexiconData);
    tabs := Tabs(report);
  }
}
