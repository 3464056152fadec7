/** The row arrays `exportToExcelWithFormulas` of `utils/export-excel.js` builds for
    each sheet of the report, as functions of the comparison result, with what they
    promise. The loops that push the rows are in `ExportRun`. */
module ExportRows {
  import opened Wrappers
  import opened JsText
  import opened CellValues
  import opened Reconcile
  import opened StringOrder

  /** One value of a row array: text, a number, a parsed cell value, a delta of
      `calculateDifference`, or a percentage rendered with two decimals. */
  datatype Cell = Text(s: string) | Number(n: real) | Val(v: Value) | Change(d: Delta) | Percent(p: real)

  type Row = seq<Cell>

  function Abs(x: real): real {
    if x < 0.0 then -x else x
  }

  // ---------------------------------------------------------------------------
  // Summary sheet

  /** An entry of `summary.duplicates.fileA` / `fileB`. */
  datatype DuplicateEntry = DuplicateEntry(matricule: string, count: nat, rows: seq<nat>)

  /** `summary.duplicates`; an absent list is an empty one. */
  datatype Duplicates = Duplicates(fileA: seq<DuplicateEntry>, fileB: seq<DuplicateEntry>)

  /** `summary.sequentialComparison`. */
  datatype Sequential = Sequential(fixedColumns: int, fixedErrors: int, variableColumns: int, variableErrors: int)

  /** The optional parts of the summary the export reads. */
  datatype Extras = Extras(duplicates: Option<Duplicates>, sequential: Option<Sequential>)

  function SummaryHead(c: Comparison, nameA: string, nameB: string): seq<Row> {
    [ [Text("R\U{E9}conciliation - R\U{E9}sum\U{E9}")],
      [],
      [Text("Fichier Fournisseur"), Text(nameA)],
      [Text("Fichier SEGUCE RDC"), Text(nameB)],
      [],
      [Text("Statistiques"), Text("Fichier Fournisseur"), Text("Fichier SEGUCE RDC"), Text("Diff\U{E9}rence")],
      [Text("Nombre de lignes"), Number(c.rowsA as real), Number(c.rowsB as real), Number(c.rowsA as real - c.rowsB as real)],
      [Text("Nombre de diff\U{E9}rences trouv\U{E9}es"), Number(c.totalDifferences as real)],
      [],
      [Text("Diff\U{E9}rences par colonne")] ]
  }

  function ColumnRow(cc: ColumnCount): Row {
    [Text(cc.column), Number(cc.count as real)]
  }

  function DuplicateSummary(d: Option<Duplicates>): seq<Row> {
    match d
    case None => []
    case Some(d) =>
      [[], [Text("Doublons de matricules")]]
      + (if |d.fileA| > 0 then [[Text("Doublons Fichier Fournisseur"), Number(|d.fileA| as real)]] else [])
      + (if |d.fileB| > 0 then [[Text("Doublons Fichier SEGUCE RDC"), Number(|d.fileB| as real)]] else [])
  }

  function SequentialSummary(s: Option<Sequential>): seq<Row> {
    match s
    case None => []
    case Some(s) =>
      [ [], [Text("Analyse s\U{E9}quentielle")],
        [Text("\U{C9}l\U{E9}ments fixes v\U{E9}rifi\U{E9}s"), Number(s.fixedColumns as real)],
        [Text("Erreurs dans \U{E9}l\U{E9}ments fixes"), Number(s.fixedErrors as real)],
        [Text("\U{C9}l\U{E9}ments variables v\U{E9}rifi\U{E9}s"), Number(s.variableColumns as real)],
        [Text("Erreurs dans \U{E9}l\U{E9}ments variables"), Number(s.variableErrors as real)] ]
  }

  /** `summaryData`. The export time is a parameter. */
  function SummaryRows(c: Comparison, nameA: string, nameB: string, extras: Extras, exportedAt: string): seq<Row> {
    SummaryHead(c, nameA, nameB)
    + seq(|c.columnDifferences|, k requires 0 <= k < |c.columnDifferences| => ColumnRow(c.columnDifferences[k]))
    + DuplicateSummary(extras.duplicates) + SequentialSummary(extras.sequential)
    + [[], [Text("Date d'exportation"), Text(exportedAt)]]
  }

  /** The statistics rows give the row-count difference as A minus B, and the summary
      ends with the export date. */
  lemma SummaryStatistics(c: Comparison, nameA: string, nameB: string, extras: Extras, exportedAt: string)
    ensures var rows := SummaryRows(c, nameA, nameB, extras, exportedAt);
            && |rows| >= 12 + |c.columnDifferences|
            && rows[6] == [Text("Nombre de lignes"), Number(c.rowsA as real), Number(c.rowsB as real),
                           Number(c.rowsA as real - c.rowsB as real)]
            && rows[7][1] == Number(c.totalDifferences as real)
            && (extras.duplicates.None? && extras.sequential.None? ==> |rows| == 12 + |c.columnDifferences|)
            && rows[|rows| - 1] == [Text("Date d'exportation"), Text(exportedAt)]
  {
    var rows := SummaryRows(c, nameA, nameB, extras, exportedAt);
    var head := SummaryHead(c, nameA, nameB);
    assert rows[6] == head[6];
  }

  /** The summary has one row per entry of `columnDifferences`, in order, after its ten
      head rows. */
  lemma SummaryColumns(c: Comparison, nameA: string, nameB: string, extras: Extras, exportedAt: string, k: int)
    requires 0 <= k < |c.columnDifferences|
    ensures var rows := SummaryRows(c, nameA, nameB, extras, exportedAt);
            10 + k < |rows| && rows[10 + k] == [Text(c.columnDifferences[k].column), Number(c.columnDifferences[k].count as real)]
  {
    var rows := SummaryRows(c, nameA, nameB, extras, exportedAt);
    var n := |c.columnDifferences|;
    var cols := seq(n, k requires 0 <= k < n => ColumnRow(c.columnDifferences[k]));
    assert rows[10 + k] == (SummaryHead(c, nameA, nameB) + cols)[10 + k] == cols[k];
  }

  // ---------------------------------------------------------------------------
  // Details sheet

  const DetailsHeader: Row := [Text("ID"), Text("Colonne"), Text("Valeur Fichier Fournisseur"),
                               Text("Valeur Fichier SEGUCE RDC"), Text("Diff\U{E9}rence")]

  const WholeLine: string := "LIGNE COMPL\U{C8}TE"

  function DiffLine(id: string, d: Difference): Row {
    [Text(id), Text(d.column), Val(d.valueA), Val(d.valueB), Change(d.difference)]
  }

  /** The lines of one detail: one for an identifier on one side only, one per
      difference of a matched identifier. */
  function DetailLines(d: Detail): seq<Row> {
    match d
    case OnlyInA(id, _) => [[Text(id), Text(WholeLine), Text("Pr\U{E9}sent"), Text("Absent"), Text("")]]
    case OnlyInB(id, _) => [[Text(id), Text(WholeLine), Text("Absent"), Text("Pr\U{E9}sent"), Text("")]]
    case Matched(id, ds) => seq(|ds|, k requires 0 <= k < |ds| => DiffLine(id, ds[k]))
  }

  function AllDetailLines(details: seq<Detail>): seq<Row> {
    if details == [] then [] else AllDetailLines(details[..|details| - 1]) + DetailLines(details[|details| - 1])
  }

  /** `detailsData`. */
  function DetailsRows(details: seq<Detail>): seq<Row> {
    [DetailsHeader] + AllDetailLines(details)
  }

  /** The number of lines a detail contributes. */
  function LineCount(details: seq<Detail>): nat {
    if details == [] then 0
    else
      var d := details[|details| - 1];
      LineCount(details[..|details| - 1]) + (if d.Matched? then |d.differences| else 1)
  }

  /** The details sheet has its header and one line per identifier found on one side
      only and per difference of a matched identifier. */
  lemma {:induction false} DetailsCount(details: seq<Detail>)
    ensures |DetailsRows(details)| == 1 + LineCount(details)
  {
    if details != [] {
      var init := details[..|details| - 1];
      var last := details[|details| - 1];
      DetailsCount(init);
      assert AllDetailLines(details) == AllDetailLines(init) + DetailLines(last);
    }
  }

  /** Each detail's lines are in the details sheet: the difference lines of a matched
      identifier, the single line of an identifier found on one side only. */
  lemma {:induction false} DetailsListed(details: seq<Detail>, i: int, k: int)
    requires 0 <= i < |details| && 0 <= k < |DetailLines(details[i])|
    ensures DetailLines(details[i])[k] in DetailsRows(details)
    ensures details[i].Matched? ==> DiffLine(details[i].id, details[i].differences[k]) in DetailsRows(details)
  {
    var init := details[..|details| - 1];
    var last := details[|details| - 1];
    assert AllDetailLines(details) == AllDetailLines(init) + DetailLines(last);
    if i < |init| {
      assert init[i] == details[i];
      DetailsListed(init, i, k);
    } else {
      assert DetailLines(last)[k] in DetailLines(last);
    }
  }

  /** The lines follow the order of the details: the lines of a longer list start with
      those of its prefix. */
  lemma {:induction false} DetailsInOrder(first: seq<Detail>, rest: seq<Detail>)
    ensures AllDetailLines(first + rest) == AllDetailLines(first) + AllDetailLines(rest)
  {
    if rest != [] {
      var init := rest[..|rest| - 1];
      assert (first + rest)[..|first + rest| - 1] == first + init;
      DetailsInOrder(first, init);
    } else {
      assert first + rest == first;
    }
  }

  // ---------------------------------------------------------------------------
  // Significant differences

  /** `percentDiff`: the change relative to the first value, 100 when it is zero. */
  function PercentOf(a: real, b: real): real {
    if a != 0.0 then Abs(b - a) / Abs(a) * 100.0 else 100.0
  }

  /** Both values are numbers and they differ by more than 5 percent or by more than 100. */
  predicate IsSignificant(d: Difference) {
    d.valueA.Num? && d.valueB.Num?
    && (PercentOf(d.valueA.n, d.valueB.n) > 5.0 || Abs(d.valueB.n - d.valueA.n) > 100.0)
  }

  function SignificantRow(id: string, d: Difference): Row
    requires d.valueA.Num? && d.valueB.Num?
  {
    [Text(id), Text(d.column), Number(d.valueA.n), Number(d.valueB.n), Number(d.valueB.n - d.valueA.n),
     Percent(PercentOf(d.valueA.n, d.valueB.n))]
  }

  function SignificantOf(id: string, ds: seq<Difference>): seq<Row> {
    if ds == [] then []
    else
      var d := ds[|ds| - 1];
      SignificantOf(id, ds[..|ds| - 1]) + (if IsSignificant(d) then [SignificantRow(id, d)] else [])
  }

  function SignificantLines(details: seq<Detail>): seq<Row> {
    if details == [] then []
    else
      var d := details[|details| - 1];
      SignificantLines(details[..|details| - 1]) + (if d.Matched? then SignificantOf(d.id, d.differences) else [])
  }

  const SignificantHead: seq<Row> := [
    [Text("\U{C9}carts significatifs")],
    [],
    [Text("Matricule"), Text("Colonne"), Text("Fichier Fournisseur"), Text("Fichier SEGUCE RDC"),
     Text("Diff\U{E9}rence"), Text("Diff\U{E9}rence %")]]

  /** `significantDifferencesData`. */
  function SignificantRows(details: seq<Detail>): seq<Row> {
    SignificantHead + SignificantLines(details)
  }

  predicate AnySignificantIn(ds: seq<Difference>) {
    exists k :: 0 <= k < |ds| && IsSignificant(ds[k])
  }

  /** Some matched detail has a significant difference: the sheet is then added. */
  predicate AnySignificant(details: seq<Detail>) {
    exists i :: 0 <= i < |details| && details[i].Matched? && AnySignificantIn(details[i].differences)
  }

  lemma {:induction false} SignificantOfLines(id: string, ds: seq<Difference>)
    ensures |SignificantOf(id, ds)| > 0 <==> AnySignificantIn(ds)
    ensures forall k :: 0 <= k < |ds| && IsSignificant(ds[k]) ==> SignificantRow(id, ds[k]) in SignificantOf(id, ds)
  {
    if ds != [] {
      var init := ds[..|ds| - 1];
      SignificantOfLines(id, init);
      assert forall k :: 0 <= k < |init| ==> init[k] == ds[k];
      if AnySignificantIn(ds) && !IsSignificant(ds[|ds| - 1]) {
        var k :| 0 <= k < |ds| && IsSignificant(ds[k]);
        assert k < |init|;
      }
    }
  }

  /** The sheet of significant differences has a line exactly when the flag that adds it
      is set. */
  lemma {:induction false} SignificantNonEmpty(details: seq<Detail>)
    ensures |SignificantLines(details)| > 0 <==> AnySignificant(details)
  {
    if details != [] {
      var init := details[..|details| - 1];
      var last := details[|details| - 1];
      SignificantNonEmpty(init);
      assert forall i :: 0 <= i < |init| ==> init[i] == details[i];
      if last.Matched? {
        SignificantOfLines(last.id, last.differences);
      }
      if AnySignificant(details) && !(last.Matched? && AnySignificantIn(last.differences)) {
        var i :| 0 <= i < |details| && details[i].Matched? && AnySignificantIn(details[i].differences);
        assert i < |init|;
      }
    }
  }

  /** Every significant difference of a matched identifier is listed. */
  lemma {:induction false} SignificantListed(details: seq<Detail>, i: int, k: int)
    requires 0 <= i < |details| && details[i].Matched? && 0 <= k < |details[i].differences|
    requires IsSignificant(details[i].differences[k])
    ensures SignificantRow(details[i].id, details[i].differences[k]) in SignificantLines(details)
  {
    var init := details[..|details| - 1];
    var last := details[|details| - 1];
    var row := SignificantRow(details[i].id, details[i].differences[k]);
    assert SignificantLines(details) == SignificantLines(init) + (if last.Matched? then SignificantOf(last.id, last.differences) else []);
    if i < |init| {
      assert init[i] == details[i];
      SignificantListed(init, i, k);
    } else {
      SignificantOfLines(last.id, last.differences);
    }
  }

  /** `r` is the line of a significant difference of the matched detail at `i`. */
  predicate SignificantLineOf(details: seq<Detail>, r: Row, i: int, k: int) {
    && 0 <= i < |details| && details[i].Matched?
    && 0 <= k < |details[i].differences| && IsSignificant(details[i].differences[k])
    && r == SignificantRow(details[i].id, details[i].differences[k])
  }

  lemma {:induction false} SignificantOfSound(id: string, ds: seq<Difference>)
    ensures forall r :: r in SignificantOf(id, ds) ==>
              exists k :: 0 <= k < |ds| && IsSignificant(ds[k]) && r == SignificantRow(id, ds[k])
  {
    if ds != [] {
      var init := ds[..|ds| - 1];
      SignificantOfSound(id, init);
      forall r | r in SignificantOf(id, ds)
        ensures exists k :: 0 <= k < |ds| && IsSignificant(ds[k]) && r == SignificantRow(id, ds[k])
      {
        if r in SignificantOf(id, init) {
          var k :| 0 <= k < |init| && IsSignificant(init[k]) && r == SignificantRow(id, init[k]);
          assert init[k] == ds[k];
        } else {
          assert IsSignificant(ds[|ds| - 1]) && r == SignificantRow(id, ds[|ds| - 1]);
        }
      }
    }
  }

  /** Every listed line is that of a significant difference of a matched identifier:
      with `SignificantListed`, a difference is listed exactly when it is significant. */
  lemma {:induction false} SignificantSound(details: seq<Detail>)
    ensures forall r :: r in SignificantLines(details) ==> exists i, k :: SignificantLineOf(details, r, i, k)
  {
    if details != [] {
      var init := details[..|details| - 1];
      var last := details[|details| - 1];
      SignificantSound(init);
      forall r | r in SignificantLines(details) ensures exists i, k :: SignificantLineOf(details, r, i, k) {
        if r in SignificantLines(init) {
          var i, k :| SignificantLineOf(init, r, i, k);
          assert init[i] == details[i];
          assert SignificantLineOf(details, r, i, k);
        } else {
          assert last.Matched? && r in SignificantOf(last.id, last.differences);
          SignificantOfSound(last.id, last.differences);
          var k :| 0 <= k < |last.differences| && IsSignificant(last.differences[k])
                   && r == SignificantRow(last.id, last.differences[k]);
          assert SignificantLineOf(details, r, |details| - 1, k);
        }
      }
    }
  }

  // ---------------------------------------------------------------------------
  // Totals per element

  /** The variable payroll elements. */
  const VariableElements: seq<string> := [
    "Jr. Prest\U{E9}s", "JAbsence", "Jrs. Maladie", "Cong\U{E9} Circ.", "Cong\U{E9} Maternit\U{E9}",
    "Jrs. Feri\U{E9}", "Jrs. Cong\U{E9} Pay\U{E9}s", "Nbre Heure Supp. 1", "Nbre Heure Supp. 2",
    "Nbre Heure Supp. 3", "Heures de nuit 25%", "Regule sur cong\U{E9}", "Regule",
    "Prime de bonne conduite auto", "Prime de production", "Aide sociale", "Prime int\U{E9}rim",
    "13\U{E8}me mois", "Pagne + frais de couture", "Prime migration IT", "Aide rentr\U{E9}e scolaire",
    "Bonus", "Prime de mariage", "Prime Audit", "Panier de fin d'ann\U{E9}e", "Autre prime",
    "Prime Imposable Variable"]

  /** The fixed payroll elements. */
  const FixedElements: seq<string> := [
    "Matricule", "BU", "Pers. \U{E0} Charge", "Enfant L\U{E9}gal", "Salaire mensuel",
    "Anciennet\U{E9} mensuel", "Sur Salaire mensuel", "Taux horaire", "Transport mensuel",
    "Logement mensuel", "Prime astreinte", "Forfait heures suppl\U{E9}mentaire",
    "Prime de d\U{E9}tachement", "Prime Imposable Fixe"]

  /** A value counts in a total only when it is a number. */
  function Amount(v: Value): real {
    if v.Num? then v.n else 0.0
  }

  function SumIn(ds: seq<Difference>, col: string, sideA: bool): real {
    if ds == [] then 0.0
    else
      var d := ds[|ds| - 1];
      SumIn(ds[..|ds| - 1], col, sideA) + (if d.column == col then Amount(if sideA then d.valueA else d.valueB) else 0.0)
  }

  /** `totalA` (or `totalB`): the numbers of side A (or B) over the differences in `col`
      of the matched details. */
  function Total(details: seq<Detail>, col: string, sideA: bool): real {
    if details == [] then 0.0
    else
      var d := details[|details| - 1];
      Total(details[..|details| - 1], col, sideA) + (if d.Matched? then SumIn(d.differences, col, sideA) else 0.0)
  }

  predicate MentionsIn(ds: seq<Difference>, col: string) {
    exists k :: 0 <= k < |ds| && ds[k].column == col
  }

  /** Some matched detail has a difference in `col`. */
  predicate Mentions(details: seq<Detail>, col: string) {
    exists i :: 0 <= i < |details| && details[i].Matched? && MentionsIn(details[i].differences, col)
  }

  function TotalRow(col: string, totalA: real, totalB: real): Row {
    [Text(col), Number(totalA), Number(totalB), Number(totalB - totalA), Percent(PercentOf(totalA, totalB))]
  }

  /** A line per element whose totals are not both zero, in element order. */
  function TotalsLines(elements: seq<string>, details: seq<Detail>): seq<Row> {
    if elements == [] then []
    else
      var e := elements[|elements| - 1];
      var a := Total(details, e, true);
      var b := Total(details, e, false);
      TotalsLines(elements[..|elements| - 1], details) + (if a != 0.0 || b != 0.0 then [TotalRow(e, a, b)] else [])
  }

  /** The positions in `elements` of the elements that get a line. */
  function TotalsPositions(elements: seq<string>, details: seq<Detail>): seq<nat> {
    if elements == [] then []
    else
      var e := elements[|elements| - 1];
      var a := Total(details, e, true);
      var b := Total(details, e, false);
      TotalsPositions(elements[..|elements| - 1], details) + (if a != 0.0 || b != 0.0 then [|elements| - 1] else [])
  }

  /** Line `p` is the line of the element at position `ps[p]`, and positions increase:
      the lines follow the order of the elements. */
  predicate LinesAt(elements: seq<string>, details: seq<Detail>, lines: seq<Row>, ps: seq<nat>) {
    && |lines| == |ps|
    && (forall p, q :: 0 <= p < q < |ps| ==> ps[p] < ps[q])
    && forall p :: 0 <= p < |ps| ==>
         && ps[p] < |elements|
         && lines[p] == TotalRow(elements[ps[p]], Total(details, elements[ps[p]], true), Total(details, elements[ps[p]], false))
  }

  lemma {:induction false} TotalsLinesOrder(elements: seq<string>, details: seq<Detail>)
    ensures LinesAt(elements, details, TotalsLines(elements, details), TotalsPositions(elements, details))
  {
    if elements != [] {
      var init := elements[..|elements| - 1];
      TotalsLinesOrder(init, details);
      var ps0 := TotalsPositions(init, details);
      var lines0 := TotalsLines(init, details);
      forall p | 0 <= p < |ps0| ensures ps0[p] < |init| && elements[ps0[p]] == init[ps0[p]] {
      }
      TotalsLinesSnoc(elements, details, lines0, ps0);
    }
  }

  lemma TotalsLinesSnoc(elements: seq<string>, details: seq<Detail>, lines0: seq<Row>, ps0: seq<nat>)
    requires elements != []
    requires LinesAt(elements[..|elements| - 1], details, lines0, ps0)
    requires forall p :: 0 <= p < |ps0| ==> elements[ps0[p]] == elements[..|elements| - 1][ps0[p]]
    requires lines0 == TotalsLines(elements[..|elements| - 1], details)
    requires ps0 == TotalsPositions(elements[..|elements| - 1], details)
    ensures LinesAt(elements, details, TotalsLines(elements, details), TotalsPositions(elements, details))
  {
    var n := |elements| - 1;
    var e := elements[n];
    var a := Total(details, e, true);
    var b := Total(details, e, false);
    if a != 0.0 || b != 0.0 {
      var lines := lines0 + [TotalRow(e, a, b)];
      var ps := ps0 + [n];
      assert TotalsLines(elements, details) == lines;
      assert TotalsPositions(elements, details) == ps;
      assert LinesAt(elements, details, lines, ps);
    } else {
      assert TotalsLines(elements, details) == lines0;
      assert TotalsPositions(elements, details) == ps0;
    }
  }

  /** The rubric sheet lists its lines in strictly ascending order of their column. */
  lemma RubricLinesSorted(details: seq<Detail>)
    ensures var lines := TotalsLines(RubricColumns(details), details);
            forall p, q :: 0 <= p < q < |lines| ==>
              && |lines[p]| > 0 && |lines[q]| > 0 && lines[p][0].Text? && lines[q][0].Text?
              && Less(lines[p][0].s, lines[q][0].s)
  {
    var cols := RubricColumns(details);
    TotalsLinesOrder(cols, details);
  }

  const VariableTitle: string := "\U{C9}carts des donn\U{E9}es variables"
  const FixedTitle: string := "\U{C9}carts des donn\U{E9}es fixes"
  const RubricTitle: string := "Synth\U{E8}se des rubriques"

  const TotalsHeader: Row := [Text("Rubrique"), Text("Fichier prestataire paie"), Text("Fichier SEGUCE"),
                              Text("Diff\U{E9}rence"), Text("Diff\U{E9}rence %")]

  /** `variableElementsData`, `fixedElementsData` and `allRubriquesData`. */
  function TotalsRows(title: string, elements: seq<string>, details: seq<Detail>): seq<Row> {
    [[Text(title)], [], TotalsHeader] + TotalsLines(elements, details)
  }

  /** Some difference falls on one of the elements: the sheet is then added. */
  predicate AnyMentioned(elements: seq<string>, details: seq<Detail>) {
    exists j :: 0 <= j < |elements| && Mentions(details, elements[j])
  }

  lemma {:induction false} SumInUnmentioned(ds: seq<Difference>, col: string, sideA: bool)
    requires !MentionsIn(ds, col)
    ensures SumIn(ds, col, sideA) == 0.0
  {
    if ds != [] {
      var init := ds[..|ds| - 1];
      assert forall k :: 0 <= k < |init| ==> init[k] == ds[k];
      SumInUnmentioned(init, col, sideA);
    }
  }

  /** A column no difference falls on has zero totals, so it gets no line. */
  lemma {:induction false} TotalUnmentioned(details: seq<Detail>, col: string, sideA: bool)
    requires !Mentions(details, col)
    ensures Total(details, col, sideA) == 0.0
  {
    if details != [] {
      var init := details[..|details| - 1];
      assert forall i :: 0 <= i < |init| ==> init[i] == details[i];
      TotalUnmentioned(init, col, sideA);
      var last := details[|details| - 1];
      if last.Matched? {
        SumInUnmentioned(last.differences, col, sideA);
      }
    }
  }

  /** An element has a line exactly when its totals are not both zero, and the line gives
      the difference as B minus A; elements nothing falls on have none. */
  lemma {:induction false} TotalsLineFor(elements: seq<string>, details: seq<Detail>, e: string)
    requires e in elements
    ensures var a := Total(details, e, true);
            var b := Total(details, e, false);
            (TotalRow(e, a, b) in TotalsLines(elements, details) <==> a != 0.0 || b != 0.0)
            && (!Mentions(details, e) ==> TotalRow(e, a, b) !in TotalsLines(elements, details))
  {
    var a := Total(details, e, true);
    var b := Total(details, e, false);
    TotalsLinesShape(elements, details);
    if !Mentions(details, e) {
      TotalUnmentioned(details, e, true);
      TotalUnmentioned(details, e, false);
    }
    if a != 0.0 || b != 0.0 {
      TotalsLinesHas(elements, details, e);
    }
  }

  /** Every line of the totals is the line of one of the elements with non-zero totals. */
  lemma {:induction false} TotalsLinesShape(elements: seq<string>, details: seq<Detail>)
    ensures forall r :: r in TotalsLines(elements, details) ==>
              exists e :: (e in elements && r == TotalRow(e, Total(details, e, true), Total(details, e, false))
                           && (Total(details, e, true) != 0.0 || Total(details, e, false) != 0.0))
  {
    if elements != [] {
      var init := elements[..|elements| - 1];
      TotalsLinesShape(init, details);
      assert forall e :: e in init ==> e in elements;
      assert elements[|elements| - 1] in elements;
    }
  }

  lemma {:induction false} TotalsLinesHas(elements: seq<string>, details: seq<Detail>, e: string)
    requires e in elements
    requires Total(details, e, true) != 0.0 || Total(details, e, false) != 0.0
    ensures TotalRow(e, Total(details, e, true), Total(details, e, false)) in TotalsLines(elements, details)
  {
    var init := elements[..|elements| - 1];
    if e != elements[|elements| - 1] {
      assert e in init;
      TotalsLinesHas(init, details, e);
    }
  }

  // ---------------------------------------------------------------------------
  // Rubric summary

  /** `allColumns`: the columns of all differences, each once, in first-seen order. */
  function ColumnsOf(details: seq<Detail>): (r: seq<string>)
    ensures forall i, j :: 0 <= i < j < |r| ==> r[i] != r[j]
    ensures forall c :: c in r <==> Mentions(details, c)
  {
    if details == [] then []
    else
      var init := details[..|details| - 1];
      var last := details[|details| - 1];
      assert forall i :: 0 <= i < |init| ==> init[i] == details[i];
      var r := ColumnsOf(init);
      if last.Matched? then AddColumns(r, last.differences) else r
  }

  /** `allColumns.add(diff.column)` over the differences of one detail. */
  function AddColumns(seen: seq<string>, ds: seq<Difference>): (r: seq<string>)
    requires forall i, j :: 0 <= i < j < |seen| ==> seen[i] != seen[j]
    ensures forall i, j :: 0 <= i < j < |r| ==> r[i] != r[j]
    ensures forall c :: c in r <==> c in seen || MentionsIn(ds, c)
  {
    if ds == [] then seen
    else
      var init := ds[..|ds| - 1];
      var d := ds[|ds| - 1];
      assert forall k :: 0 <= k < |init| ==> init[k] == ds[k];
      var r := AddColumns(seen, init);
      if d.column in r then r else r + [d.column]
  }

  /** The rubric summary goes over every column some difference falls on, each once, in
      sorted order. */
  function RubricColumns(details: seq<Detail>): (r: seq<string>)
    ensures StrictlySorted(r)
    ensures forall c :: c in r <==> Mentions(details, c)
  {
    Sort(ColumnsOf(details))
  }

  function RubricRows(details: seq<Detail>): seq<Row> {
    TotalsRows(RubricTitle, RubricColumns(details), details)
  }

  // ---------------------------------------------------------------------------
  // Duplicates sheet

  /** `rows.join(", ")` over row numbers; empty exactly when there are none. */
  function JoinNumbers(ns: seq<nat>): (r: string)
    ensures r == [] <==> ns == []
  {
    if ns == [] then ""
    else if |ns| == 1 then NatToString(ns[0])
    else JoinNumbers(ns[..|ns| - 1]) + ", " + NatToString(ns[|ns| - 1])
  }

  /** `s.split(",")`: the pieces of `s` between its commas, in order. */
  function SplitCommas(s: string): (parts: seq<string>)
    ensures |parts| >= 1
    decreases |s|
  {
    var i := LastIndexOf(s, ',');
    if i < 0 then [s] else SplitCommas(s[..i]) + [s[i + 1..]]
  }

  /** Splitting the joined text at its commas gives back the decimal text of each row
      number, every one after the first preceded by the space of the separator. */
  lemma {:induction false} JoinNumbersSplit(ns: seq<nat>)
    requires ns != []
    ensures var parts := SplitCommas(JoinNumbers(ns));
            && |parts| == |ns|
            && parts[0] == NatToString(ns[0])
            && forall k :: 1 <= k < |ns| ==> parts[k] == " " + NatToString(ns[k])
  {
    if |ns| > 1 {
      var init := ns[..|ns| - 1];
      var j := JoinNumbers(init);
      var n := NatToString(ns[|ns| - 1]);
      JoinNumbersSplit(init);
      var parts0 := SplitCommas(j);
      SplitJoined(j, n);
      assert JoinNumbers(ns) == j + ", " + n;
      var parts := parts0 + [" " + n];
      assert SplitCommas(JoinNumbers(ns)) == parts;
      forall k | 1 <= k < |ns| ensures parts[k] == " " + NatToString(ns[k]) {
        if k < |ns| - 1 {
          assert parts[k] == parts0[k] && init[k] == ns[k];
        }
      }
      assert parts[0] == parts0[0] && init[0] == ns[0];
    } else {
      NoCommaInDigits(NatToString(ns[0]));
      LastIndexOfNone(NatToString(ns[0]), ',');
    }
  }

  /** Appending `", "` and a digit text adds that text, after its space, as the last piece. */
  lemma SplitJoined(j: string, n: string)
    requires AllDigits(n)
    ensures SplitCommas(j + ", " + n) == SplitCommas(j) + [" " + n]
  {
    var s := j + ", " + n;
    NoCommaInDigits(n);
    assert LastIndexOf(s, ',') == |j| by {
      forall i | |j| < i < |s| ensures s[i] != ',' {
        if i > |j| + 1 {
          assert s[i] == n[i - |j| - 2];
        }
      }
      LastIndexOfAt(s, ',', |j|);
    }
    assert s[..|j|] == j;
    assert s[|j| + 1..] == " " + n;
  }

  lemma NoCommaInDigits(s: string)
    requires AllDigits(s)
    ensures forall i :: 0 <= i < |s| ==> s[i] != ','
  {
  }

  /** The last occurrence of `c` is at `p` when `s[p] == c` and no later character is. */
  lemma {:induction false} LastIndexOfAt(s: string, c: char, p: nat)
    requires p < |s| && s[p] == c && forall i :: p < i < |s| ==> s[i] != c
    ensures LastIndexOf(s, c) == p
  {
    if p < |s| - 1 {
      var init := s[..|s| - 1];
      assert init[p] == s[p];
      LastIndexOfAt(init, c, p);
    }
  }

  lemma {:induction false} LastIndexOfNone(s: string, c: char)
    requires forall i :: 0 <= i < |s| ==> s[i] != c
    ensures LastIndexOf(s, c) == -1
  {
    if s != [] {
      LastIndexOfNone(s[..|s| - 1], c);
    }
  }

  function DuplicateRow(d: DuplicateEntry): Row {
    [Text(d.matricule), Number(d.count as real), Text(JoinNumbers(d.rows))]
  }

  const DuplicateHeader: Row := [Text("Matricule"), Text("Occurrences"), Text("Lignes")]

  /** `duplicatesData`. */
  function DuplicatesRows(d: Duplicates): seq<Row> {
    [[Text("Synth\U{E8}se des doublons d\U{E9}tect\U{E9}s")], []]
    + (if |d.fileA| > 0 then
         [[Text("Doublons dans le Fichier Fournisseur")], DuplicateHeader]
         + seq(|d.fileA|, k requires 0 <= k < |d.fileA| => DuplicateRow(d.fileA[k])) + [[]]
       else [])
    + (if |d.fileB| > 0 then
         [[Text("Doublons dans le Fichier SEGUCE RDC")], DuplicateHeader]
         + seq(|d.fileB|, k requires 0 <= k < |d.fileB| => DuplicateRow(d.fileB[k]))
       else [])
  }

  /** The layout of the duplicates sheet: the title and a blank row; then, when file A
      has duplicates, its heading, the column titles, one line per entry (identifier,
      occurrences, joined row numbers) and a blank row; then the same for file B, without
      the closing blank row. */
  lemma DuplicatesLayout(d: Duplicates)
    ensures var rows := DuplicatesRows(d);
            var b := 2 + (if |d.fileA| > 0 then |d.fileA| + 3 else 0);
            && |rows| == b + (if |d.fileB| > 0 then |d.fileB| + 2 else 0)
            && rows[0] == [Text("Synth\U{E8}se des doublons d\U{E9}tect\U{E9}s")] && rows[1] == []
            && (|d.fileA| > 0 ==>
                  && rows[2] == [Text("Doublons dans le Fichier Fournisseur")]
                  && rows[3] == [Text("Matricule"), Text("Occurrences"), Text("Lignes")]
                  && (forall k :: 0 <= k < |d.fileA| ==>
                        rows[4 + k] == [Text(d.fileA[k].matricule), Number(d.fileA[k].count as real),
                                        Text(JoinNumbers(d.fileA[k].rows))])
                  && rows[b - 1] == [])
            && (|d.fileB| > 0 ==>
                  && rows[b] == [Text("Doublons dans le Fichier SEGUCE RDC")]
                  && rows[b + 1] == [Text("Matricule"), Text("Occurrences"), Text("Lignes")]
                  && forall k :: 0 <= k < |d.fileB| ==>
                       rows[b + 2 + k] == [Text(d.fileB[k].matricule), Number(d.fileB[k].count as real),
                                           Text(JoinNumbers(d.fileB[k].rows))])
  {
    var title: seq<Row> := [[Text("Synth\U{E8}se des doublons d\U{E9}tect\U{E9}s")], []];
    var blockA: seq<Row> := if |d.fileA| > 0 then
         [[Text("Doublons dans le Fichier Fournisseur")], DuplicateHeader]
         + seq(|d.fileA|, k requires 0 <= k < |d.fileA| => DuplicateRow(d.fileA[k])) + [[]]
       else [];
    var blockB: seq<Row> := if |d.fileB| > 0 then
         [[Text("Doublons dans le Fichier SEGUCE RDC")], DuplicateHeader]
         + seq(|d.fileB|, k requires 0 <= k < |d.fileB| => DuplicateRow(d.fileB[k]))
       else [];
    assert DuplicatesRows(d) == title + blockA + blockB;
  }

  // ---------------------------------------------------------------------------
  // Lexicon

  /** An item of `lexiqueItems`. */
  datatype LexiconItem = LexiconItem(columnName: string, columnType: string, description: Option<string>, formula: Option<string>)

  /** `x || "-"` for a text that may be missing. */
  function OrDash(o: Option<string>): string {
    if o.None? || o.value == "" then "-" else o.value
  }

  function KindLabel(columnType: string): string {
    if columnType == "fixe" then "\U{C9}l\U{E9}ment fixe" else "\U{C9}l\U{E9}ment variable"
  }

  function LexiconLine(item: LexiconItem): Row {
    [Text(item.columnName), Text(KindLabel(item.columnType)), Text(OrDash(item.description)), Text(OrDash(item.formula))]
  }

  const LexiconHead: seq<Row> := [[Text("Lexique des formules")], [],
                                  [Text("Rubrique"), Text("Type"), Text("Description"), Text("Formule")]]

  /** The formulas written when there is no lexicon. */
  const DefaultLexicon: seq<Row> := [
    [Text("Plafond Cnss"), Text("Fixe"), Text("Montant maximum soumis \U{E0} cotisation"),
     Text("Salaire+Anciennet\U{E9}+Sur Salaire+Maladie+Cong\U{E9} Circ.+Feri\U{E9}+Cong\U{E9} Maternit\U{E9}+Cong\U{E9} Payer+Heure Suppl\U{E9}mentaire+...etc")],
    [Text("Cnss QPO"), Text("Fixe"), Text("CNSS Quote part ouvrier"), Text("Plafond Cnss*5%")],
    [Text("Cnss QPP"), Text("Fixe"), Text("CNSS Quote part patronale"), Text("Plafond Cnss*13%")],
    [Text("Inpp"), Text("Fixe"), Text("Institut National de Pr\U{E9}paration Professionnelle"), Text("Plafond Cnss*2%")],
    [Text("Onem"), Text("Fixe"), Text("Office National de l'Emploi"), Text("Plafond Cnss*0,2%")]]

  /** `lexiqueData`; no items and an empty list are the same. One line per item,
      labelled fixed exactly for type `fixe`, with a dash for a missing description or
      formula; five default lines when there is no item. */
  function LexiconRows(items: seq<LexiconItem>): (rows: seq<Row>)
    ensures |rows| == 3 + (if |items| > 0 then |items| else 5)
    ensures rows[..3] == LexiconHead
    ensures |items| == 0 ==> rows[3..] == DefaultLexicon
    ensures forall k :: 0 <= k < |items| ==>
              && |rows[3 + k]| == 4
              && rows[3 + k][0] == Text(items[k].columnName)
              && (rows[3 + k][1] == Text("\U{C9}l\U{E9}ment fixe") <==> items[k].columnType == "fixe")
              && (rows[3 + k][2] == Text("-") <==> items[k].description.None? || items[k].description.value in {"", "-"})
              && (rows[3 + k][3] == Text("-") <==> items[k].formula.None? || items[k].formula.value in {"", "-"})
    ensures forall k :: 0 <= k < |items| ==>
              && (items[k].columnType != "fixe" ==> rows[3 + k][1] == Text("\U{C9}l\U{E9}ment variable"))
              && (items[k].description.Some? && items[k].description.value != "" ==>
                    rows[3 + k][2] == Text(items[k].description.value))
              && (items[k].formula.Some? && items[k].formula.value != "" ==>
                    rows[3 + k][3] == Text(items[k].formula.value))
  {
    LexiconHead
    + if |items| > 0 then seq(|items|, k requires 0 <= k < |items| => LexiconLine(items[k])) else DefaultLexicon
  }
}
