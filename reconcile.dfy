/** `compareExcelData` of `utils/excel-parser.js` as functions: identifier columns,
    the column mapping, numeric columns, the index of file B, and the two walks that
    produce the comparison result. The imperative version is in `ReconcileRun`. */
module Reconcile {
  import opened Wrappers
  import opened JsText
  import opened CellValues
  import opened SheetReader

  /** `normalizeColumnName`: lower-cased, every `\s` character removed. */
  function NormalizeColumnName(name: string): string {
    StripSpaces(Lower(name))
  }

  /** The fragments that mark an identifier column, matched in normalised names. */
  const IdKeywords: seq<string> := ["matriculefictif", "matricule", "id", "code", "reference", "employeid"]

  predicate IsIdHeader(h: string) {
    ContainsAny(NormalizeColumnName(h), IdKeywords)
  }

  predicate Distinct<T(==)>(s: seq<T>) {
    forall i, j :: 0 <= i < j < |s| ==> s[i] != s[j]
  }

  /** The first header, in header order, whose normalised name contains an identifier
      fragment. */
  function FirstIdHeader(headers: seq<string>): (r: Option<string>)
    ensures r.Some? ==> r.value in headers && IsIdHeader(r.value)
    ensures r.None? <==> forall h :: h in headers ==> !IsIdHeader(h)
  {
    if headers == [] then None
    else if IsIdHeader(headers[0]) then Some(headers[0])
    else
      assert forall h :: h in headers ==> h == headers[0] || h in headers[1..];
      FirstIdHeader(headers[1..])
  }

  /** The header found is the first identifier-like one in header order. */
  lemma {:induction false} FirstIdHeaderIsFirst(headers: seq<string>)
    requires FirstIdHeader(headers).Some?
    ensures exists i :: 0 <= i < |headers| && headers[i] == FirstIdHeader(headers).value
                        && forall k :: 0 <= k < i ==> !IsIdHeader(headers[k])
  {
    if IsIdHeader(headers[0]) {
      assert headers[0] == FirstIdHeader(headers).value;
    } else {
      var tail := headers[1..];
      FirstIdHeaderIsFirst(tail);
      var i :| 0 <= i < |tail| && tail[i] == FirstIdHeader(tail).value
               && forall k :: 0 <= k < i ==> !IsIdHeader(tail[k]);
      assert headers[i + 1] == FirstIdHeader(headers).value;
      forall k | 0 <= k < i + 1 ensures !IsIdHeader(headers[k]) {
        if k > 0 {
          assert headers[k] == tail[k - 1];
        }
      }
    }
  }

  /** The identifier column of a table: the first identifier-like header, otherwise the
      first header; none when there is no header or the first one is empty. */
  function IdColumn(headers: seq<string>): Option<string> {
    match FirstIdHeader(headers)
    case Some(h) => Some(h)
    case None => if |headers| > 0 && headers[0] != "" then Some(headers[0]) else None
  }

  // ---------------------------------------------------------------------------
  // Column mapping

  /** Position `j` of `hb` has the same normalised name as `a`, and no later one does. */
  predicate LastMatchAt(a: string, hb: seq<string>, j: int) {
    && 0 <= j < |hb| && NormalizeColumnName(hb[j]) == NormalizeColumnName(a)
    && forall k :: j < k < |hb| ==> NormalizeColumnName(hb[k]) != NormalizeColumnName(a)
  }

  /** A last match stays the last one when a non-matching header is appended. */
  lemma LastMatchAtSnoc(a: string, hb: seq<string>, j: int)
    requires hb != [] && LastMatchAt(a, hb[..|hb| - 1], j)
    requires NormalizeColumnName(hb[|hb| - 1]) != NormalizeColumnName(a)
    ensures LastMatchAt(a, hb, j) && hb[j] == hb[..|hb| - 1][j]
  {
  }

  /** The last header of `hb` with the same normalised name as `a`: the one the
      overwriting loop leaves in place. */
  function LastMatch(a: string, hb: seq<string>): (r: Option<string>)
    ensures r.Some? ==> r.value in hb && NormalizeColumnName(r.value) == NormalizeColumnName(a)
    ensures r.None? <==> forall j :: 0 <= j < |hb| ==> NormalizeColumnName(hb[j]) != NormalizeColumnName(a)
  {
    if hb == [] then None
    else if NormalizeColumnName(hb[|hb| - 1]) == NormalizeColumnName(a) then Some(hb[|hb| - 1])
    else
      var r := LastMatch(a, hb[..|hb| - 1]);
      assert forall j :: 0 <= j < |hb| - 1 ==> hb[..|hb| - 1][j] == hb[j];
      r
  }

  /** The header `LastMatch` picks sits at a position after which no header of `hb`
      has the same normalised name: of several matches, the last one wins. */
  lemma {:induction false} LastMatchIsLast(a: string, hb: seq<string>)
    ensures LastMatch(a, hb).Some? ==> exists j :: LastMatchAt(a, hb, j) && hb[j] == LastMatch(a, hb).value
  {
    if hb != [] {
      var n := |hb| - 1;
      if NormalizeColumnName(hb[n]) == NormalizeColumnName(a) {
        assert LastMatch(a, hb) == Some(hb[n]);
        assert LastMatchAt(a, hb, n);
      } else {
        var init := hb[..n];
        var o := LastMatch(a, init);
        assert LastMatch(a, hb) == o;
        LastMatchIsLast(a, init);
        if o.Some? {
          var j :| LastMatchAt(a, init, j) && init[j] == o.value;
          LastMatchAtSnoc(a, hb, j);
          assert LastMatchAt(a, hb, j) && hb[j] == o.value;
        }
      }
    }
  }

  /** `columnMapping` with its keys in insertion order. */
  datatype Mapping = Mapping(keys: seq<string>, target: map<string, string>)

  /** The mapping built from the A headers in order: each A header with a match in B is
      mapped to its last match, and inserted as a key the first time. */
  function MappingOf(ha: seq<string>, hb: seq<string>): (r: Mapping)
    ensures forall k :: k in r.keys <==> k in r.target
    ensures Distinct(r.keys)
    ensures forall k :: k in r.target <==> k in ha && LastMatch(k, hb).Some?
    ensures forall k :: k in r.target ==> LastMatch(k, hb) == Some(r.target[k])
  {
    if ha == [] then Mapping([], map[])
    else
      var m := MappingOf(ha[..|ha| - 1], hb);
      var a := ha[|ha| - 1];
      assert forall k :: k in ha <==> k in ha[..|ha| - 1] || k == a;
      Assign(m, a, LastMatch(a, hb))
  }

  /** `columnMapping[a] = b`: a new key is appended to the key order. */
  function Assign(m: Mapping, a: string, b: Option<string>): Mapping {
    match b
    case None => m
    case Some(b) => Mapping(if a in m.keys then m.keys else m.keys + [a], m.target[a := b])
  }

  /** A compared column: its name in A and the mapped name in B. */
  datatype ColumnPair = ColumnPair(a: string, b: string)

  /** `commonColumns` with their B names: the mapping's keys other than the identifier
      column of A, in key order. */
  function CommonPairs(keys: seq<string>, target: map<string, string>, idA: string): (r: seq<ColumnPair>)
    requires forall k :: k in keys ==> k in target
    ensures forall p :: p in r ==> p.a in keys && p.a != idA && p.b == target[p.a]
    ensures forall k :: k in keys && k != idA ==> exists p :: p in r && p.a == k
  {
    if keys == [] then []
    else
      var rest := CommonPairs(keys[..|keys| - 1], target, idA);
      var k := keys[|keys| - 1];
      assert forall x :: x in keys[..|keys| - 1] ==> x in keys;
      assert forall x :: x in keys ==> x in keys[..|keys| - 1] || x == k;
      if k == idA then rest else rest + [ColumnPair(k, target[k])]
  }

  predicate DistinctColumns(ps: seq<ColumnPair>) {
    forall i, j :: 0 <= i < j < |ps| ==> ps[i].a != ps[j].a
  }

  /** Distinct keys give distinct compared columns. */
  lemma {:induction false} CommonPairsDistinct(keys: seq<string>, target: map<string, string>, idA: string)
    requires forall k :: k in keys ==> k in target
    requires Distinct(keys)
    ensures DistinctColumns(CommonPairs(keys, target, idA))
  {
    if keys != [] {
      var init := keys[..|keys| - 1];
      var k := keys[|keys| - 1];
      assert forall x :: x in init ==> x in keys;
      assert Distinct(init);
      CommonPairsDistinct(init, target, idA);
      assert k !in init;
      var rest := CommonPairs(init, target, idA);
      assert forall p :: p in rest ==> p.a != k;
    }
  }

  // ---------------------------------------------------------------------------
  // Values of records

  /** `row[key]`: undefined when the key is absent, null for a null cell, else its text. */
  function Lookup(r: Record, key: string): Value {
    if key !in r then Undef
    else match r[key]
      case Some(s) => Str(s)
      case None => Null
  }

  /** The trimmed identifier of a row, when its identifier cell holds text. */
  function IdOf(r: Record, col: string): Option<string> {
    if col in r && r[col].Some? then Some(Trim(r[col].value)) else None
  }

  /** The test of the B walk, `row[idColumnA] !== undefined && String(...).trim() === id`:
      a null cell reads as the text `null`. */
  function LooseId(r: Record, col: string): Option<string> {
    if col !in r then None
    else match r[col]
      case Some(s) => Some(Trim(s))
      case None => Some("null")
  }

  // ---------------------------------------------------------------------------
  // Numeric columns

  /** Only the first ten rows are sampled. */
  function SampleSize(n: nat): nat {
    Min(n, 10)
  }

  /** How many of the first `n` values of column `col` are present and read as numbers. */
  function NumericCount(rows: seq<Record>, col: string, n: nat): (r: nat)
    requires n <= |rows|
    ensures r <= n
  {
    if n == 0 then 0
    else
      var v := Lookup(rows[n - 1], col);
      NumericCount(rows, col, n - 1) + (if !IsNullish(v) && ParseValue(v).Num? then 1 else 0)
  }

  /** More than half of the sampled values are numbers. */
  predicate IsNumericColumn(rows: seq<Record>, col: string) {
    2 * NumericCount(rows, col, SampleSize(|rows|)) > SampleSize(|rows|)
  }

  /** `numericColumns`: the compared A columns that are numeric, in order. */
  function NumericColumns(pairs: seq<ColumnPair>, rows: seq<Record>): (r: seq<string>)
    ensures forall c :: c in r <==> (exists p :: p in pairs && p.a == c) && IsNumericColumn(rows, c)
  {
    if pairs == [] then []
    else
      var rest := NumericColumns(pairs[..|pairs| - 1], rows);
      var p := pairs[|pairs| - 1];
      assert forall q :: q in pairs <==> q in pairs[..|pairs| - 1] || q == p;
      if IsNumericColumn(rows, p.a) then rest + [p.a] else rest
  }

  // ---------------------------------------------------------------------------
  // Index of B and identifier sets

  /** `fileBDict`: every row with an identifier under its trimmed identifier; a later row
      replaces an earlier one. */
  function IndexById(rows: seq<Record>, col: string): map<string, Record> {
    if rows == [] then map[]
    else
      var m := IndexById(rows[..|rows| - 1], col);
      match IdOf(rows[|rows| - 1], col)
      case Some(id) => m[id := rows[|rows| - 1]]
      case None => m
  }

  /** The keys of the index are exactly the trimmed identifiers of the rows. */
  lemma {:induction false} IndexKeys(rows: seq<Record>, col: string)
    ensures IndexById(rows, col).Keys == IdSet(rows, col)
    ensures forall id :: id in IndexById(rows, col) <==> exists i :: 0 <= i < |rows| && IdOf(rows[i], col) == Some(id)
  {
    if rows != [] {
      IndexKeys(rows[..|rows| - 1], col);
    }
  }

  /** `matriculesA` / `matriculesB`: the set of trimmed identifiers. */
  function IdSet(rows: seq<Record>, col: string): (r: set<string>)
    ensures forall id :: id in r <==> exists i :: 0 <= i < |rows| && IdOf(rows[i], col) == Some(id)
  {
    if rows == [] then {}
    else
      var s := IdSet(rows[..|rows| - 1], col);
      assert forall i :: 0 <= i < |rows| - 1 ==> rows[..|rows| - 1][i] == rows[i];
      match IdOf(rows[|rows| - 1], col)
      case Some(id) => s + {id}
      case None => s
  }

  /** Some row of A carries `id` under the loose reading of the B walk. */
  predicate ExistsInA(rowsA: seq<Record>, idA: string, id: string) {
    exists i :: 0 <= i < |rowsA| && LooseId(rowsA[i], idA) == Some(id)
  }

  // ---------------------------------------------------------------------------
  // Differences

  /** One entry of a matched detail's `differences`. */
  datatype Difference = Difference(
    column: string, columnB: string, valueA: Value, valueB: Value,
    difference: Delta, isNumeric: bool)

  /** The comparison of one column of a matched pair of rows: none when both values are
      null or undefined, or when they compare equal. */
  function DiffFor(p: ColumnPair, numeric: seq<string>, rowA: Record, rowB: Record): Option<Difference> {
    var va := ParseValue(Lookup(rowA, p.a));
    var vb := ParseValue(Lookup(rowB, p.b));
    if (va.Null? && vb.Null?) || (va.Undef? && vb.Undef?) then None
    else if AreValuesEqual(va, vb) then None
    else Some(Difference(p.a, p.b, va, vb, CalculateDifference(va, vb), p.a in numeric))
  }

  /** `rowDifferences` over the compared columns, in order. */
  function RowDifferences(pairs: seq<ColumnPair>, numeric: seq<string>, rowA: Record, rowB: Record): seq<Difference> {
    if pairs == [] then []
    else
      Extend(RowDifferences(pairs[..|pairs| - 1], numeric, rowA, rowB), DiffFor(pairs[|pairs| - 1], numeric, rowA, rowB))
  }

  function Extend<T>(s: seq<T>, o: Option<T>): seq<T> {
    match o
    case Some(x) => s + [x]
    case None => s
  }

  /** An entry of `columnDifferences`. */
  datatype ColumnCount = ColumnCount(column: string, columnB: string, count: nat, isNumeric: bool)

  /** `columnDifferences.find(c => c.column === column)` as a position, or -1. */
  function FindColumn(counts: seq<ColumnCount>, column: string): (r: int)
    ensures -1 <= r < |counts|
    ensures r >= 0 ==> counts[r].column == column && forall k :: 0 <= k < r ==> counts[k].column != column
    ensures r < 0 ==> forall k :: 0 <= k < |counts| ==> counts[k].column != column
  {
    if counts == [] then -1
    else if counts[0].column == column then 0
    else
      var r := FindColumn(counts[1..], column);
      assert forall k :: 1 <= k < |counts| ==> counts[k] == counts[1..][k - 1];
      if r < 0 then -1 else r + 1
  }

  /** Find-or-increment for one difference. */
  function TallyOne(counts: seq<ColumnCount>, d: Difference): seq<ColumnCount> {
    var i := FindColumn(counts, d.column);
    if i >= 0 then counts[i := counts[i].(count := counts[i].count + 1)]
    else counts + [ColumnCount(d.column, d.columnB, 1, d.isNumeric)]
  }

  function Tally(counts: seq<ColumnCount>, diffs: seq<Difference>): seq<ColumnCount> {
    if diffs == [] then counts
    else TallyOne(Tally(counts, diffs[..|diffs| - 1]), diffs[|diffs| - 1])
  }

  // ---------------------------------------------------------------------------
  // The result

  /** An entry of `details`; a matched entry's `rowData` is always `{matricule: id}` and
      is not kept. */
  datatype Detail =
    | OnlyInA(id: string, rowData: Record)
    | OnlyInB(id: string, rowData: Record)
    | Matched(id: string, differences: seq<Difference>)

  /** `{matricule: id, ...row}`: the row's own `matricule` key, when it has one, wins. */
  function WithMatricule(id: string, row: Record): Record {
    map["matricule" := Some(id)] + row
  }

  /** The running part of `results` during the two walks. */
  datatype Progress = Progress(total: nat, counts: seq<ColumnCount>, details: seq<Detail>)

  /** What the walks need: the two identifier columns, the compared columns, the numeric
      columns and the index of B. */
  datatype Plan = Plan(idA: string, idB: string, pairs: seq<ColumnPair>, numeric: seq<string>, index: map<string, Record>)

  /** One row of A: skipped without identifier; `onlyInFileA` when its identifier is not
      in the index; otherwise a matched entry when some column differs. */
  function StepA(plan: Plan, p: Progress, rowA: Record): Progress {
    match IdOf(rowA, plan.idA)
    case None => p
    case Some(id) =>
      if id in plan.index then
        var diffs := RowDifferences(plan.pairs, plan.numeric, rowA, plan.index[id]);
        if |diffs| > 0 then Progress(p.total + 1, Tally(p.counts, diffs), p.details + [Matched(id, diffs)])
        else p
      else Progress(p.total + 1, p.counts, p.details + [OnlyInA(id, WithMatricule(id, rowA))])
  }

  function WalkA(plan: Plan, p: Progress, rows: seq<Record>): Progress {
    if rows == [] then p else StepA(plan, WalkA(plan, p, rows[..|rows| - 1]), rows[|rows| - 1])
  }

  /** One row of B: `onlyInFileB` when no row of A carries its identifier. */
  function StepB(plan: Plan, rowsA: seq<Record>, p: Progress, rowB: Record): Progress {
    match IdOf(rowB, plan.idB)
    case None => p
    case Some(id) =>
      if ExistsInA(rowsA, plan.idA, id) then p
      else Progress(p.total + 1, p.counts, p.details + [OnlyInB(id, WithMatricule(id, rowB))])
  }

  function WalkB(plan: Plan, rowsA: seq<Record>, p: Progress, rows: seq<Record>): Progress {
    if rows == [] then p else StepB(plan, rowsA, WalkB(plan, rowsA, p, rows[..|rows| - 1]), rows[|rows| - 1])
  }

  /** The object `compareExcelData` returns. The identifier count and the duplicate flag
      are only set once the comparison gets past its early exits. */
  datatype Comparison = Comparison(
    rowsA: nat, rowsB: nat,
    totalDifferences: nat,
    columnDifferences: seq<ColumnCount>,
    details: seq<Detail>,
    headersA: seq<string>, headersB: seq<string>,
    matriculeCount: Option<nat>,
    hasDuplicates: Option<bool>)

  /** The error thrown when a table has no usable identifier column. */
  datatype CompareError = NoIdColumn

  function EmptyResult(a: Table, b: Table): Comparison {
    Comparison(|a.data|, |b.data|, 0, [], [], a.headers, b.headers, None, None)
  }

  /** The plan for two tables whose identifier columns are `idA` and `idB`. */
  function PlanFor(a: Table, b: Table, idA: string, idB: string): Plan {
    var m := MappingOf(a.headers, b.headers);
    var pairs := CommonPairs(m.keys, m.target, idA);
    Plan(idA, idB, pairs, NumericColumns(pairs, a.data), IndexById(b.data, idB))
  }

  /** `compareExcelData`. */
  function Compare(a: Table, b: Table): Result<Comparison, CompareError> {
    if |a.data| == 0 || |b.data| == 0 then Success(EmptyResult(a, b))
    else if IdColumn(a.headers).None? || IdColumn(b.headers).None? then Failure(NoIdColumn)
    else
      var plan := PlanFor(a, b, IdColumn(a.headers).value, IdColumn(b.headers).value);
      if plan.pairs == [] then Success(EmptyResult(a, b))
      else
        var afterA := WalkA(plan, Progress(0, [], []), a.data);
        var afterB := WalkB(plan, a.data, afterA, b.data);
        var idsA := IdSet(a.data, plan.idA);
        var idsB := IdSet(b.data, plan.idB);
        Success(Comparison(
          |a.data|, |b.data|, afterB.total, afterB.counts, afterB.details, a.headers, b.headers,
          Some(|idsA|), Some(|idsA| < |a.data| || |idsB| < |b.data|)))
  }
}
