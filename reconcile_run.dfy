/** The loops of `compareExcelData`, each proved to compute the function of
    `Reconcile` that specifies it. */
module ReconcileRun {
  import opened Wrappers
  import opened JsText
  import opened CellValues
  import opened SheetReader
  import opened Reconcile

  /** The identifier column: the scan over headers and fragments, then the fallback to
      the first header. */
  method FindIdColumn(headers: seq<string>) returns (r: Option<string>)
    ensures r == IdColumn(headers)
  {
    var i := 0;
    while i < |headers|
      invariant 0 <= i <= |headers|
      invariant forall k :: 0 <= k < i ==> !IsIdHeader(headers[k])
    {
      var header := headers[i];
      var found := ContainsKeyword(NormalizeColumnName(header), IdKeywords);
      if found {
        FirstIdHeaderAt(headers, i);
        return Some(header);
      }
      i := i + 1;
    }
    assert forall h :: h in headers ==> !IsIdHeader(h);
    if |headers| > 0 && headers[0] != "" {
      r := Some(headers[0]);
    } else {
      r := None;
    }
  }

  /** The inner scan over the fragments: whether `name` contains one of `keywords`. */
  method ContainsKeyword(name: string, keywords: seq<string>) returns (found: bool)
    ensures found == ContainsAny(name, keywords)
  {
    var j := 0;
    while j < |keywords|
      invariant 0 <= j <= |keywords|
      invariant forall q :: 0 <= q < j ==> !Contains(name, keywords[q])
    {
      if Contains(name, keywords[j]) {
        return true;
      }
      j := j + 1;
    }
    found := false;
  }

  /** The first identifier-like header at position `i` is the one found. */
  lemma {:induction false} FirstIdHeaderAt(headers: seq<string>, i: nat)
    requires i < |headers| && IsIdHeader(headers[i])
    requires forall k :: 0 <= k < i ==> !IsIdHeader(headers[k])
    ensures FirstIdHeader(headers) == Some(headers[i])
  {
    if i > 0 {
      var tail := headers[1..];
      assert forall k :: 0 <= k < i - 1 ==> tail[k] == headers[k + 1];
      FirstIdHeaderAt(tail, i - 1);
    }
  }

  /** `columnMapping`: every A header against every B header. */
  method BuildColumnMapping(ha: seq<string>, hb: seq<string>) returns (m: Mapping)
    ensures m == MappingOf(ha, hb)
  {
    m := Mapping([], map[]);
    var i := 0;
    while i < |ha|
      invariant 0 <= i <= |ha|
      invariant m == MappingOf(ha[..i], hb)
    {
      m := MapHeader(m, ha[i], hb);
      assert ha[..i + 1][..i] == ha[..i];
      i := i + 1;
    }
    assert ha[..i] == ha;
  }

  /** `LastMatch` over one more B header. */
  lemma LastMatchStep(a: string, hb: seq<string>, j: nat)
    requires j < |hb|
    ensures LastMatch(a, hb[..j + 1])
            == if NormalizeColumnName(hb[j]) == NormalizeColumnName(a) then Some(hb[j]) else LastMatch(a, hb[..j])
  {
    var s := hb[..j + 1];
    assert s[..|s| - 1] == hb[..j] && s[|s| - 1] == hb[j];
  }

  /** A later assignment of the same header overrides an earlier one. */
  lemma AssignAgain(m0: Mapping, a: string, x: Option<string>, y: string)
    ensures Assign(Assign(m0, a, x), a, Some(y)) == Assign(m0, a, Some(y))
  {
    if x.Some? {
      assert m0.target[a := x.value][a := y] == m0.target[a := y];
    }
  }

  /** The inner loop of the mapping: header `a` against every B header. */
  method MapHeader(m0: Mapping, a: string, hb: seq<string>) returns (m: Mapping)
    ensures m == Assign(m0, a, LastMatch(a, hb))
  {
    m := m0;
    var normA := NormalizeColumnName(a);
    var j := 0;
    while j < |hb|
      invariant 0 <= j <= |hb|
      invariant m == Assign(m0, a, LastMatch(a, hb[..j]))
    {
      LastMatchStep(a, hb, j);
      if normA == NormalizeColumnName(hb[j]) {
        AssignAgain(m0, a, LastMatch(a, hb[..j]), hb[j]);
        m := Mapping(if a in m.keys then m.keys else m.keys + [a], m.target[a := hb[j]]);
      }
      j := j + 1;
    }
    assert hb[..j] == hb;
  }

  /** `numericColumns`: the sample of each compared column. */
  method DetectNumericColumns(pairs: seq<ColumnPair>, rows: seq<Record>) returns (numeric: seq<string>)
    ensures numeric == NumericColumns(pairs, rows)
  {
    numeric := [];
    var sampleSize := Min(|rows|, 10);
    var c := 0;
    while c < |pairs|
      invariant 0 <= c <= |pairs|
      invariant numeric == NumericColumns(pairs[..c], rows)
    {
      var col := pairs[c].a;
      var numericCount := 0;
      var i := 0;
      while i < sampleSize
        invariant 0 <= i <= sampleSize
        invariant numericCount == NumericCount(rows, col, i)
      {
        var value := Lookup(rows[i], col);
        if !IsNullish(value) && ParseValue(value).Num? {
          numericCount := numericCount + 1;
        }
        i := i + 1;
      }
      assert pairs[..c + 1][..c] == pairs[..c];
      if numericCount as real > sampleSize as real / 2.0 {
        numeric := numeric + [col];
      }
      c := c + 1;
    }
    assert pairs[..c] == pairs;
  }

  /** `fileBDict`. */
  method BuildIndex(rows: seq<Record>, col: string) returns (index: map<string, Record>)
    ensures index == IndexById(rows, col)
  {
    index := map[];
    var i := 0;
    while i < |rows|
      invariant 0 <= i <= |rows|
      invariant index == IndexById(rows[..i], col)
    {
      assert rows[..i + 1][..i] == rows[..i];
      var cell := if col in rows[i] then rows[i][col] else None;
      if cell.Some? {
        index := index[Trim(cell.value) := rows[i]];
      }
      i := i + 1;
    }
    assert rows[..i] == rows;
  }

  /** The comparison of one column of a matched pair of rows. */
  method CompareColumn(p: ColumnPair, numeric: seq<string>, rowA: Record, rowB: Record) returns (d: Option<Difference>)
    ensures d == DiffFor(p, numeric, rowA, rowB)
  {
    var valueA := ParseValue(Lookup(rowA, p.a));
    var valueB := ParseValue(Lookup(rowB, p.b));
    if (valueA.Null? && valueB.Null?) || (valueA.Undef? && valueB.Undef?) {
      return None;
    }
    if AreValuesEqual(valueA, valueB) {
      return None;
    }
    var difference := CalculateDifference(valueA, valueB);
    d := Some(Difference(p.a, p.b, valueA, valueB, difference, p.a in numeric));
  }

  /** `RowDifferences` over one more compared column. */
  lemma RowDifferencesStep(pairs: seq<ColumnPair>, c: nat, numeric: seq<string>, rowA: Record, rowB: Record)
    requires c < |pairs|
    ensures RowDifferences(pairs[..c + 1], numeric, rowA, rowB)
            == Extend(RowDifferences(pairs[..c], numeric, rowA, rowB), DiffFor(pairs[c], numeric, rowA, rowB))
  {
    var next := pairs[..c + 1];
    assert next[..|next| - 1] == pairs[..c] && next[|next| - 1] == pairs[c];
  }

  method CompareRow(plan: Plan, rowA: Record, rowB: Record) returns (diffs: seq<Difference>)
    ensures diffs == RowDifferences(plan.pairs, plan.numeric, rowA, rowB)
  {
    diffs := [];
    var c := 0;
    while c < |plan.pairs|
      invariant 0 <= c <= |plan.pairs|
      invariant diffs == RowDifferences(plan.pairs[..c], plan.numeric, rowA, rowB)
    {
      var p := plan.pairs[c];
      var d := CompareColumn(p, plan.numeric, rowA, rowB);
      RowDifferencesStep(plan.pairs, c, plan.numeric, rowA, rowB);
      if d.Some? {
        diffs := diffs + [d.value];
      }
      c := c + 1;
    }
    assert plan.pairs[..c] == plan.pairs;
  }

  /** The update of `columnDifferences` for the differences of one row. */
  method TallyRow(counts: seq<ColumnCount>, diffs: seq<Difference>) returns (r: seq<ColumnCount>)
    ensures r == Tally(counts, diffs)
  {
    r := counts;
    var k := 0;
    while k < |diffs|
      invariant 0 <= k <= |diffs|
      invariant r == Tally(counts, diffs[..k])
    {
      assert diffs[..k + 1][..k] == diffs[..k];
      var d := diffs[k];
      var existing := FindColumn(r, d.column);
      if existing >= 0 {
        r := r[existing := r[existing].(count := r[existing].count + 1)];
      } else {
        r := r + [ColumnCount(d.column, d.columnB, 1, d.isNumeric)];
      }
      k := k + 1;
    }
    assert diffs[..k] == diffs;
  }

  /** The walk over the rows of A. */
  method WalkRowsA(plan: Plan, rows: seq<Record>) returns (p: Progress)
    ensures p == WalkA(plan, Progress(0, [], []), rows)
  {
    p := Progress(0, [], []);
    var i := 0;
    while i < |rows|
      invariant 0 <= i <= |rows|
      invariant p == WalkA(plan, Progress(0, [], []), rows[..i])
    {
      assert rows[..i + 1][..i] == rows[..i];
      var rowA := rows[i];
      var idValue := IdOf(rowA, plan.idA);
      if idValue.Some? {
        var id := idValue.value;
        if id in plan.index {
          var diffs := CompareRow(plan, rowA, plan.index[id]);
          if |diffs| > 0 {
            var counts := TallyRow(p.counts, diffs);
            p := Progress(p.total + 1, counts, p.details + [Matched(id, diffs)]);
          }
        } else {
          p := Progress(p.total + 1, p.counts, p.details + [OnlyInA(id, WithMatricule(id, rowA))]);
        }
      }
      i := i + 1;
    }
    assert rows[..i] == rows;
  }

  /** `rowAExists`: the `some` over the rows of A. */
  method RowExistsInA(rowsA: seq<Record>, idA: string, id: string) returns (found: bool)
    ensures found == ExistsInA(rowsA, idA, id)
  {
    var i := 0;
    while i < |rowsA|
      invariant 0 <= i <= |rowsA|
      invariant forall k :: 0 <= k < i ==> LooseId(rowsA[k], idA) != Some(id)
    {
      if LooseId(rowsA[i], idA) == Some(id) {
        return true;
      }
      i := i + 1;
    }
    return false;
  }

  /** The walk over the rows of B. */
  method WalkRowsB(plan: Plan, rowsA: seq<Record>, p0: Progress, rows: seq<Record>) returns (p: Progress)
    ensures p == WalkB(plan, rowsA, p0, rows)
  {
    p := p0;
    var i := 0;
    while i < |rows|
      invariant 0 <= i <= |rows|
      invariant p == WalkB(plan, rowsA, p0, rows[..i])
    {
      assert rows[..i + 1][..i] == rows[..i];
      var rowB := rows[i];
      var idValue := IdOf(rowB, plan.idB);
      if idValue.Some? {
        var id := idValue.value;
        var rowAExists := RowExistsInA(rowsA, plan.idA, id);
        if !rowAExists {
          p := Progress(p.total + 1, p.counts, p.details + [OnlyInB(id, WithMatricule(id, rowB))]);
        }
      }
      i := i + 1;
    }
    assert rows[..i] == rows;
  }

  /** `compareExcelData`. */
  method CompareExcelData(a: Table, b: Table) returns (r: Result<Comparison, CompareError>)
    ensures r == Compare(a, b)
  {
    if |a.data| == 0 || |b.data| == 0 {
      return Success(EmptyResult(a, b));
    }
    var idColumnA := FindIdColumn(a.headers);
    var idColumnB := FindIdColumn(b.headers);
    if idColumnA.None? || idColumnB.None? {
      return Failure(NoIdColumn);
    }
    var idA := idColumnA.value;
    var idB := idColumnB.value;
    var mapping := BuildColumnMapping(a.headers, b.headers);
    var pairs := CommonPairs(mapping.keys, mapping.target, idA);
    if pairs == [] {
      return Success(EmptyResult(a, b));
    }
    var numeric := DetectNumericColumns(pairs, a.data);
    var index := BuildIndex(b.data, idB);
    var plan := Plan(idA, idB, pairs, numeric, index);
    assert plan == PlanFor(a, b, idA, idB);
    var idsA := IdSet(a.data, idA);
    var idsB := IdSet(b.data, idB);
    var afterA := WalkRowsA(plan, a.data);
    var afterB := WalkRowsB(plan, a.data, afterA, b.data);
    r := Success(Comparison(
      |a.data|, |b.data|, afterB.total, afterB.counts, afterB.details, a.headers, b.headers,
      Some(|idsA|), Some(|idsA| < |a.data| || |idsB| < |b.data|)));
  }
}
