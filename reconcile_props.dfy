/** Properties of `compareExcelData`: what each reported detail means, that every
    discrepancy is reported, the per-column counts, the duplicate flag, and that a table
    compared with itself shows no difference. */
module ReconcileProps {
  import opened Wrappers
  import opened JsText
  import opened CellValues
  import opened SheetReader
  import opened Reconcile

  /** A reported difference: not two nulls, not equal, and its delta is the one
      `calculateDifference` gives. */
  predicate Differs(d: Difference) {
    !(d.valueA.Null? && d.valueB.Null?) && !AreValuesEqual(d.valueA, d.valueB)
    && d.difference == CalculateDifference(d.valueA, d.valueB)
  }

  /** The position of the first compared column named `col`, for triggers. */
  predicate ComparedColumn(pairs: seq<ColumnPair>, d: Difference, rowA: Record, rowB: Record) {
    exists p :: p in pairs && d.column == p.a && d.columnB == p.b
                && d.valueA == ParseValue(Lookup(rowA, p.a)) && d.valueB == ParseValue(Lookup(rowB, p.b))
  }

  predicate DistinctDiffColumns(ds: seq<Difference>) {
    forall i, j :: 0 <= i < j < |ds| ==> ds[i].column != ds[j].column
  }

  /** The comparison of one column reports the two parsed values and their delta, and
      reports nothing exactly when they are both null or equal. */
  lemma DiffForMeaning(p: ColumnPair, numeric: seq<string>, rowA: Record, rowB: Record)
    ensures DiffFor(p, numeric, rowA, rowB).Some? ==>
              var d := DiffFor(p, numeric, rowA, rowB).value;
              Differs(d) && d.column == p.a && d.columnB == p.b
              && d.valueA == ParseValue(Lookup(rowA, p.a)) && d.valueB == ParseValue(Lookup(rowB, p.b))
    ensures DiffFor(p, numeric, rowA, rowB).None? <==>
              var va := ParseValue(Lookup(rowA, p.a));
              var vb := ParseValue(Lookup(rowB, p.b));
              (va.Null? && vb.Null?) || AreValuesEqual(va, vb)
  {
  }

  /** Every difference of a pair of rows comes from a compared column whose parsed values
      differ. */
  lemma {:induction false} RowDifferencesSound(pairs: seq<ColumnPair>, numeric: seq<string>, rowA: Record, rowB: Record)
    ensures forall d :: d in RowDifferences(pairs, numeric, rowA, rowB) ==> Differs(d) && ComparedColumn(pairs, d, rowA, rowB)
  {
    if pairs != [] {
      var init := pairs[..|pairs| - 1];
      var last := pairs[|pairs| - 1];
      RowDifferencesSound(init, numeric, rowA, rowB);
      DiffForMeaning(last, numeric, rowA, rowB);
      var rest := RowDifferences(init, numeric, rowA, rowB);
      var o := DiffFor(last, numeric, rowA, rowB);
      assert RowDifferences(pairs, numeric, rowA, rowB) == Extend(rest, o);
      forall d | d in Extend(rest, o) ensures Differs(d) && ComparedColumn(pairs, d, rowA, rowB) {
        if d in rest {
          var p :| p in init && d.column == p.a && d.columnB == p.b
                   && d.valueA == ParseValue(Lookup(rowA, p.a)) && d.valueB == ParseValue(Lookup(rowB, p.b));
          assert p in pairs;
        } else {
          assert d == o.value;
          assert last in pairs;
        }
      }
    }
  }

  /** Every compared column whose parsed values differ is reported. */
  lemma {:induction false} RowDifferencesComplete(pairs: seq<ColumnPair>, numeric: seq<string>, rowA: Record, rowB: Record)
    ensures forall p :: p in pairs && DiffFor(p, numeric, rowA, rowB).Some? ==>
              DiffFor(p, numeric, rowA, rowB).value in RowDifferences(pairs, numeric, rowA, rowB)
  {
    if pairs != [] {
      var init := pairs[..|pairs| - 1];
      var last := pairs[|pairs| - 1];
      RowDifferencesComplete(init, numeric, rowA, rowB);
      var rest := RowDifferences(init, numeric, rowA, rowB);
      var o := DiffFor(last, numeric, rowA, rowB);
      assert RowDifferences(pairs, numeric, rowA, rowB) == Extend(rest, o);
      assert forall p :: p in pairs ==> p in init || p == last;
    }
  }

  /** The columns of the differences of a pair of rows, each a compared column. */
  lemma {:induction false} RowDifferencesColumns(pairs: seq<ColumnPair>, numeric: seq<string>, rowA: Record, rowB: Record)
    ensures forall d :: d in RowDifferences(pairs, numeric, rowA, rowB) ==> exists k :: 0 <= k < |pairs| && pairs[k].a == d.column
  {
    if pairs != [] {
      var init := pairs[..|pairs| - 1];
      var last := |pairs| - 1;
      RowDifferencesColumns(init, numeric, rowA, rowB);
      var rest := RowDifferences(init, numeric, rowA, rowB);
      var o := DiffFor(pairs[last], numeric, rowA, rowB);
      assert RowDifferences(pairs, numeric, rowA, rowB) == Extend(rest, o);
      forall d | d in Extend(rest, o)
        ensures exists k :: 0 <= k < |pairs| && pairs[k].a == d.column
      {
        if d in rest {
          var k :| 0 <= k < |init| && init[k].a == d.column;
          assert pairs[k] == init[k];
        } else {
          assert d == o.value && o.value.column == pairs[last].a;
        }
      }
    }
  }

  /** Distinct compared columns give differences in distinct columns. */
  lemma {:induction false} RowDifferencesDistinct(pairs: seq<ColumnPair>, numeric: seq<string>, rowA: Record, rowB: Record)
    requires DistinctColumns(pairs)
    ensures DistinctDiffColumns(RowDifferences(pairs, numeric, rowA, rowB))
  {
    if pairs != [] {
      var init := pairs[..|pairs| - 1];
      var last := pairs[|pairs| - 1];
      assert DistinctColumns(init);
      RowDifferencesDistinct(init, numeric, rowA, rowB);
      RowDifferencesColumns(init, numeric, rowA, rowB);
      var rest := RowDifferences(init, numeric, rowA, rowB);
      var o := DiffFor(last, numeric, rowA, rowB);
      if o.Some? {
        var x := o.value;
        assert x.column == last.a;
        NotLastColumn(pairs, init, rest);
        AppendDistinct(rest, x);
        assert RowDifferences(pairs, numeric, rowA, rowB) == rest + [x];
      }
    }
  }

  /** Differences drawn from the earlier of distinct compared columns avoid the last one. */
  lemma NotLastColumn(pairs: seq<ColumnPair>, init: seq<ColumnPair>, rest: seq<Difference>)
    requires pairs != [] && init == pairs[..|pairs| - 1] && DistinctColumns(pairs)
    requires forall d :: d in rest ==> exists k :: 0 <= k < |init| && init[k].a == d.column
    ensures forall d :: d in rest ==> d.column != pairs[|pairs| - 1].a
  {
    forall d | d in rest ensures d.column != pairs[|pairs| - 1].a {
      var k :| 0 <= k < |init| && init[k].a == d.column;
      assert pairs[k] == init[k];
    }
  }

  lemma AppendDistinct(rest: seq<Difference>, x: Difference)
    requires DistinctDiffColumns(rest)
    requires forall d :: d in rest ==> d.column != x.column
    ensures DistinctDiffColumns(rest + [x])
  {
    var all := rest + [x];
    forall i, j | 0 <= i < j < |all| ensures all[i].column != all[j].column {
      if j == |rest| {
        assert all[i] in rest;
      } else {
        assert all[i] == rest[i] && all[j] == rest[j];
      }
    }
  }

  // ---------------------------------------------------------------------------
  // Soundness of the details

  /** What a detail says about the two tables. */
  predicate DetailSound(rowsA: seq<Record>, rowsB: seq<Record>, idA: string, idB: string, d: Detail) {
    match d
    case OnlyInA(id, r) =>
      (exists i :: 0 <= i < |rowsA| && IdOf(rowsA[i], idA) == Some(id) && r == WithMatricule(id, rowsA[i]))
      && forall j :: 0 <= j < |rowsB| ==> IdOf(rowsB[j], idB) != Some(id)
    case OnlyInB(id, r) =>
      (exists j :: 0 <= j < |rowsB| && IdOf(rowsB[j], idB) == Some(id) && r == WithMatricule(id, rowsB[j]))
      && !ExistsInA(rowsA, idA, id)
    case Matched(id, ds) =>
      |ds| > 0
      && (exists i :: 0 <= i < |rowsA| && IdOf(rowsA[i], idA) == Some(id))
      && (exists j :: 0 <= j < |rowsB| && IdOf(rowsB[j], idB) == Some(id))
      && DistinctDiffColumns(ds)
      && forall k :: 0 <= k < |ds| ==> Differs(ds[k])
  }

  predicate Sound(rowsA: seq<Record>, rowsB: seq<Record>, idA: string, idB: string, p: Progress) {
    p.total == |p.details| && forall d :: d in p.details ==> DetailSound(rowsA, rowsB, idA, idB, d)
  }

  /** A plan built for `rowsB`: its index is of `rowsB` and its columns are distinct. */
  predicate PlanOf(plan: Plan, rowsB: seq<Record>) {
    plan.index == IndexById(rowsB, plan.idB) && DistinctColumns(plan.pairs)
  }

  /** A matched row of A whose comparison shows differences gives a sound detail. */
  lemma MatchedSound(plan: Plan, rowsA: seq<Record>, rowsB: seq<Record>, i: nat, id: string)
    requires PlanOf(plan, rowsB) && i < |rowsA| && IdOf(rowsA[i], plan.idA) == Some(id) && id in plan.index
    requires |RowDifferences(plan.pairs, plan.numeric, rowsA[i], plan.index[id])| > 0
    ensures DetailSound(rowsA, rowsB, plan.idA, plan.idB,
                        Matched(id, RowDifferences(plan.pairs, plan.numeric, rowsA[i], plan.index[id])))
  {
    var ds := RowDifferences(plan.pairs, plan.numeric, rowsA[i], plan.index[id]);
    RowDifferencesSound(plan.pairs, plan.numeric, rowsA[i], plan.index[id]);
    RowDifferencesDistinct(plan.pairs, plan.numeric, rowsA[i], plan.index[id]);
    forall k | 0 <= k < |ds| ensures Differs(ds[k]) {
      assert ds[k] in ds;
    }
    IndexKeys(rowsB, plan.idB);
  }

  /** A sound detail appended to sound progress, the total counted up. */
  lemma SoundSnoc(rowsA: seq<Record>, rowsB: seq<Record>, idA: string, idB: string, p: Progress,
                  counts: seq<ColumnCount>, d: Detail)
    requires Sound(rowsA, rowsB, idA, idB, p) && DetailSound(rowsA, rowsB, idA, idB, d)
    ensures Sound(rowsA, rowsB, idA, idB, Progress(p.total + 1, counts, p.details + [d]))
  {
  }

  /** One step of the A walk keeps the details sound. */
  lemma StepASound(plan: Plan, rowsA: seq<Record>, rowsB: seq<Record>, p: Progress, i: nat)
    requires PlanOf(plan, rowsB) && i < |rowsA| && Sound(rowsA, rowsB, plan.idA, plan.idB, p)
    ensures Sound(rowsA, rowsB, plan.idA, plan.idB, StepA(plan, p, rowsA[i]))
  {
    var row := rowsA[i];
    match IdOf(row, plan.idA)
    case None =>
      assert StepA(plan, p, row) == p;
    case Some(id) =>
      if id in plan.index {
        var ds := RowDifferences(plan.pairs, plan.numeric, row, plan.index[id]);
        if |ds| > 0 {
          MatchedSound(plan, rowsA, rowsB, i, id);
          SoundSnoc(rowsA, rowsB, plan.idA, plan.idB, p, Tally(p.counts, ds), Matched(id, ds));
          assert StepA(plan, p, row) == Progress(p.total + 1, Tally(p.counts, ds), p.details + [Matched(id, ds)]);
        } else {
          assert StepA(plan, p, row) == p;
        }
      } else {
        var d := OnlyInA(id, WithMatricule(id, row));
        assert DetailSound(rowsA, rowsB, plan.idA, plan.idB, d) by {
          IndexKeys(rowsB, plan.idB);
        }
        SoundSnoc(rowsA, rowsB, plan.idA, plan.idB, p, p.counts, d);
        assert StepA(plan, p, row) == Progress(p.total + 1, p.counts, p.details + [d]);
      }
  }

  /** The A walk over one more row is one more step. */
  lemma WalkAPrefix(plan: Plan, rowsA: seq<Record>, n: nat)
    requires 0 < n <= |rowsA|
    ensures WalkA(plan, Progress(0, [], []), rowsA[..n])
            == StepA(plan, WalkA(plan, Progress(0, [], []), rowsA[..n - 1]), rowsA[n - 1])
  {
    var rows := rowsA[..n];
    assert rows[..|rows| - 1] == rowsA[..n - 1];
  }

  lemma {:induction false} WalkASound(plan: Plan, rowsA: seq<Record>, rowsB: seq<Record>, n: nat)
    requires n <= |rowsA| && PlanOf(plan, rowsB)
    ensures Sound(rowsA, rowsB, plan.idA, plan.idB, WalkA(plan, Progress(0, [], []), rowsA[..n]))
  {
    if n > 0 {
      WalkASound(plan, rowsA, rowsB, n - 1);
      WalkAStepSound(plan, rowsA, rowsB, n);
    }
  }

  /** The A walk over one more row stays sound. */
  lemma WalkAStepSound(plan: Plan, rowsA: seq<Record>, rowsB: seq<Record>, n: nat)
    requires 0 < n <= |rowsA| && PlanOf(plan, rowsB)
    requires Sound(rowsA, rowsB, plan.idA, plan.idB, WalkA(plan, Progress(0, [], []), rowsA[..n - 1]))
    ensures Sound(rowsA, rowsB, plan.idA, plan.idB, WalkA(plan, Progress(0, [], []), rowsA[..n]))
  {
    StepASound(plan, rowsA, rowsB, WalkA(plan, Progress(0, [], []), rowsA[..n - 1]), n - 1);
    WalkAPrefix(plan, rowsA, n);
  }

  /** One step of the B walk keeps the details sound. */
  lemma StepBSound(plan: Plan, rowsA: seq<Record>, rowsB: seq<Record>, p: Progress, j: nat)
    requires j < |rowsB| && Sound(rowsA, rowsB, plan.idA, plan.idB, p)
    ensures Sound(rowsA, rowsB, plan.idA, plan.idB, StepB(plan, rowsA, p, rowsB[j]))
  {
    var row := rowsB[j];
    match IdOf(row, plan.idB)
    case None =>
    case Some(id) =>
      if !ExistsInA(rowsA, plan.idA, id) {
        var d := OnlyInB(id, WithMatricule(id, row));
        assert DetailSound(rowsA, rowsB, plan.idA, plan.idB, d);
        SoundSnoc(rowsA, rowsB, plan.idA, plan.idB, p, p.counts, d);
      }
  }

  /** The B walk over one more row is one more step. */
  lemma WalkBPrefix(plan: Plan, rowsA: seq<Record>, p0: Progress, rowsB: seq<Record>, n: nat)
    requires 0 < n <= |rowsB|
    ensures WalkB(plan, rowsA, p0, rowsB[..n]) == StepB(plan, rowsA, WalkB(plan, rowsA, p0, rowsB[..n - 1]), rowsB[n - 1])
  {
    var rows := rowsB[..n];
    assert rows[..|rows| - 1] == rowsB[..n - 1];
  }

  lemma {:induction false} WalkBSound(plan: Plan, rowsA: seq<Record>, rowsB: seq<Record>, p0: Progress, n: nat)
    requires n <= |rowsB| && Sound(rowsA, rowsB, plan.idA, plan.idB, p0)
    ensures Sound(rowsA, rowsB, plan.idA, plan.idB, WalkB(plan, rowsA, p0, rowsB[..n]))
  {
    if n > 0 {
      WalkBSound(plan, rowsA, rowsB, p0, n - 1);
      StepBSound(plan, rowsA, rowsB, WalkB(plan, rowsA, p0, rowsB[..n - 1]), n - 1);
      WalkBPrefix(plan, rowsA, p0, rowsB, n);
    }
  }

  /** Both walks over whole tables, from an empty result. */
  lemma WalksSound(plan: Plan, rowsA: seq<Record>, rowsB: seq<Record>)
    requires PlanOf(plan, rowsB)
    ensures Sound(rowsA, rowsB, plan.idA, plan.idB,
                  WalkB(plan, rowsA, WalkA(plan, Progress(0, [], []), rowsA), rowsB))
  {
    WalkASound(plan, rowsA, rowsB, |rowsA|);
    assert rowsA[..|rowsA|] == rowsA;
    WalkBSound(plan, rowsA, rowsB, WalkA(plan, Progress(0, [], []), rowsA), |rowsB|);
    assert rowsB[..|rowsB|] == rowsB;
  }

  /** The plan of two tables has distinct compared columns. */
  lemma PlanForDistinct(a: Table, b: Table, idA: string, idB: string)
    ensures PlanOf(PlanFor(a, b, idA, idB), b.data)
  {
    var m := MappingOf(a.headers, b.headers);
    CommonPairsDistinct(m.keys, m.target, idA);
  }

  /** Every reported detail is justified by the two tables, and the total is the number
      of details. */
  lemma CompareSound(a: Table, b: Table)
    requires Compare(a, b).Success?
    ensures Compare(a, b).value.totalDifferences == |Compare(a, b).value.details|
    ensures |a.data| > 0 && |b.data| > 0 ==>
              forall d :: d in Compare(a, b).value.details ==>
                DetailSound(a.data, b.data, IdColumn(a.headers).value, IdColumn(b.headers).value, d)
  {
    if |a.data| > 0 && |b.data| > 0 {
      var idA := IdColumn(a.headers).value;
      var idB := IdColumn(b.headers).value;
      var plan := PlanFor(a, b, idA, idB);
      if plan.pairs != [] {
        PlanForDistinct(a, b, idA, idB);
        WalksSound(plan, a.data, b.data);
      }
    }
  }

  /** A row reported only in B shares its identifier with no other detail; a row
      reported only in A shares it with no matched detail. */
  lemma DetailsExclusive(rowsA: seq<Record>, rowsB: seq<Record>, idA: string, idB: string, d: Detail, e: Detail)
    requires DetailSound(rowsA, rowsB, idA, idB, d) && DetailSound(rowsA, rowsB, idA, idB, e)
    requires (d.OnlyInB? && (e.OnlyInA? || e.Matched?)) || (d.OnlyInA? && e.Matched?)
    ensures d.id != e.id
  {
    if d.OnlyInB? {
      assert exists i :: 0 <= i < |rowsA| && IdOf(rowsA[i], idA) == Some(e.id);
      NotInAApart(rowsA, idA, d.id, e.id);
    }
  }

  /** An identifier no row of A carries differs from one some row of A carries. */
  lemma NotInAApart(rowsA: seq<Record>, idA: string, id: string, other: string)
    requires !ExistsInA(rowsA, idA, id)
    requires exists i :: 0 <= i < |rowsA| && IdOf(rowsA[i], idA) == Some(other)
    ensures id != other
  {
    var i :| 0 <= i < |rowsA| && IdOf(rowsA[i], idA) == Some(other);
    assert LooseId(rowsA[i], idA) == Some(other);
  }

  /** An identifier is reported in at most one way: never both only-in-A and only-in-B,
      and never as a missing row and a matched row at once. */
  lemma CompareExclusive(a: Table, b: Table)
    requires Compare(a, b).Success?
    ensures forall d, e ::
              d in Compare(a, b).value.details && e in Compare(a, b).value.details
              && d.OnlyInB? && (e.OnlyInA? || e.Matched?)
              ==> d.id != e.id
    ensures forall d, e ::
              d in Compare(a, b).value.details && e in Compare(a, b).value.details
              && d.OnlyInA? && e.Matched?
              ==> d.id != e.id
  {
    var details := Compare(a, b).value.details;
    CompareSound(a, b);
    if |a.data| > 0 && |b.data| > 0 {
      var idA := IdColumn(a.headers).value;
      var idB := IdColumn(b.headers).value;
      forall d, e | d in details && e in details && ((d.OnlyInB? && (e.OnlyInA? || e.Matched?)) || (d.OnlyInA? && e.Matched?))
        ensures d.id != e.id
      {
        DetailsExclusive(a.data, b.data, idA, idB, d, e);
      }
    }
  }

  /** The early exits: an empty table, or no shared column besides the identifier,
      gives zero differences, no details and no identifier statistics. */
  lemma CompareEarlyExit(a: Table, b: Table)
    requires |a.data| == 0 || |b.data| == 0 ||
             (IdColumn(a.headers).Some? && IdColumn(b.headers).Some? &&
              PlanFor(a, b, IdColumn(a.headers).value, IdColumn(b.headers).value).pairs == [])
    ensures Compare(a, b).Success?
    ensures Compare(a, b).value.totalDifferences == 0 && Compare(a, b).value.details == []
    ensures Compare(a, b).value.columnDifferences == []
    ensures Compare(a, b).value.matriculeCount.None? && Compare(a, b).value.hasDuplicates.None?
    ensures Compare(a, b).value.rowsA == |a.data| && Compare(a, b).value.rowsB == |b.data|
  {
  }

  // ---------------------------------------------------------------------------
  // Completeness of the details

  /** What the A walk must have reported for one row of A. */
  predicate ReportedA(plan: Plan, row: Record, details: seq<Detail>) {
    match IdOf(row, plan.idA)
    case None => true
    case Some(id) =>
      if id !in plan.index then OnlyInA(id, WithMatricule(id, row)) in details
      else
        var ds := RowDifferences(plan.pairs, plan.numeric, row, plan.index[id]);
        |ds| > 0 ==> Matched(id, ds) in details
  }

  /** What the B walk must have reported for one row of B. */
  predicate ReportedB(plan: Plan, rowsA: seq<Record>, row: Record, details: seq<Detail>) {
    match IdOf(row, plan.idB)
    case None => true
    case Some(id) => !ExistsInA(rowsA, plan.idA, id) ==> OnlyInB(id, WithMatricule(id, row)) in details
  }

  lemma {:induction false} WalkAComplete(plan: Plan, rowsA: seq<Record>, n: nat)
    requires n <= |rowsA|
    ensures forall i :: 0 <= i < n ==> ReportedA(plan, rowsA[i], WalkA(plan, Progress(0, [], []), rowsA[..n]).details)
  {
    if n > 0 {
      var rows := rowsA[..n];
      assert rows[..|rows| - 1] == rowsA[..n - 1];
      WalkAComplete(plan, rowsA, n - 1);
      var p := WalkA(plan, Progress(0, [], []), rowsA[..n - 1]);
      var q := StepA(plan, p, rowsA[n - 1]);
      assert forall d :: d in p.details ==> d in q.details;
      forall i | 0 <= i < n ensures ReportedA(plan, rowsA[i], q.details) {
        if i < n - 1 {
          assert ReportedA(plan, rowsA[i], p.details);
        }
      }
    }
  }

  /** The B walk only appends. */
  lemma {:induction false} WalkBGrows(plan: Plan, rowsA: seq<Record>, p0: Progress, rows: seq<Record>)
    ensures forall d :: d in p0.details ==> d in WalkB(plan, rowsA, p0, rows).details
  {
    if rows != [] {
      WalkBGrows(plan, rowsA, p0, rows[..|rows| - 1]);
    }
  }

  lemma {:induction false} WalkBComplete(plan: Plan, rowsA: seq<Record>, rowsB: seq<Record>, p0: Progress, n: nat)
    requires n <= |rowsB|
    ensures forall j :: 0 <= j < n ==> ReportedB(plan, rowsA, rowsB[j], WalkB(plan, rowsA, p0, rowsB[..n]).details)
  {
    if n > 0 {
      var rows := rowsB[..n];
      assert rows[..|rows| - 1] == rowsB[..n - 1];
      WalkBComplete(plan, rowsA, rowsB, p0, n - 1);
      var p := WalkB(plan, rowsA, p0, rowsB[..n - 1]);
      var q := StepB(plan, rowsA, p, rowsB[n - 1]);
      assert forall d :: d in p.details ==> d in q.details;
      forall j | 0 <= j < n ensures ReportedB(plan, rowsA, rowsB[j], q.details) {
        if j < n - 1 {
          assert ReportedB(plan, rowsA, rowsB[j], p.details);
        }
      }
    }
  }

  /** Both walks over whole tables report every row they must. */
  lemma WalksComplete(plan: Plan, rowsA: seq<Record>, rowsB: seq<Record>)
    ensures var details := WalkB(plan, rowsA, WalkA(plan, Progress(0, [], []), rowsA), rowsB).details;
            (forall i :: 0 <= i < |rowsA| ==> ReportedA(plan, rowsA[i], details))
            && forall j :: 0 <= j < |rowsB| ==> ReportedB(plan, rowsA, rowsB[j], details)
  {
    var afterA := WalkA(plan, Progress(0, [], []), rowsA);
    WalkAComplete(plan, rowsA, |rowsA|);
    assert rowsA[..|rowsA|] == rowsA;
    WalkBGrows(plan, rowsA, afterA, rowsB);
    var details := WalkB(plan, rowsA, afterA, rowsB).details;
    forall i | 0 <= i < |rowsA| ensures ReportedA(plan, rowsA[i], details) {
      assert ReportedA(plan, rowsA[i], afterA.details);
    }
    WalkBComplete(plan, rowsA, rowsB, afterA, |rowsB|);
    assert rowsB[..|rowsB|] == rowsB;
  }

  /** Once past the early exits, every row of A whose identifier is missing from B is
      reported as only in A, every row of A whose columns differ from its B row is
      reported as matched, and every row of B whose identifier no row of A carries is
      reported as only in B. */
  lemma CompareComplete(a: Table, b: Table, idA: string, idB: string)
    requires |a.data| > 0 && |b.data| > 0
    requires IdColumn(a.headers) == Some(idA) && IdColumn(b.headers) == Some(idB)
    requires PlanFor(a, b, idA, idB).pairs != []
    ensures Compare(a, b).Success?
    ensures forall i :: 0 <= i < |a.data| ==> ReportedA(PlanFor(a, b, idA, idB), a.data[i], Compare(a, b).value.details)
    ensures forall j :: 0 <= j < |b.data| ==> ReportedB(PlanFor(a, b, idA, idB), a.data, b.data[j], Compare(a, b).value.details)
  {
    WalksComplete(PlanFor(a, b, idA, idB), a.data, b.data);
  }

  // ---------------------------------------------------------------------------
  // How many entries of each kind

  datatype Kind = OnlyA | OnlyB | Differing

  function KindOf(d: Detail): Kind {
    match d
    case OnlyInA(_, _) => OnlyA
    case OnlyInB(_, _) => OnlyB
    case Matched(_, _) => Differing
  }

  /** How many details are of kind `k`. */
  function CountKind(details: seq<Detail>, k: Kind): nat {
    if details == [] then 0
    else CountKind(details[..|details| - 1], k) + (if KindOf(details[|details| - 1]) == k then 1 else 0)
  }

  lemma CountKindSnoc(details: seq<Detail>, d: Detail, k: Kind)
    ensures CountKind(details + [d], k) == CountKind(details, k) + (if KindOf(d) == k then 1 else 0)
  {
    assert (details + [d])[..|details|] == details;
  }

  /** Every detail is of one of the three kinds. */
  lemma {:induction false} KindsCover(details: seq<Detail>)
    ensures |details| == CountKind(details, OnlyA) + CountKind(details, OnlyB) + CountKind(details, Differing)
  {
    if details != [] {
      KindsCover(details[..|details| - 1]);
    }
  }

  /** A row of A carrying an identifier that the index of B lacks. */
  predicate AbsentRow(plan: Plan, row: Record) {
    IdOf(row, plan.idA).Some? && IdOf(row, plan.idA).value !in plan.index
  }

  /** A row of A carrying an identifier of the index, with a compared column that differs
      from the indexed row of B. */
  predicate DifferingRow(plan: Plan, row: Record) {
    && IdOf(row, plan.idA).Some? && IdOf(row, plan.idA).value in plan.index
    && |RowDifferences(plan.pairs, plan.numeric, row, plan.index[IdOf(row, plan.idA).value])| > 0
  }

  /** How many rows of A carry an identifier that the index of B lacks. */
  function AbsentRows(plan: Plan, rows: seq<Record>): nat {
    if rows == [] then 0
    else AbsentRows(plan, rows[..|rows| - 1]) + (if AbsentRow(plan, rows[|rows| - 1]) then 1 else 0)
  }

  /** How many rows of A differ from the row of B with their identifier. */
  function DifferingRows(plan: Plan, rows: seq<Record>): nat {
    if rows == [] then 0
    else DifferingRows(plan, rows[..|rows| - 1]) + (if DifferingRow(plan, rows[|rows| - 1]) then 1 else 0)
  }

  /** A row of B carrying an identifier that no row of A carries. */
  predicate UnmatchedRow(plan: Plan, rowsA: seq<Record>, row: Record) {
    IdOf(row, plan.idB).Some? && !ExistsInA(rowsA, plan.idA, IdOf(row, plan.idB).value)
  }

  /** How many rows of B carry an identifier that no row of A carries. */
  function UnmatchedRows(plan: Plan, rowsA: seq<Record>, rows: seq<Record>): nat {
    if rows == [] then 0
    else UnmatchedRows(plan, rowsA, rows[..|rows| - 1]) + (if UnmatchedRow(plan, rowsA, rows[|rows| - 1]) then 1 else 0)
  }

  lemma StepAKinds(plan: Plan, p: Progress, row: Record, k: Kind)
    ensures CountKind(StepA(plan, p, row).details, k)
            == CountKind(p.details, k) + (if k == OnlyA && AbsentRow(plan, row) then 1 else 0)
                                       + (if k == Differing && DifferingRow(plan, row) then 1 else 0)
  {
    match IdOf(row, plan.idA)
    case None =>
    case Some(id) =>
      if id in plan.index {
        var ds := RowDifferences(plan.pairs, plan.numeric, row, plan.index[id]);
        if |ds| > 0 {
          assert StepA(plan, p, row).details == p.details + [Matched(id, ds)];
          CountKindSnoc(p.details, Matched(id, ds), k);
        } else {
          assert StepA(plan, p, row) == p;
        }
      } else {
        var d := OnlyInA(id, WithMatricule(id, row));
        assert StepA(plan, p, row).details == p.details + [d];
        CountKindSnoc(p.details, d, k);
      }
  }

  lemma {:induction false} WalkAKinds(plan: Plan, rows: seq<Record>)
    ensures var details := WalkA(plan, Progress(0, [], []), rows).details;
            && CountKind(details, OnlyA) == AbsentRows(plan, rows)
            && CountKind(details, Differing) == DifferingRows(plan, rows)
            && CountKind(details, OnlyB) == 0
  {
    if rows != [] {
      var init := rows[..|rows| - 1];
      var row := rows[|rows| - 1];
      WalkAKinds(plan, init);
      var p := WalkA(plan, Progress(0, [], []), init);
      assert WalkA(plan, Progress(0, [], []), rows) == StepA(plan, p, row);
      StepAKinds(plan, p, row, OnlyA);
      StepAKinds(plan, p, row, OnlyB);
      StepAKinds(plan, p, row, Differing);
    }
  }

  lemma StepBKinds(plan: Plan, rowsA: seq<Record>, p: Progress, row: Record, k: Kind)
    ensures CountKind(StepB(plan, rowsA, p, row).details, k)
            == CountKind(p.details, k) + (if k == OnlyB && UnmatchedRow(plan, rowsA, row) then 1 else 0)
  {
    match IdOf(row, plan.idB)
    case None =>
    case Some(id) =>
      if !ExistsInA(rowsA, plan.idA, id) {
        var d := OnlyInB(id, WithMatricule(id, row));
        assert StepB(plan, rowsA, p, row).details == p.details + [d];
        CountKindSnoc(p.details, d, k);
      } else {
        assert StepB(plan, rowsA, p, row) == p;
      }
  }

  lemma {:induction false} WalkBKinds(plan: Plan, rowsA: seq<Record>, p0: Progress, rows: seq<Record>)
    ensures var details := WalkB(plan, rowsA, p0, rows).details;
            && CountKind(details, OnlyA) == CountKind(p0.details, OnlyA)
            && CountKind(details, Differing) == CountKind(p0.details, Differing)
            && CountKind(details, OnlyB) == CountKind(p0.details, OnlyB) + UnmatchedRows(plan, rowsA, rows)
  {
    if rows != [] {
      var init := rows[..|rows| - 1];
      var row := rows[|rows| - 1];
      WalkBKinds(plan, rowsA, p0, init);
      var p := WalkB(plan, rowsA, p0, init);
      assert WalkB(plan, rowsA, p0, rows) == StepB(plan, rowsA, p, row);
      StepBKinds(plan, rowsA, p, row, OnlyA);
      StepBKinds(plan, rowsA, p, row, OnlyB);
      StepBKinds(plan, rowsA, p, row, Differing);
    }
  }

  /** Once past the early exits, there is exactly one `onlyInFileA` entry per row of A
      whose identifier B lacks, one matched entry per row of A that differs from its row
      of B, and one `onlyInFileB` entry per row of B whose identifier A lacks; and
      `totalDifferences` is their sum. */
  lemma CompareCounts(a: Table, b: Table, idA: string, idB: string)
    requires |a.data| > 0 && |b.data| > 0
    requires IdColumn(a.headers) == Some(idA) && IdColumn(b.headers) == Some(idB)
    requires PlanFor(a, b, idA, idB).pairs != []
    ensures Compare(a, b).Success?
    ensures var plan := PlanFor(a, b, idA, idB);
            var c := Compare(a, b).value;
            && CountKind(c.details, OnlyA) == AbsentRows(plan, a.data)
            && CountKind(c.details, Differing) == DifferingRows(plan, a.data)
            && CountKind(c.details, OnlyB) == UnmatchedRows(plan, a.data, b.data)
            && c.totalDifferences == AbsentRows(plan, a.data) + DifferingRows(plan, a.data) + UnmatchedRows(plan, a.data, b.data)
  {
    var plan := PlanFor(a, b, idA, idB);
    var afterA := WalkA(plan, Progress(0, [], []), a.data);
    var afterB := WalkB(plan, a.data, afterA, b.data);
    WalkAKinds(plan, a.data);
    WalkBKinds(plan, a.data, afterA, b.data);
    KindsCover(afterB.details);
    CompareSound(a, b);
  }

  // ---------------------------------------------------------------------------
  // Per-column counts

  predicate HasColumn(ds: seq<Difference>, col: string) {
    exists k :: 0 <= k < |ds| && ds[k].column == col
  }

  /** How many matched details have a difference in column `col`. */
  function MatchedIn(details: seq<Detail>, col: string): nat {
    if details == [] then 0
    else
      var last := details[|details| - 1];
      MatchedIn(details[..|details| - 1], col) + (if last.Matched? && HasColumn(last.differences, col) then 1 else 0)
  }

  /** The count `columnDifferences` shows for `col`, zero when it has no entry. */
  function CountFor(counts: seq<ColumnCount>, col: string): nat {
    var i := FindColumn(counts, col);
    if i >= 0 then counts[i].count else 0
  }

  /** One entry per column, each with a positive count. */
  predicate CountsWellFormed(counts: seq<ColumnCount>) {
    (forall i, j :: 0 <= i < j < |counts| ==> counts[i].column != counts[j].column)
    && forall i :: 0 <= i < |counts| ==> counts[i].count > 0
  }

  lemma CountForAt(counts: seq<ColumnCount>, k: nat)
    requires CountsWellFormed(counts) && k < |counts|
    ensures CountFor(counts, counts[k].column) == counts[k].count
  {
    assert FindColumn(counts, counts[k].column) >= 0;
  }

  /** One difference adds one to its column and nothing to any other. */
  lemma TallyOneCounts(counts: seq<ColumnCount>, d: Difference)
    requires CountsWellFormed(counts)
    ensures CountsWellFormed(TallyOne(counts, d))
    ensures forall col :: CountFor(TallyOne(counts, d), col) == CountFor(counts, col) + (if col == d.column then 1 else 0)
  {
    var i := FindColumn(counts, d.column);
    var next := TallyOne(counts, d);
    if i >= 0 {
      assert |next| == |counts| && forall k :: 0 <= k < |counts| ==> next[k].column == counts[k].column;
    } else {
      assert next == counts + [ColumnCount(d.column, d.columnB, 1, d.isNumeric)];
    }
    assert CountsWellFormed(next);
    forall col ensures CountFor(next, col) == CountFor(counts, col) + (if col == d.column then 1 else 0) {
      if k :| 0 <= k < |counts| && counts[k].column == col {
        CountForAt(counts, k);
        CountForAt(next, k);
        if col == d.column {
          assert k == i;
        } else {
          assert next[k] == counts[k];
        }
      } else if col == d.column {
        CountForAt(next, |counts|);
      } else {
        assert forall k :: 0 <= k < |next| ==> next[k].column != col;
      }
    }
  }

  /** The differences of one row, in distinct columns, add one to each of their columns. */
  lemma {:induction false} TallyCounts(counts: seq<ColumnCount>, diffs: seq<Difference>)
    requires CountsWellFormed(counts) && DistinctDiffColumns(diffs)
    ensures CountsWellFormed(Tally(counts, diffs))
    ensures forall col :: CountFor(Tally(counts, diffs), col) == CountFor(counts, col) + (if HasColumn(diffs, col) then 1 else 0)
  {
    if diffs != [] {
      var init := diffs[..|diffs| - 1];
      var last := diffs[|diffs| - 1];
      assert DistinctDiffColumns(init);
      TallyCounts(counts, init);
      TallyOneCounts(Tally(counts, init), last);
      forall col ensures HasColumn(diffs, col) <==> HasColumn(init, col) || col == last.column {
        if HasColumn(init, col) {
          var k :| 0 <= k < |init| && init[k].column == col;
          assert diffs[k] == init[k];
        }
        if HasColumn(diffs, col) && col != last.column {
          var k :| 0 <= k < |diffs| && diffs[k].column == col;
          assert init[k] == diffs[k];
        }
      }
      forall col | HasColumn(init, col) ensures col != last.column {
        var k :| 0 <= k < |init| && init[k].column == col;
        assert diffs[k] == init[k];
      }
    }
  }

  lemma MatchedInAppend(details: seq<Detail>, x: Detail, col: string)
    ensures MatchedIn(details + [x], col) == MatchedIn(details, col) + (if x.Matched? && HasColumn(x.differences, col) then 1 else 0)
  {
    assert (details + [x])[..|details|] == details;
  }

  ghost predicate CountsMatch(p: Progress) {
    CountsWellFormed(p.counts) && forall col :: CountFor(p.counts, col) == MatchedIn(p.details, col)
  }

  lemma {:induction false} WalkACounts(plan: Plan, rows: seq<Record>)
    requires DistinctColumns(plan.pairs)
    ensures CountsMatch(WalkA(plan, Progress(0, [], []), rows))
  {
    if rows != [] {
      WalkACounts(plan, rows[..|rows| - 1]);
      var p := WalkA(plan, Progress(0, [], []), rows[..|rows| - 1]);
      var row := rows[|rows| - 1];
      match IdOf(row, plan.idA)
      case None =>
      case Some(id) =>
        if id in plan.index {
          var ds := RowDifferences(plan.pairs, plan.numeric, row, plan.index[id]);
          if |ds| > 0 {
            RowDifferencesDistinct(plan.pairs, plan.numeric, row, plan.index[id]);
            TallyCounts(p.counts, ds);
            forall col ensures MatchedIn(p.details + [Matched(id, ds)], col) == MatchedIn(p.details, col) + (if HasColumn(ds, col) then 1 else 0) {
              MatchedInAppend(p.details, Matched(id, ds), col);
            }
          }
        } else {
          forall col ensures MatchedIn(p.details + [OnlyInA(id, WithMatricule(id, row))], col) == MatchedIn(p.details, col) {
            MatchedInAppend(p.details, OnlyInA(id, WithMatricule(id, row)), col);
          }
        }
    }
  }

  lemma {:induction false} WalkBCounts(plan: Plan, rowsA: seq<Record>, p0: Progress, rows: seq<Record>)
    requires CountsMatch(p0)
    ensures CountsMatch(WalkB(plan, rowsA, p0, rows))
  {
    if rows != [] {
      WalkBCounts(plan, rowsA, p0, rows[..|rows| - 1]);
      var p := WalkB(plan, rowsA, p0, rows[..|rows| - 1]);
      var row := rows[|rows| - 1];
      match IdOf(row, plan.idB)
      case None =>
      case Some(id) =>
        if !ExistsInA(rowsA, plan.idA, id) {
          forall col ensures MatchedIn(p.details + [OnlyInB(id, WithMatricule(id, row))], col) == MatchedIn(p.details, col) {
            MatchedInAppend(p.details, OnlyInB(id, WithMatricule(id, row)), col);
          }
        }
    }
  }

  /** `columnDifferences` has one entry per column, and the count it shows for a column
      is the number of matched identifiers with a difference in that column. */
  lemma CompareColumnCounts(a: Table, b: Table)
    requires Compare(a, b).Success?
    ensures CountsWellFormed(Compare(a, b).value.columnDifferences)
    ensures forall col :: CountFor(Compare(a, b).value.columnDifferences, col) == MatchedIn(Compare(a, b).value.details, col)
  {
    if |a.data| > 0 && |b.data| > 0 {
      var idA := IdColumn(a.headers).value;
      var idB := IdColumn(b.headers).value;
      var plan := PlanFor(a, b, idA, idB);
      if plan.pairs != [] {
        PlanForDistinct(a, b, idA, idB);
        WalkACounts(plan, a.data);
        WalkBCounts(plan, a.data, WalkA(plan, Progress(0, [], []), a.data), b.data);
      }
    }
  }

  // ---------------------------------------------------------------------------
  // The error, the index and the duplicate flag

  /** A table with no identifier column: no identifier-like header, and no first header
      or an empty one. */
  predicate NoIdColumnIn(headers: seq<string>) {
    (forall h :: h in headers ==> !IsIdHeader(h)) && (headers == [] || headers[0] == "")
  }

  /** The comparison fails exactly when both tables have rows and one of them has no
      identifier column. */
  lemma CompareFails(a: Table, b: Table)
    ensures Compare(a, b).Failure? <==>
              |a.data| > 0 && |b.data| > 0 && (NoIdColumnIn(a.headers) || NoIdColumnIn(b.headers))
  {
    assert IdColumn(a.headers).None? <==> NoIdColumnIn(a.headers);
    assert IdColumn(b.headers).None? <==> NoIdColumnIn(b.headers);
  }

  /** The index keeps, for each identifier, the last row that carries it. */
  lemma IndexLast(rows: seq<Record>, col: string, i: nat)
    requires i < |rows| && IdOf(rows[i], col).Some?
    requires forall j :: i < j < |rows| ==> IdOf(rows[j], col) != IdOf(rows[i], col)
    ensures IdOf(rows[i], col).value in IndexById(rows, col)
    ensures IndexById(rows, col)[IdOf(rows[i], col).value] == rows[i]
  {
    IndexLastAt(rows, col, i, IdOf(rows[i], col).value);
  }

  lemma {:induction false} IndexLastAt(rows: seq<Record>, col: string, i: nat, id: string)
    requires i < |rows| && IdOf(rows[i], col) == Some(id)
    requires forall j :: i < j < |rows| ==> IdOf(rows[j], col) != Some(id)
    ensures id in IndexById(rows, col) && IndexById(rows, col)[id] == rows[i]
  {
    var init := rows[..|rows| - 1];
    if i < |rows| - 1 {
      assert IdOf(init[i], col) == Some(id) by {
        assert init[i] == rows[i];
      }
      assert forall j :: i < j < |init| ==> IdOf(init[j], col) != Some(id) by {
        forall j | i < j < |init| ensures IdOf(init[j], col) != Some(id) {
          assert init[j] == rows[j];
        }
      }
      IndexLastAt(init, col, i, id);
      assert IdOf(rows[|rows| - 1], col) != Some(id);
    }
    IndexSnocAt(rows, col, id);
  }

  /** One more row changes the index at `id` only when that row carries `id`. */
  lemma IndexSnocAt(rows: seq<Record>, col: string, id: string)
    requires |rows| > 0
    ensures var m := IndexById(rows[..|rows| - 1], col);
            var last := rows[|rows| - 1];
            if IdOf(last, col) == Some(id) then id in IndexById(rows, col) && IndexById(rows, col)[id] == last
            else (id in m ==> id in IndexById(rows, col) && IndexById(rows, col)[id] == m[id])
  {
    var m := IndexById(rows[..|rows| - 1], col);
    var last := rows[|rows| - 1];
    var o := IdOf(last, col);
    var r := IndexById(rows, col);
    if o.Some? {
      assert r == m[o.value := last];
    } else {
      assert r == m;
    }
  }

  /** A row is redundant when it has no identifier or repeats one of an earlier row. */
  predicate Redundant(rows: seq<Record>, col: string, i: nat)
    requires i < |rows|
  {
    IdOf(rows[i], col).None? || exists j :: 0 <= j < i && IdOf(rows[j], col) == IdOf(rows[i], col)
  }

  predicate NoneRedundant(rows: seq<Record>, col: string) {
    forall i :: 0 <= i < |rows| ==> !Redundant(rows, col, i)
  }

  /** Whether an earlier row is redundant does not depend on the rows after it. */
  lemma NoneRedundantSnoc(rows: seq<Record>, col: string)
    requires rows != []
    ensures NoneRedundant(rows, col) <==>
              NoneRedundant(rows[..|rows| - 1], col) && !Redundant(rows, col, |rows| - 1)
  {
    var init := rows[..|rows| - 1];
    forall i | 0 <= i < |init| ensures Redundant(rows, col, i) == Redundant(init, col, i) {
      forall j | 0 <= j <= i ensures init[j] == rows[j] {}
    }
  }

  /** The last row, when it has an identifier, is redundant exactly when an earlier row
      already contributed that identifier. */
  lemma RedundantLast(rows: seq<Record>, col: string)
    requires rows != [] && IdOf(rows[|rows| - 1], col).Some?
    ensures Redundant(rows, col, |rows| - 1) <==>
              IdOf(rows[|rows| - 1], col).value in IdSet(rows[..|rows| - 1], col)
  {
    var n := |rows| - 1;
    var init := rows[..n];
    var id := IdOf(rows[n], col);
    if Redundant(rows, col, n) {
      var j :| 0 <= j < n && IdOf(rows[j], col) == id;
      assert init[j] == rows[j];
    }
    if id.value in IdSet(init, col) {
      var j :| 0 <= j < |init| && IdOf(init[j], col) == id;
      assert init[j] == rows[j];
    }
  }

  /** The last row adds an identifier exactly when it is not redundant. */
  lemma IdSetSnoc(rows: seq<Record>, col: string)
    requires rows != []
    ensures |IdSet(rows, col)| == |IdSet(rows[..|rows| - 1], col)| + (if Redundant(rows, col, |rows| - 1) then 0 else 1)
  {
    var init := rows[..|rows| - 1];
    var before := IdSet(init, col);
    var id := IdOf(rows[|rows| - 1], col);
    if id.Some? {
      RedundantLast(rows, col);
      assert IdSet(rows, col) == before + {id.value};
      AddCard(before, id.value);
    } else {
      assert IdSet(rows, col) == before;
    }
  }

  /** Adding an element grows a set by one exactly when it was not there. */
  lemma AddCard(s: set<string>, x: string)
    ensures |s + {x}| == |s| + (if x in s then 0 else 1)
  {
    if x in s {
      assert s + {x} == s;
    }
  }

  /** There are as many identifiers as rows exactly when no row is redundant. */
  lemma {:induction false} IdSetSize(rows: seq<Record>, col: string)
    ensures |IdSet(rows, col)| <= |rows|
    ensures |IdSet(rows, col)| == |rows| <==> NoneRedundant(rows, col)
  {
    if rows != [] {
      IdSetSize(rows[..|rows| - 1], col);
      NoneRedundantSnoc(rows, col);
      IdSetSnoc(rows, col);
    }
  }

  /** The duplicate flag is set exactly when one of the tables has a redundant row. */
  lemma CompareDuplicates(a: Table, b: Table)
    requires Compare(a, b).Success? && Compare(a, b).value.hasDuplicates.Some?
    ensures var idA := IdColumn(a.headers).value;
            var idB := IdColumn(b.headers).value;
            && Compare(a, b).value.matriculeCount == Some(|IdSet(a.data, idA)|)
            && |IdSet(a.data, idA)| <= |a.data|
            && (Compare(a, b).value.hasDuplicates.value <==>
                  !NoneRedundant(a.data, idA) || !NoneRedundant(b.data, idB))
  {
    IdSetSize(a.data, IdColumn(a.headers).value);
    IdSetSize(b.data, IdColumn(b.headers).value);
  }

  // ---------------------------------------------------------------------------
  // A table compared with itself

  /** No two headers have the same normalised name. */
  predicate DistinctNames(headers: seq<string>) {
    forall i, j :: 0 <= i < j < |headers| ==> NormalizeColumnName(headers[i]) != NormalizeColumnName(headers[j])
  }

  /** No identifier is carried by two rows. */
  predicate DistinctIds(rows: seq<Record>, col: string) {
    forall i, j :: 0 <= i < j < |rows| && IdOf(rows[i], col).Some? ==> IdOf(rows[j], col) != IdOf(rows[i], col)
  }

  /** With distinct names, every header is mapped to itself. */
  lemma MappingOfSelf(headers: seq<string>)
    requires DistinctNames(headers)
    ensures forall k :: k in MappingOf(headers, headers).target ==> MappingOf(headers, headers).target[k] == k
  {
    var m := MappingOf(headers, headers);
    forall k | k in m.target ensures m.target[k] == k {
      var x := m.target[k];
      assert LastMatch(k, headers) == Some(x);
      var i :| 0 <= i < |headers| && headers[i] == x;
      var j :| 0 <= j < |headers| && headers[j] == k;
      assert NormalizeColumnName(headers[i]) == NormalizeColumnName(headers[j]);
    }
  }

  /** A column compared with itself shows no difference. */
  lemma {:induction false} RowDifferencesSelf(pairs: seq<ColumnPair>, numeric: seq<string>, row: Record)
    requires forall p :: p in pairs ==> p.b == p.a
    ensures RowDifferences(pairs, numeric, row, row) == []
  {
    if pairs != [] {
      var init := pairs[..|pairs| - 1];
      var last := pairs[|pairs| - 1];
      assert forall p :: p in init ==> p in pairs;
      RowDifferencesSelf(init, numeric, row);
      EqualReflexive(ParseValue(Lookup(row, last.a)));
      assert last in pairs;
      assert DiffFor(last, numeric, row, row) == None;
    }
  }

  lemma {:induction false} WalkASelf(plan: Plan, rows: seq<Record>, n: nat)
    requires n <= |rows|
    requires forall p :: p in plan.pairs ==> p.b == p.a
    requires forall i :: 0 <= i < |rows| && IdOf(rows[i], plan.idA).Some? ==>
               IdOf(rows[i], plan.idA).value in plan.index && plan.index[IdOf(rows[i], plan.idA).value] == rows[i]
    ensures WalkA(plan, Progress(0, [], []), rows[..n]) == Progress(0, [], [])
  {
    if n > 0 {
      var prefix := rows[..n];
      assert prefix[..|prefix| - 1] == rows[..n - 1];
      WalkASelf(plan, rows, n - 1);
      RowDifferencesSelf(plan.pairs, plan.numeric, rows[n - 1]);
    }
  }

  lemma {:induction false} WalkBSelf(plan: Plan, rows: seq<Record>, n: nat)
    requires n <= |rows| && plan.idA == plan.idB
    ensures WalkB(plan, rows, Progress(0, [], []), rows[..n]) == Progress(0, [], [])
  {
    if n > 0 {
      var prefix := rows[..n];
      assert prefix[..|prefix| - 1] == rows[..n - 1];
      WalkBSelf(plan, rows, n - 1);
      var row := rows[n - 1];
      if IdOf(row, plan.idB).Some? {
        assert LooseId(rows[n - 1], plan.idA) == IdOf(row, plan.idB);
      }
    }
  }

  /** The plan of a table against itself compares each column with itself and finds
      each row with an identifier in the index. */
  lemma SelfPlan(t: Table, id: string)
    requires DistinctNames(t.headers) && DistinctIds(t.data, id)
    ensures var plan := PlanFor(t, t, id, id);
            && (forall p :: p in plan.pairs ==> p.b == p.a)
            && forall i :: 0 <= i < |t.data| && IdOf(t.data[i], id).Some? ==>
                 IdOf(t.data[i], id).value in plan.index && plan.index[IdOf(t.data[i], id).value] == t.data[i]
  {
    MappingOfSelf(t.headers);
    forall i | 0 <= i < |t.data| && IdOf(t.data[i], id).Some?
      ensures IdOf(t.data[i], id).value in IndexById(t.data, id) && IndexById(t.data, id)[IdOf(t.data[i], id).value] == t.data[i]
    {
      IndexLast(t.data, id, i);
    }
  }

  /** A table with distinct column names and distinct identifiers, compared with itself,
      shows no difference at all. */
  lemma SelfComparisonClean(t: Table)
    requires DistinctNames(t.headers)
    requires IdColumn(t.headers).Some? ==> DistinctIds(t.data, IdColumn(t.headers).value)
    ensures Compare(t, t).Success? <==> |t.data| == 0 || IdColumn(t.headers).Some?
    ensures Compare(t, t).Success? ==>
              Compare(t, t).value.totalDifferences == 0 && Compare(t, t).value.details == []
              && Compare(t, t).value.columnDifferences == []
  {
    if |t.data| > 0 && IdColumn(t.headers).Some? {
      SelfWalks(t, IdColumn(t.headers).value);
    }
  }

  /** Both walks of a table against itself report nothing. */
  lemma SelfWalks(t: Table, id: string)
    requires DistinctNames(t.headers) && DistinctIds(t.data, id)
    ensures var plan := PlanFor(t, t, id, id);
            WalkB(plan, t.data, WalkA(plan, Progress(0, [], []), t.data), t.data) == Progress(0, [], [])
  {
    var plan := PlanFor(t, t, id, id);
    SelfPlan(t, id);
    WalkASelf(plan, t.data, |t.data|);
    WalkBSelf(plan, t.data, |t.data|);
    assert t.data[..|t.data|] == t.data;
  }
}
