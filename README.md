# Payroll spreadsheet reconciliation — a Dafny model

The system compares two payroll spreadsheets: a supplier file ("Fournisseur", file A)
and the SEGUCE file (file B). It reads the first sheet of each workbook and finds the
header row. It cleans the headers and turns each data row into a record keyed by header.
It then finds an identifier column ("matricule") in each file, pairs the columns whose
names match, and reports three kinds of identifier: those present only in A, those
present only in B, and matched ones whose values differ. Values are compared after
normalisation. Numbers in European or English notation are read as numbers, with a
tolerance of 0.01, and dates are compared by instant. The report becomes an Excel
workbook: a summary, the details, the two data sheets (with formulas and column widths),
optional sheets for duplicates, significant differences and the variable and fixed
payroll elements, a per-rubric summary, and a lexicon.

The model has these modules:

- `JsText` (`js_text.dfy`): the JavaScript string built-ins the core relies on.
  These are `trim`, `/\s/g` removal, `toLowerCase` (ASCII and Latin-1 capitals only), `includes`, `lastIndexOf`,
  `replace` of the first or of every occurrence, and `parseFloat` as an exact
  decimal-prefix reader.
- `CellValues` (`cell_values.dfy`): `parseValue`, `areValuesEqual` and
  `calculateDifference` on a value type
  `Undef | Null | Num | Str | Date`.
- `SheetReader` (`sheet_reader.dfy`): the parts of `parseExcelFile` after the library
  has read the workbook. These are `detectHeaderRow`, `cleanHeaders` and
  `extractDataWithCleanHeaders`. Their loops are methods, each proved against the
  function that specifies it.
- `Reconcile` (`reconcile.dfy`): `compareExcelData` written as functions.
  `ReconcileRun` (`reconcile_run.dfy`) has the same loops as methods, each proved equal
  to its function. `ReconcileProps` (`reconcile_props.dfy`) proves what the comparison
  promises.
- `ExportRows` (`export_rows.dfy`) and `ExportRun` (`export_run.dfy`): the row arrays of
  `exportToExcelWithFormulas` and the loops that push them, plus the order of the sheets.
- `DataSheet` (`data_sheet.dfy`): `createSheetWithFormulas`, and `addStylingToSheet` on a
  `Worksheet` class whose cells and column widths are updated in place.
- `StringOrder` (`string_order.dfy`): the order that sorts the rubric columns,
  comparing characters by code point.
- `Wrappers` (`wrappers.dfy`): `Option` and `Result`.

Where the code and its comments disagree, the model follows the code:

- `parseValue`'s comment speaks of "only one comma", but the test is "contains a comma
  and no point". With several commas, only the first becomes a point, and `parseFloat`
  stops at the second (`NumberTextFirstCommaOnly`).
- The B walk tests `row[idColumnA] !== undefined`, not `!== null`. A row of A whose
  identifier cell is null therefore matches the text `null` (`LooseId`).
- `calculateDifference` compares `String(a).trim()`. A null value against the text
  `null` is thus unequal for `areValuesEqual`, yet its difference reads `Identique`
  (`DifferenceNullText`).

## Model

| member | source | states |
|---|---|---|
| JsText.Trim | utils/excel-parser.js:469 | the result neither starts nor ends with `\s` and is no longer than the input |
| JsText.TrimSlice | utils/excel-parser.js:469 | the trim is the slice of the input left between a leading and a trailing run of `\s` |
| JsText.TrimIdempotent | utils/excel-parser.js:469 | trimming twice is trimming once |
| JsText.TrimEmptyIff | utils/excel-parser.js:469-470 | a string trims to "" exactly when every character is `\s` |
| JsText.StripSpacesUnchanged | utils/excel-parser.js:474 | removing `\s` leaves a string without `\s` unchanged |
| JsText.StripSpacesOfSpaces | utils/excel-parser.js:474 | a string of `\s` characters is removed entirely |
| JsText.StripSpacesAppend | utils/excel-parser.js:474 | removal works part by part; with the two rows above, the result is the non-`\s` characters in their order |
| JsText.ContainsIff | utils/excel-parser.js:57 | `includes` holds exactly when the pattern occurs at some position |
| JsText.LastIndexOfAppend | utils/excel-parser.js:480 | appending text without `c` leaves `lastIndexOf(c)` unchanged |
| JsText.RemoveAllAround | utils/excel-parser.js:482 | removing every `.` from `a`, a separator and a tail without `.` only removes from `a` |
| JsText.ReplaceFirstAt | utils/excel-parser.js:494 | `replace(",", ".")` replaces exactly the first occurrence |
| JsText.ParseFloatNat | utils/excel-parser.js:497 | `parseFloat` of a whole number's decimal text is that number |
| JsText.ParseFloatDecimal | utils/excel-parser.js:497 | `parseFloat("i.f")` is i plus the decimal fraction f |
| JsText.NoDigitNoNumber | utils/excel-parser.js:497-498 | a string without digits is NaN for `parseFloat` |
| CellValues.ParseValue | utils/excel-parser.js:456-470 | null, undefined and blank strings become null, and nothing else does; the result is never undefined; numbers and dates pass through |
| CellValues.ParseValueIdempotent | utils/excel-parser.js:456-508 | normalising twice is normalising once |
| CellValues.ParseValueKeepsNames | utils/excel-parser.js:467-507 | a string without digits is never read as a number |
| CellValues.ParseValueKeepsText | utils/excel-parser.js:467-507 | a string whose first non-space character is not a sign, a digit, a point or a comma is returned unchanged, whatever follows (`A12`, `Code 7`) |
| CellValues.ParseValueDecimalComma | utils/excel-parser.js:477-483 | European notation `1.234,56` reads as the grouped digits plus the fraction |
| CellValues.ParseValueDecimalPoint | utils/excel-parser.js:485-491 | English notation `1,234.56` reads as the grouped digits plus the fraction |
| CellValues.ParseValueExamples | utils/excel-parser.js:476-491 | `1.234,56` and `1,234.56` both read as 1234.56 |
| CellValues.ParseValueCommaAlone | utils/excel-parser.js:493-495 | a lone comma is a decimal comma: `1234,56` reads as 1234.56 |
| CellValues.NumberTextFirstCommaOnly | utils/excel-parser.js:493-497 | with only commas, `i,f,g` reads as `i.f` |
| CellValues.ParseValuePointAlone | utils/excel-parser.js:497 | a lone point is a decimal point: `1.234` reads as 1.234 |
| CellValues.EqualSymmetric | utils/excel-parser.js:516-564 | `areValuesEqual` does not depend on the order of its arguments |
| CellValues.EqualReflexive | utils/excel-parser.js:516-564 | every value equals itself |
| CellValues.EqualNullish | utils/excel-parser.js:518-529 | with null or undefined on a side, values are equal exactly when identical |
| CellValues.EqualTolerance | utils/excel-parser.js:537-541 | for all numbers x and y, equal exactly when less than 0.01 apart, in either order |
| CellValues.EqualToleranceExamples | utils/excel-parser.js:537-541 | the bound is exclusive: 1000 and 1000.005 are equal, 100 and 100.01 are not |
| CellValues.EqualNotTransitive | utils/excel-parser.js:537-541 | the tolerance makes equality non-transitive |
| CellValues.EqualNumericString | utils/excel-parser.js:550-560 | a whole number equals its decimal text, both ways |
| CellValues.DifferenceAntisymmetric | utils/excel-parser.js:572-605 | exchanging the files negates the amount or the days and keeps the text markers |
| CellValues.DifferenceOfNumbers | utils/excel-parser.js:574-576 | two numbers differ by b minus a, and are equal exactly when that is within 0.01 |
| CellValues.DifferenceOfDates | utils/excel-parser.js:592-596 | two dates differ by their millisecond gap over 86400000; zero exactly when equal |
| CellValues.DifferenceOfStrings | utils/excel-parser.js:599-604 | two strings give `Identique` exactly when they compare equal, else `Valeurs différentes` |
| CellValues.DifferenceNullText | utils/excel-parser.js:599-601 | null and the text `null` are unequal but their difference reads `Identique` |
| SheetReader.HeaderRowIsFirst | utils/excel-parser.js:42-66 | the header row is the first of the first ten rows with a keyword cell, else 0; it is a valid index |
| SheetReader.DetectHeaderRow | utils/excel-parser.js:42-66 | the nested scan returns the header row |
| SheetReader.CleanHeaders | utils/excel-parser.js:68-76 | same length; blank headers become a space plus their index; the others are trimmed |
| SheetReader.PlaceholderIsNumeric | utils/excel-parser.js:72 | a placeholder always matches `/^\s*\d+\s*$/` |
| SheetReader.ReportedHeaders | utils/excel-parser.js:110-114 | the reported headers are exactly the cleaned headers that are not numeric keys |
| SheetReader.ReportedAreNonBlank | utils/excel-parser.js:68-114 | the reported headers are the trimmed non-blank non-numeric header texts, in order |
| SheetReader.RecordKeys | utils/excel-parser.js:96-102 | a record's keys are exactly the non-empty, non-numeric headers |
| SheetReader.RecordValue | utils/excel-parser.js:96-102 | a key holds the cell of the last column with that header, null beyond the row |
| SheetReader.RecordsShape | utils/excel-parser.js:87-108 | each record comes from a non-blank row, has a key, and its keys are kept headers |
| SheetReader.RecordsExact | utils/excel-parser.js:87-108 | one record per row that is not blank and has a cell under a kept header, and no other, in row order: the k-th record is the k-th such row's |
| SheetReader.ExtractedShape | utils/excel-parser.js:78-116 | extracted records come from non-blank rows below the header row; their keys are reported headers; every row below the header row that yields a record has it in the table |
| SheetReader.ExtractDataWithCleanHeaders | utils/excel-parser.js:78-116 | the method returns the extracted table, falling back to row 0 when out of range |
| SheetReader.CollectRecords | utils/excel-parser.js:87-108 | the row loop skips blank rows and keyless records |
| SheetReader.FillRecord | utils/excel-parser.js:96-102 | the cell loop fills the record of one row |
| SheetReader.ParseExcelFile | utils/excel-parser.js:8-141 | fails exactly on a workbook without sheets; otherwise gives the first sheet's name and table |
| Reconcile.FirstIdHeader | utils/excel-parser.js:195-218 | the header found contains an identifier fragment once normalised; none exactly when no header does |
| Reconcile.FirstIdHeaderIsFirst | utils/excel-parser.js:195-205 | the header found is a header of the table |
| Reconcile.LastMatch | utils/excel-parser.js:245-250 | the B header a column maps to is a B header with the same normalised name; none exactly when none matches |
| Reconcile.LastMatchIsLast | utils/excel-parser.js:245-250 | of several matching B headers, the last one is kept, as the overwriting loop leaves it: no later B header has the same normalised name |
| Reconcile.MappingOf | utils/excel-parser.js:242-251 | every A header with a match is a key exactly once, mapped to its last match |
| Reconcile.CommonPairs | utils/excel-parser.js:254-256 | the compared columns are the mapping's keys other than A's identifier column |
| Reconcile.CommonPairsDistinct | utils/excel-parser.js:254-256 | compared columns are distinct |
| Reconcile.NumericColumns | utils/excel-parser.js:273-298 | a compared column is numeric exactly when more than half its first ten values parse as numbers |
| Reconcile.IndexKeys | utils/excel-parser.js:304-310 | the index's keys are exactly the set of trimmed identifiers of B |
| Reconcile.IdSet | utils/excel-parser.js:313-327 | the identifier set is exactly the trimmed identifiers present |
| Reconcile.FindColumn | utils/excel-parser.js:382-384 | the first entry of `columnDifferences` for a column, or -1 when there is none |
| ReconcileRun.FindIdColumn | utils/excel-parser.js:176-240 | the header scans and the first-header fallback compute the identifier column |
| ReconcileRun.ContainsKeyword | utils/excel-parser.js:197-203 | the inner scan over the identifier fragments finds one exactly when the normalised name contains one of them |
| ReconcileRun.FirstIdHeaderAt | utils/excel-parser.js:195-205 | the first identifier-like header in order is the one found |
| ReconcileRun.BuildColumnMapping | utils/excel-parser.js:242-251 | the nested loops build the column mapping |
| ReconcileRun.MapHeader | utils/excel-parser.js:245-250 | the inner loop maps one A header to its last match |
| ReconcileRun.DetectNumericColumns | utils/excel-parser.js:273-298 | the sampling loops give the numeric columns |
| ReconcileRun.BuildIndex | utils/excel-parser.js:304-310 | the loop builds `fileBDict` |
| ReconcileRun.CompareColumn | utils/excel-parser.js:349-374 | one column of a matched pair of rows |
| ReconcileRun.CompareRow | utils/excel-parser.js:346-374 | the differences of a matched pair of rows |
| ReconcileRun.TallyRow | utils/excel-parser.js:381-397 | the update of `columnDifferences` |
| ReconcileRun.WalkRowsA | utils/excel-parser.js:338-417 | the walk over the rows of A |
| ReconcileRun.RowExistsInA | utils/excel-parser.js:424-428 | the `some` over the rows of A |
| ReconcileRun.WalkRowsB | utils/excel-parser.js:420-438 | the walk over the rows of B |
| ReconcileRun.CompareExcelData | utils/excel-parser.js:149-449 | the imperative comparison computes the comparison function |
| ReconcileProps.DiffForMeaning | utils/excel-parser.js:349-374 | a column is reported exactly when its parsed values are not both null and not equal; the entry carries both values and their difference |
| ReconcileProps.RowDifferencesSound | utils/excel-parser.js:346-374 | every difference of a row is a real difference in a compared column |
| ReconcileProps.RowDifferencesComplete | utils/excel-parser.js:346-374 | every compared column that differs is reported |
| ReconcileProps.RowDifferencesDistinct | utils/excel-parser.js:346-374 | the differences of a row are in distinct columns |
| ReconcileProps.CompareSound | utils/excel-parser.js:338-438 | the total is the number of details; each only-in-A, only-in-B and matched detail is justified by the tables |
| ReconcileProps.CompareExclusive | utils/excel-parser.js:338-438 | an identifier is never both only-in-A and only-in-B, nor missing on one side and matched |
| ReconcileProps.CompareEarlyExit | utils/excel-parser.js:171-174 | an empty table, or no shared column besides the identifier, gives no differences and no identifier statistics |
| ReconcileProps.CompareComplete | utils/excel-parser.js:338-438 | every row of A missing from B, every differing matched row and every row of B missing from A is reported |
| ReconcileProps.CompareCounts | utils/excel-parser.js:338-438 | exactly as many `onlyInFileA`, matched and `onlyInFileB` entries as rows of each of those three kinds, and `totalDifferences` is their sum |
| ReconcileProps.TallyCounts | utils/excel-parser.js:381-397 | tallying a row adds one to each of its columns and nothing elsewhere |
| ReconcileProps.CompareColumnCounts | utils/excel-parser.js:377-397 | one entry per column, whose count is the number of matched identifiers differing there |
| ReconcileProps.CompareFails | utils/excel-parser.js:221-240 | the comparison fails exactly when both tables have rows and one lacks an identifier column |
| ReconcileProps.IndexLast | utils/excel-parser.js:304-310 | the index keeps the last row carrying an identifier |
| ReconcileProps.IdSetSize | utils/excel-parser.js:313-335 | there are as many identifiers as rows exactly when no row lacks or repeats one |
| ReconcileProps.CompareDuplicates | utils/excel-parser.js:330-335 | `matriculeCount` is the number of A identifiers; the flag is set exactly when a table has a row without or with a repeated identifier |
| ReconcileProps.SelfComparisonClean | utils/excel-parser.js:149-449 | a table with distinct names and identifiers compared with itself shows no difference |
| ExportRows.SummaryStatistics | utils/export-excel.js:21-101 | the row counts, their A-minus-B gap and the total are in place; the export date is last |
| ExportRows.SummaryColumns | utils/export-excel.js:44-48 | one summary row per column entry, in order, after the ten head rows |
| ExportRows.DetailsCount | utils/export-excel.js:108-135 | one header plus one line per one-sided identifier and per difference |
| ExportRows.DetailsListed | utils/export-excel.js:119-135 | every line of every detail is in the details sheet |
| ExportRows.DetailsInOrder | utils/export-excel.js:119-135 | the lines follow the order of the details |
| ExportRows.SignificantNonEmpty | utils/export-excel.js:202-229 | the significant sheet has a line exactly when its flag is set |
| ExportRows.SignificantListed | utils/export-excel.js:204-225 | every numeric difference above 5 percent or 100 is listed |
| ExportRows.SignificantSound | utils/export-excel.js:204-225 | every listed line is that of a numeric difference above 5 percent or 100 of a matched identifier |
| ExportRows.TotalUnmentioned | utils/export-excel.js:287-303 | an element no difference falls on totals zero |
| ExportRows.TotalsLineFor | utils/export-excel.js:287-317 | an element has a line exactly when its totals are not both zero |
| ExportRows.TotalsLinesShape | utils/export-excel.js:287-317 | every line is an element's line with non-zero totals |
| ExportRows.TotalsLinesOrder | utils/export-excel.js:287-317 | line p is the line of the element at an increasing position: the lines follow the element order |
| ExportRows.ColumnsOf | utils/export-excel.js:412-420 | the columns of all differences, each once |
| ExportRows.RubricColumns | utils/export-excel.js:412-424 | the rubric columns are sorted without repeats, and are exactly the columns some difference falls on |
| ExportRows.RubricLinesSorted | utils/export-excel.js:422-450 | the rubric sheet's lines are in strictly ascending order of their column, as `.sort()` then `forEach` leaves them |
| ExportRows.JoinNumbers | utils/export-excel.js:164 | the joined row numbers are empty exactly when there are none |
| ExportRows.JoinNumbersSplit | utils/export-excel.js:164 | splitting the joined text at its commas gives back each row number's decimal text, in order, after the space of the `", "` separator |
| ExportRows.DuplicatesLayout | utils/export-excel.js:153-181 | title and blank row; file A's heading, column titles, one line per entry (identifier, count, joined rows) and a blank row when it has duplicates; then file B's block, at the position that follows, without the blank row |
| ExportRows.LexiconRows | utils/export-excel.js:461-511 | three head rows, then one line per item, or the five default lines; a line holds the item's name, "Élément fixe" exactly for type `fixe` and "Élément variable" otherwise, and the description and formula text when present and non-empty, `-` otherwise |
| ExportRun.BuildSummary | utils/export-excel.js:21-101 | the pushes build the summary rows |
| ExportRun.PushColumnCounts | utils/export-excel.js:44-48 | one row per column count, name and count, in order, after the rows already there |
| ExportRun.PushDuplicateCounts | utils/export-excel.js:51-75 | the duplicate heading and the non-zero counts of each file, only when duplicates were reported |
| ExportRun.BuildDetails | utils/export-excel.js:108-135 | the pushes build the details rows |
| ExportRun.BuildSignificant | utils/export-excel.js:187-228 | the loop builds the significant rows and sets the flag exactly when one is found |
| ExportRun.SumColumn | utils/export-excel.js:290-302 | the loops sum the numbers of each side in a column and note whether a difference is there |
| ExportRun.TotalsLoop | utils/export-excel.js:287-317 | the element loop builds the totals lines and the flag |
| ExportRun.BuildTotals | utils/export-excel.js:241-396 | the variable and fixed element sheets and their flags |
| ExportRun.BuildRubrics | utils/export-excel.js:398-452 | the rubric summary rows |
| ExportRun.BuildDuplicates | utils/export-excel.js:153-181 | the pushes build the duplicates rows laid out as `ExportRows.DuplicatesLayout` states |
| ExportRun.BuildLexicon | utils/export-excel.js:461-511 | the lexicon rows |
| ExportRun.TabsOrder | utils/export-excel.js:104-514 | summary, details and both data sheets first; rubric summary and lexicon last; each optional sheet present exactly when the report has it |
| ExportRun.WorkbookSheets | utils/export-excel.js:151-396 | duplicates sheet exactly with duplicates; significant, variable and fixed sheets exactly when a difference calls for them |
| ExportRun.ExportToExcelWithFormulas | utils/export-excel.js:10-523 | the method appends the report's sheets in order |
| DataSheet.Matrix | utils/export-excel.js:531-544 | header row, then one row per record in header order; missing values are "", null stays null |
| DataSheet.FallbackMatrix | utils/export-excel.js:583-588 | the header row, then per record the value under each header when present, and "" for a missing or null value |
| DataSheet.AoaCells | utils/export-excel.js:547 | a text cell for each text entry and none for null |
| DataSheet.MatrixWidth | utils/export-excel.js:598-604 | the sheet range spans exactly the header columns |
| DataSheet.IndexOf | utils/export-excel.js:555 | `indexOf`: the first position of the column, or -1 exactly when absent |
| DataSheet.Target | utils/export-excel.js:551-558 | a formula goes one row below its data row, in its header's column; none when the column is unknown |
| DataSheet.FormulasElsewhere | utils/export-excel.js:550-571 | a cell no formula targets is unchanged |
| DataSheet.FormulaLands | utils/export-excel.js:562-568 | a targeted cell exists, keeps its value (0 when created) and holds the last formula set on it |
| DataSheet.FormulaValue | utils/export-excel.js:562-568 | formulas never change a value; created cells hold 0 |
| DataSheet.SheetLayout | utils/export-excel.js:528-591 | one width of 15 per header, the header row in row 0, no cells without headers |
| DataSheet.DataCell | utils/export-excel.js:536-547 | a data cell exists exactly when the value is not null, holding its text or "" |
| DataSheet.Worksheet.FromRows | utils/export-excel.js:547 | the new sheet holds the cells of the matrix and its width |
| DataSheet.Worksheet.SetFormula | utils/export-excel.js:556-568 | sets one formula, creating the cell as 0 when missing |
| DataSheet.Worksheet.ApplyFormulas | utils/export-excel.js:550-571 | sets every formula in turn |
| DataSheet.Worksheet.AddStyling | utils/export-excel.js:596-609 | one width of 15 per range column; a sheet without a range fails with nothing changed |
| DataSheet.BuildMatrix | utils/export-excel.js:534-544 | the loops build the matrix |
| DataSheet.BuildFallback | utils/export-excel.js:584-588 | the loops build the fallback matrix |
| DataSheet.CreateSheetWithFormulas | utils/export-excel.js:528-591 | the sheet built in place has the cells and widths of the sheet function |
| StringOrder.LessTransitive | utils/export-excel.js:423 | the order used by `sort()` is transitive |
| StringOrder.LessTotal | utils/export-excel.js:423 | any two distinct strings are ordered one way |
| StringOrder.Sort | utils/export-excel.js:423 | distinct columns come out strictly sorted, with exactly the same elements |

## Left out

- The `xlsx` library is not modelled: reading a workbook, `sheet_to_json`, `encode_cell`,
  `decode_range` and `write`. A sheet is given as its rows of text-or-null cells. A written
  sheet is a map from (row, column) to a cell value and its formula.
- Numbers are exact reals, not IEEE doubles. Rounding, `Infinity`, `-0` and `NaN`
  arithmetic are not modelled, and `parseFloat` does not read `Infinity`.
- Text rendering is left out: `toFixed` percentages, the `+N jour(s)` day strings,
  `String(number)` and `Date.toString`. Percentages and day counts are carried as reals.
  A date carries its rendering as data.
- `new Date().toLocaleString()` in the summary is a parameter (`exportedAt`).
- Console logging is left out. So is the `try/catch` around `parseValue`, whose body
  never throws. `parseExcelFile`'s rethrow becomes the `Failure` result.
- `fileBDict` is a map. JavaScript's inherited object keys, such as an identifier named
  `constructor`, are not modelled.
- Reconcile.Detail: a matched detail's `rowData`, always `{matricule: id}`, is not kept.
- Headers are their `key` strings; the `{key, value}` objects the reader returns are not
  modelled.
- `summary.duplicates` and `summary.sequentialComparison` are optional inputs of the
  export. The comparison never fills them, and they are not computed.
- JsText.Lower: only ASCII and Latin-1 capitals are mapped. JavaScript's full Unicode
  case mapping is not modelled: `Œ`, `Ÿ`, Greek and Cyrillic capitals, and `İ` (which
  becomes two characters). Headers containing them normalise differently here, both in
  identifier detection and in column mapping.
- StringOrder.Less: compares characters by code point. `sort()` compares UTF-16 code
  units, so the two orders differ between a character above U+FFFF and one in
  U+E000..U+FFFF. The model sorts the first after the second; JavaScript sorts it before.
- StringOrder.Sort: the library's `sort()` is modelled by its result, a strictly sorted
  list with the same elements. Its algorithm is not modelled.
- CellValues.NumberTextFirstCommaOnly: the statement is about the text `parseValue`
  reads. The step to `ParseValue(Str(...)) == Num(...)` is the general
  `ParseValueNumber`.
- The HTTP server, sessions, database and browser code are not part of this model.
- The `rawWorksheet` field of a parsed file is not part of this model.
