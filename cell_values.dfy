/** Cell-value normalisation and comparison of `utils/excel-parser.js`:
    `parseValue`, `areValuesEqual` and `calculateDifference`. */
module CellValues {
  import opened Wrappers
  import opened JsText

  /** The JavaScript values these functions see. Numbers are exact reals; a date is
      its instant in milliseconds together with the text `String(date)` gives for it,
      which depends on the host's time zone and is therefore carried as data. */
  datatype Value = Undef | Null | Num(n: real) | Str(s: string) | Date(ms: int, text: string)

  /** What `calculateDifference` returns: a signed amount, a signed day count
      (rendered `+d jour(s)` or `d jour(s)`), or one of the two text markers. */
  datatype Delta =
    | Amount(amount: real)
    | Days(days: real)
    | Identical        // "Identique"
    | DifferentValues  // "Valeurs différentes"

  predicate IsNullish(v: Value) {
    v.Undef? || v.Null?
  }

  /** The rewrite `parseValue` applies to a space-free string before `parseFloat`:
      with both separators, the one that comes last is the decimal point and every
      occurrence of the other is dropped; with commas only, the first comma becomes
      the decimal point. */
  function NormalizeSeparators(c: string): string {
    var hasComma := ',' in c;
    var hasDot := '.' in c;
    if hasComma && hasDot && LastIndexOf(c, ',') > LastIndexOf(c, '.') then
      ReplaceFirst(RemoveAll(c, '.'), ',', '.')
    else if hasComma && hasDot && LastIndexOf(c, '.') > LastIndexOf(c, ',') then
      RemoveAll(c, ',')
    else if hasComma && !hasDot then
      ReplaceFirst(c, ',', '.')
    else c
  }

  /** The number `parseValue` reads from a non-blank string: its trim, with every
      `\s` character removed and the separators rewritten, given to `parseFloat`. */
  function NumberText(s: string): Parsed {
    ParseFloat(NormalizeSeparators(StripSpaces(Trim(s))))
  }

  /** `parseValue`: null, undefined and blank strings become null; numbers and dates
      are kept; any other string becomes the number its decimal prefix denotes, or is
      returned unchanged when it has none. */
  function ParseValue(v: Value): (r: Value)
    ensures r.Null? <==> IsNullish(v) || (v.Str? && Trim(v.s) == [])
    ensures !r.Undef?
    ensures r.Num? || r.Null? || r == v
    ensures v.Num? || v.Date? ==> r == v
  {
    match v
    case Undef => Null
    case Null => Null
    case Num(_) => v
    case Date(_, _) => v
    case Str(s) =>
      // The source's separate test for "" is covered: the empty string trims to itself.
      if Trim(s) == [] then Null
      else
        match NumberText(s)
        case Real(x) => Num(x)
        case NaN => v
  }

  /** The tolerance of numeric comparison: strictly less than 0.01 apart. */
  predicate Within(x: real, y: real) {
    -0.01 < x - y < 0.01
  }

  /** A number read from each side of a mixed comparison, `left` from `a`, `right` from `b`. */
  datatype NumberPair = NoPair | Pair(left: real, right: real)

  /** A string and a number, the string read with plain `parseFloat` (no separator
      rewrite); NoPair unless exactly one side is a string, the other a number, and the
      string has a decimal prefix. */
  function MixedNumbers(a: Value, b: Value): NumberPair {
    match (a, b)
    case (Str(s), Num(y)) =>
      (match ParseFloat(s) case Real(x) => Pair(x, y) case NaN => NoPair)
    case (Num(x), Str(t)) =>
      (match ParseFloat(t) case Real(y) => Pair(x, y) case NaN => NoPair)
    case _ => NoPair
  }

  /** `String(v)` for the values whose text the fallbacks compare. A number has no
      entry: wherever the fallback `String(a).trim() === String(b).trim()` is reached
      with a number on one side, the other side is null, undefined, a date, or a string
      `parseFloat` rejects, and none of these renders like a number, so the fallback
      answers false. */
  function TextOf(v: Value): Option<string> {
    match v
    case Undef => Some("undefined")
    case Null => Some("null")
    case Str(s) => Some(s)
    case Date(_, text) => Some(text)
    case Num(_) => None
  }

  /** `String(a).trim() === String(b).trim()` on the pairs that reach it. */
  predicate SameText(a: Value, b: Value) {
    TextOf(a).Some? && TextOf(b).Some? && Trim(TextOf(a).value) == Trim(TextOf(b).value)
  }

  /** `areValuesEqual`. */
  predicate AreValuesEqual(a: Value, b: Value) {
    if a.Null? && b.Null? then true
    else if a.Undef? && b.Undef? then true
    else if IsNullish(a) || IsNullish(b) then false
    else if a.Date? && b.Date? then a.ms == b.ms
    else if a.Num? && b.Num? then Within(a.n, b.n)
    else if a.Str? && b.Str? then Trim(a.s) == Trim(b.s)
    else if MixedNumbers(a, b).Pair? then Within(MixedNumbers(a, b).left, MixedNumbers(a, b).right)
    else SameText(a, b)
  }

  /** `calculateDifference`: `b - a` for numbers (a string side read with `parseFloat`),
      the signed number of days between two dates, otherwise a text marker. */
  function CalculateDifference(a: Value, b: Value): Delta {
    if a.Num? && b.Num? then Amount(b.n - a.n)
    else if MixedNumbers(a, b).Pair? then Amount(MixedNumbers(a, b).right - MixedNumbers(a, b).left)
    else if a.Date? && b.Date? then Days((b.ms - a.ms) as real / 86400000.0)
    else if SameText(a, b) then Identical
    else DifferentValues
  }

  // ---------------------------------------------------------------------------
  // parseValue

  /** Normalising twice is normalising once. */
  lemma ParseValueIdempotent(v: Value)
    ensures ParseValue(ParseValue(v)) == ParseValue(v)
  {
  }

  /** A string without any decimal digit (a name, a code made of letters) is never
      turned into a number: it comes back unchanged, or as null when blank. */
  lemma ParseValueKeepsNames(s: string)
    requires forall i :: 0 <= i < |s| ==> !IsDigit(s[i])
    ensures ParseValue(Str(s)) == (if Trim(s) == [] then Null else Str(s))
  {
    NoDigitNoNumberText(s);
  }

  lemma NoDigitNoNumberText(s: string)
    requires forall i :: 0 <= i < |s| ==> !IsDigit(s[i])
    ensures NumberText(s) == NaN
  {
    var t := Trim(s);
    var u := StripSpaces(t);
    var c := NormalizeSeparators(u);
    TrimChars(s);
    assert forall x :: x in s ==> !IsDigit(x);
    assert forall x :: x in t ==> !IsDigit(x);
    StripSpacesChars(t);
    assert forall x :: x in u ==> !IsDigit(x);
    NormalizeSeparatorsChars(u);
    assert forall x :: x in c ==> !IsDigit(x);
    assert forall i :: 0 <= i < |c| ==> !IsDigit(c[i]) by {
      forall i | 0 <= i < |c| ensures !IsDigit(c[i]) {
        assert c[i] in c;
      }
    }
    NoDigitNoNumber(c);
  }

  /** A string whose first character after trimming cannot start a number (it is not
      a sign, a digit, a point or a comma) is returned unchanged, whatever follows it:
      `A12`, `Code 7` and `N/A 2024` stay text. */
  lemma ParseValueKeepsText(s: string)
    requires Trim(s) != [] && Trim(s)[0] !in "+-.,0123456789"
    ensures NumberText(s) == NaN
    ensures ParseValue(Str(s)) == Str(s)
  {
    var t := Trim(s);
    var x := t[0];
    assert !IsDigit(x);
    var u := StripSpaces(t);
    assert t == [x] + t[1..];
    StripSpacesAppend([x], t[1..]);
    StripSpacesUnchanged([x]);
    assert u == [x] + StripSpaces(t[1..]);
    var c := NormalizeSeparators(u);
    NormalizeKeepsFirst(x, StripSpaces(t[1..]));
    UnsignedNotNumber(c);
  }

  /** The separator rewrite keeps a first character that is neither separator. */
  lemma NormalizeKeepsFirst(x: char, rest: string)
    requires x != '.' && x != ','
    ensures |NormalizeSeparators([x] + rest)| > 0 && NormalizeSeparators([x] + rest)[0] == x
  {
    var u := [x] + rest;
    RemoveAllCons(x, rest, '.');
    RemoveAllCons(x, rest, ',');
    assert RemoveAll(u, '.') == [x] + RemoveAll(rest, '.');
    assert ReplaceFirst([x] + RemoveAll(rest, '.'), ',', '.')[0] == x;
    assert ReplaceFirst(u, ',', '.')[0] == x;
  }

  /** `parseFloat` rejects a string that starts with a character other than `\s`, a
      sign, a digit or a point. */
  lemma UnsignedNotNumber(c: string)
    requires |c| > 0 && !IsSpace(c[0]) && c[0] !in "+-.0123456789"
    ensures ParseFloat(c) == NaN
  {
    assert TrimStart(c) == c;
    assert !IsDigit(c[0]);
    assert LeadingDigits(c) == 0;
    assert c[0..] == c;
  }

  lemma TrimChars(s: string)
    ensures forall x :: x in Trim(s) ==> x in s
  {
    var t := TrimStart(s);
    forall x | x in Trim(s) ensures x in s {
      var i :| 0 <= i < |Trim(s)| && Trim(s)[i] == x;
      assert Trim(s)[i] == t[i];
      assert t[i] == s[|s| - |t| + i];
    }
  }

  lemma StripSpacesChars(s: string)
    ensures forall x :: x in StripSpaces(s) ==> x in s
  {
    forall x | x in StripSpaces(s) ensures x in s {
      var i :| 0 <= i < |StripSpaces(s)| && StripSpaces(s)[i] == x;
    }
  }

  lemma {:induction false} ReplaceFirstChars(s: string, c: char, d: char)
    ensures forall x :: x in ReplaceFirst(s, c, d) ==> x in s || x == d
  {
    if s != [] && s[0] != c {
      ReplaceFirstChars(s[1..], c, d);
    }
  }

  /** The separator rewrite only drops characters or turns a comma into a point. */
  lemma NormalizeSeparatorsChars(c: string)
    ensures forall x :: x in NormalizeSeparators(c) ==> x in c || x == '.'
  {
    ReplaceFirstChars(RemoveAll(c, '.'), ',', '.');
    ReplaceFirstChars(c, ',', '.');
  }

  /** A run of digits, possibly with `sep` characters among them, starting with a digit
      (`1.234.567`, `12,500`). */
  predicate Grouped(m: string, sep: char) {
    |m| > 0 && IsDigit(m[0]) && forall i :: 0 <= i < |m| ==> IsDigit(m[i]) || m[i] == sep
  }

  lemma DropSeparators(m: string, sep: char)
    requires Grouped(m, sep) && !IsDigit(sep)
    ensures var r := RemoveAll(m, sep); |r| > 0 && IsDigit(r[0]) && AllDigits(r)
  {
    var r := RemoveAll(m, sep);
    assert r[0] == m[0];
    forall i | 0 <= i < |r| ensures IsDigit(r[i]) {
      assert r[i] in r;
      var j :| 0 <= j < |m| && m[j] == r[i];
    }
  }

  lemma GroupedNoSpaces(m: string, sep: char, f: string, point: char)
    requires Grouped(m, sep) && AllDigits(f) && !IsSpace(sep) && !IsSpace(point)
    ensures NoSpaces(m + [point] + f)
    ensures Trim(m + [point] + f) == m + [point] + f
  {
    var s := m + [point] + f;
    forall i | 0 <= i < |s| ensures !IsSpace(s[i]) {
      if i < |m| {
        assert s[i] == m[i];
      } else if i > |m| {
        assert s[i] == f[i - |m| - 1];
      }
    }
    TrimUnchanged(s);
  }

  /** The number written as the digits of `m` with its `sep` group separators dropped,
      followed by the decimal fraction `f`. */
  function GroupedValue(m: string, sep: char, f: string): real
    requires Grouped(m, sep) && !IsDigit(sep) && AllDigits(f)
  {
    DropSeparators(m, sep);
    DigitsValue(RemoveAll(m, sep)) as real + Fraction(f)
  }

  /** A non-blank string with a number becomes that number. */
  lemma ParseValueNumber(s: string)
    requires Trim(s) != [] && NumberText(s).Real?
    ensures ParseValue(Str(s)) == Num(NumberText(s).value)
  {
  }

  /** European notation: digits grouped by points, then a decimal comma
      (`1.234,56`, and `1234,56` without grouping) read as the grouped digits
      plus the fraction. */
  lemma ParseValueDecimalComma(m: string, f: string)
    requires Grouped(m, '.') && AllDigits(f)
    ensures ParseValue(Str(m + "," + f)) == Num(GroupedValue(m, '.', f))
  {
    DecimalCommaText(m, f);
    ParseValueNumber(m + "," + f);
  }

  lemma DecimalCommaText(m: string, f: string)
    requires Grouped(m, '.') && AllDigits(f)
    ensures Trim(m + "," + f) == m + "," + f
    ensures NumberText(m + "," + f) == Real(GroupedValue(m, '.', f))
  {
    var x := NumberText(m + "," + f);
    assert x.Real? && x.value == GroupedValue(m, '.', f) by {
      DecimalCommaValue(m, f);
    }
    assert Trim(m + "," + f) == m + "," + f by {
      DecimalCommaValue(m, f);
    }
  }

  lemma DecimalCommaValue(m: string, f: string)
    requires Grouped(m, '.') && AllDigits(f)
    ensures AllDigits(RemoveAll(m, '.'))
    ensures Trim(m + "," + f) == m + "," + f
    ensures NumberText(m + "," + f).Real?
    ensures NumberText(m + "," + f).value == DigitsValue(RemoveAll(m, '.')) as real + Fraction(f)
  {
    var s := m + [','] + f;
    assert s == m + "," + f;
    var r := RemoveAll(m, '.');
    DropSeparators(m, '.');
    GroupedNoSpaces(m, '.', f, ',');
    StripSpacesUnchanged(s);
    CommaNormalized(m, f);
    assert NumberText(s) == ParseFloat(r + "." + f);
    ParseFloatUnsigned(r + "." + f);
    UnsignedPointDigits(r, f);
  }

  lemma CommaNormalized(m: string, f: string)
    requires Grouped(m, '.') && AllDigits(f)
    ensures NormalizeSeparators(m + [','] + f) == RemoveAll(m, '.') + "." + f
  {
    var s := m + [','] + f;
    assert s[|m|] == ',';
    assert '.' !in f && ',' !in f;
    if '.' in m {
      LastIndexOfAppend(m + [','], f, ',');
      LastIndexOfAppend(m + [','], f, '.');
      LastIndexOfAppend(m, [','], '.');
      assert LastIndexOf(m + [','], ',') == |m|;
      RemoveAllAround(m, ',', f, '.');
      CommaNotIn(m);
      ReplaceFirstAt(RemoveAll(m, '.'), f, ',', '.');
    } else {
      RemoveAllAbsent(m, '.');
      CommaNotIn(m);
      assert '.' !in s;
      ReplaceFirstAt(m, f, ',', '.');
    }
  }

  lemma CommaNotIn(m: string)
    requires Grouped(m, '.')
    ensures ',' !in m && ',' !in RemoveAll(m, '.')
  {
  }

  /** English notation: digits grouped by commas, then a decimal point
      (`1,234.56`, and `1234.56` without grouping). */
  lemma ParseValueDecimalPoint(m: string, f: string)
    requires Grouped(m, ',') && AllDigits(f)
    ensures ParseValue(Str(m + "." + f)) == Num(GroupedValue(m, ',', f))
  {
    DecimalPointText(m, f);
    ParseValueNumber(m + "." + f);
  }

  lemma DecimalPointText(m: string, f: string)
    requires Grouped(m, ',') && AllDigits(f)
    ensures Trim(m + "." + f) == m + "." + f
    ensures NumberText(m + "." + f) == Real(GroupedValue(m, ',', f))
  {
    var x := NumberText(m + "." + f);
    assert x.Real? && x.value == GroupedValue(m, ',', f) by {
      DecimalPointValue(m, f);
    }
    assert Trim(m + "." + f) == m + "." + f by {
      DecimalPointValue(m, f);
    }
  }

  lemma DecimalPointValue(m: string, f: string)
    requires Grouped(m, ',') && AllDigits(f)
    ensures AllDigits(RemoveAll(m, ','))
    ensures Trim(m + "." + f) == m + "." + f
    ensures NumberText(m + "." + f).Real?
    ensures NumberText(m + "." + f).value == DigitsValue(RemoveAll(m, ',')) as real + Fraction(f)
  {
    var s := m + ['.'] + f;
    assert s == m + "." + f;
    var r := RemoveAll(m, ',');
    DropSeparators(m, ',');
    GroupedNoSpaces(m, ',', f, '.');
    StripSpacesUnchanged(s);
    PointNormalized(m, f);
    assert NumberText(s) == ParseFloat(r + "." + f);
    ParseFloatUnsigned(r + "." + f);
    UnsignedPointDigits(r, f);
  }

  lemma PointNormalized(m: string, f: string)
    requires Grouped(m, ',') && AllDigits(f)
    ensures NormalizeSeparators(m + ['.'] + f) == RemoveAll(m, ',') + "." + f
  {
    var s := m + ['.'] + f;
    assert s[|m|] == '.';
    assert '.' !in f && ',' !in f;
    if ',' in m {
      LastIndexOfAppend(m + ['.'], f, ',');
      LastIndexOfAppend(m + ['.'], f, '.');
      LastIndexOfAppend(m, ['.'], ',');
      assert LastIndexOf(m + ['.'], '.') == |m|;
      RemoveAllAround(m, '.', f, ',');
    } else {
      RemoveAllAbsent(m, ',');
      assert ',' !in s;
    }
  }

  /** `1.234,56` (European) and `1,234.56` (English) both read as 1234.56. */
  lemma ParseValueExamples()
    ensures ParseValue(Str("1.234,56")) == Num(1234.56)
    ensures ParseValue(Str("1,234.56")) == Num(1234.56)
  {
    EuropeanParts();
    EnglishParts();
    ParseValueDecimalComma("1.234", "56");
    ParseValueDecimalPoint("1,234", "56");
  }

  lemma EuropeanParts()
    ensures Grouped("1.234", '.') && AllDigits("56")
    ensures "1.234" + "," + "56" == "1.234,56"
    ensures GroupedValue("1.234", '.', "56") == 1234.56
  {
    GroupedExample("1.234", '.');
    DigitsOf56();
    DropDotExample();
    GroupedValueOf("1.234", '.', "56", "1234");
  }

  lemma EnglishParts()
    ensures Grouped("1,234", ',') && AllDigits("56")
    ensures "1,234" + "." + "56" == "1,234.56"
    ensures GroupedValue("1,234", ',', "56") == 1234.56
  {
    GroupedExample("1,234", ',');
    DigitsOf56();
    DropCommaExample();
    GroupedValueOf("1,234", ',', "56", "1234");
  }

  /** The grouped value of the examples, once their separators are dropped. */
  lemma GroupedValueOf(m: string, sep: char, f: string, digits: string)
    requires Grouped(m, sep) && !IsDigit(sep) && f == "56" && RemoveAll(m, sep) == digits && digits == "1234"
    ensures GroupedValue(m, sep, f) == 1234.56
  {
    DigitsExample();
    FractionExample();
  }

  /** A comma alone is a decimal comma: `1234,56` reads as 1234.56. */
  lemma ParseValueCommaAlone()
    ensures ParseValue(Str("1234,56")) == Num(1234.56)
  {
    CommaAloneParts();
    ParseValueDecimalComma("1234", "56");
  }

  lemma CommaAloneParts()
    ensures Grouped("1234", '.') && AllDigits("56")
    ensures "1234" + "," + "56" == "1234,56"
    ensures GroupedValue("1234", '.', "56") == 1234.56
  {
    assert "1234" == ['1', '2', '3', '4'];
    assert Grouped("1234", '.');
    DigitsOf56();
    RemoveAllAbsent("1234", '.');
    GroupedValueOf("1234", '.', "56", "1234");
  }

  /** With commas only, just the first comma becomes a decimal point: the second comma
      ends the number, so `i,f,g` reads as `i.f` and the digits `g` are lost. With
      `ParseValueNumber` this gives `ParseValue(Str(i,f,g)) == Num(i.f)`. */
  lemma NumberTextFirstCommaOnly(i: string, f: string, g: string)
    requires |i| > 0 && AllDigits(i) && AllDigits(f) && AllDigits(g)
    ensures Trim(i + "," + f + "," + g) == i + "," + f + "," + g
    ensures NumberText(i + "," + f + "," + g) == Real(DigitsValue(i) as real + Fraction(f))
  {
    CommasText(i, f, g);
    FirstCommaNumber(i, f, g, i + "," + f + "," + g);
  }

  /** The number text of `i,f,g` is read as `i.f`. */
  lemma FirstCommaNumber(i: string, f: string, g: string, s: string)
    requires |i| > 0 && AllDigits(i) && AllDigits(f) && AllDigits(g)
    requires s == i + "," + f + "," + g
    ensures NumberText(s) == Real(DigitsValue(i) as real + Fraction(f))
  {
    var t := i + (['.'] + (f + ([','] + g)));
    assert NormalizeSeparators(StripSpaces(Trim(s))) == t by {
      CommasText(i, f, g);
      assert i + ['.'] + (f + [','] + g) == t;
    }
    PointThenComma(i, f, g, t);
  }

  lemma DigitMembers(s: string)
    requires AllDigits(s)
    ensures forall x :: x in s ==> IsDigit(x)
  {
  }

  lemma MembersNoSpaces(s: string)
    requires forall x :: x in s ==> !IsSpace(x)
    ensures NoSpaces(s)
  {
    forall k | 0 <= k < |s| ensures !IsSpace(s[k]) {
      assert s[k] in s;
    }
  }

  /** `i,f,g` has no space and no point, so only the first comma is rewritten. */
  lemma CommasText(i: string, f: string, g: string)
    requires |i| > 0 && AllDigits(i) && AllDigits(f) && AllDigits(g)
    ensures Trim(i + "," + f + "," + g) == i + "," + f + "," + g
    ensures StripSpaces(i + "," + f + "," + g) == i + "," + f + "," + g
    ensures NormalizeSeparators(i + "," + f + "," + g) == i + ['.'] + (f + [','] + g)
  {
    var tail := f + [','] + g;
    var s := i + [','] + tail;
    assert s == i + "," + f + "," + g;
    assert NoSpaces(s) && '.' !in s && ',' in s by {
      DigitMembers(i);
      DigitMembers(f);
      DigitMembers(g);
      assert forall x :: x in s ==> x in i || x == ',' || x in f || x in g;
      MembersNoSpaces(s);
    }
    assert Trim(s) == s by {
      TrimUnchanged(s);
    }
    assert StripSpaces(s) == s by {
      StripSpacesUnchanged(s);
    }
    assert NormalizeSeparators(s) == ReplaceFirst(s, ',', '.');
    assert ReplaceFirst(s, ',', '.') == i + ['.'] + tail by {
      assert ',' !in i by {
        DigitMembers(i);
      }
      ReplaceFirstAt(i, tail, ',', '.');
    }
  }

  /** `parseFloat` of `i.f,g` stops at the comma. */
  lemma PointThenComma(i: string, f: string, g: string, t: string)
    requires |i| > 0 && AllDigits(i) && AllDigits(f)
    requires t == i + (['.'] + (f + ([','] + g)))
    ensures ParseFloat(t) == Real(DigitsValue(i) as real + Fraction(f))
  {
    assert ParseFloat(t) == UnsignedDecimal(t) by {
      assert t[0] == i[0];
      ParseFloatUnsigned(t);
    }
    UnsignedPointComma(i, f, g, t);
  }

  lemma UnsignedPointComma(i: string, f: string, g: string, t: string)
    requires |i| > 0 && AllDigits(i) && AllDigits(f)
    requires t == i + (['.'] + (f + ([','] + g)))
    ensures UnsignedDecimal(t) == Real(DigitsValue(i) as real + Fraction(f))
  {
    assert UnsignedDecimal(t) == Real(LiteralValue(DecimalLiteral(i, f, 0))) by {
      ScanPointComma(i, f, g, t);
    }
    assert LiteralValue(DecimalLiteral(i, f, 0)) == DigitsValue(i) as real + Fraction(f);
  }

  lemma ScanPointComma(i: string, f: string, g: string, t: string)
    requires |i| > 0 && AllDigits(i) && AllDigits(f)
    requires t == i + (['.'] + (f + ([','] + g)))
    ensures ScanDecimal(t) == Some(DecimalLiteral(i, f, 0))
  {
    var c := [','] + g;
    var rest := f + c;
    var q := ['.'] + rest;
    LeadingDigitsStop(i, q);
    assert t[..|i|] == i && t[|i|..] == q;
    assert q[1..] == rest;
    LeadingDigitsStop(f, c);
    assert rest[..|f|] == f && rest[|f|..] == c;
    assert ExponentOf(c) == 0;
  }

  lemma GroupedExample(m: string, sep: char)
    requires m == ['1', sep, '2', '3', '4']
    ensures Grouped(m, sep)
  {
    assert IsDigit(m[0]) && IsDigit(m[2]) && IsDigit(m[3]) && IsDigit(m[4]);
  }

  lemma DigitsOf56()
    ensures AllDigits("56")
  {
    assert "56" == ['5', '6'];
  }

  /** A point alone is a decimal point, not a thousands separator: `1.234` is 1.234. */
  lemma ParseValuePointAlone()
    ensures ParseValue(Str("1.234")) == Num(1.234)
  {
    PointAloneParts();
    ParseValueDecimalPoint("1", "234");
  }

  lemma PointAloneParts()
    ensures Grouped("1", ',') && AllDigits("234")
    ensures "1" + "." + "234" == "1.234"
    ensures GroupedValue("1", ',', "234") == 1.234
  {
    assert "1" == ['1'];
    assert "234" == ['2', '3', '4'];
    assert RemoveAll("1", ',') == "1" by {
      assert "1"[1..] == "";
    }
    assert DigitsValue("1") == 1 by {
      assert "1"[..0] == "";
    }
    assert Fraction("234") == 0.234 by {
      assert "234"[1..] == "34";
      assert "34"[1..] == "4";
      assert "4"[1..] == "";
    }
  }

  lemma DropDotExample()
    ensures RemoveAll("1.234", '.') == "1234"
  {
    assert "1.234"[1..] == ".234";
    assert ".234"[1..] == "234";
    assert "234"[1..] == "34";
    assert "34"[1..] == "4";
    assert "4"[1..] == "";
  }

  lemma DropCommaExample()
    ensures RemoveAll("1,234", ',') == "1234"
  {
    assert "1,234"[1..] == ",234";
    assert ",234"[1..] == "234";
    assert "234"[1..] == "34";
    assert "34"[1..] == "4";
    assert "4"[1..] == "";
  }

  lemma DigitsExample()
    ensures DigitsValue("1234") == 1234
  {
    assert "1234"[..3] == "123";
    assert "123"[..2] == "12";
    assert "12"[..1] == "1";
    assert "1"[..0] == "";
  }

  lemma FractionExample()
    ensures Fraction("56") == 0.56
  {
    assert "56"[1..] == "6";
    assert "6"[1..] == "";
  }

  // ---------------------------------------------------------------------------
  // areValuesEqual and calculateDifference

  /** Comparison does not depend on which file a value comes from. */
  lemma EqualSymmetric(a: Value, b: Value)
    ensures AreValuesEqual(a, b) == AreValuesEqual(b, a)
  {
  }

  /** Every value equals itself. */
  lemma EqualReflexive(v: Value)
    ensures AreValuesEqual(v, v)
  {
  }

  /** With null or undefined on either side, values are equal exactly when they are
      the same: null matches only null and undefined only undefined. */
  lemma EqualNullish(a: Value, b: Value)
    requires IsNullish(a) || IsNullish(b)
    ensures AreValuesEqual(a, b) <==> a == b
  {
  }

  /** Two numbers compare equal exactly when they are less than 0.01 apart, in either
      direction. */
  lemma EqualTolerance(x: real, y: real)
    ensures AreValuesEqual(Num(x), Num(y)) <==> -0.01 < x - y < 0.01
    ensures AreValuesEqual(Num(x), Num(y)) <==> -0.01 < y - x < 0.01
  {
  }

  /** The tolerance is exclusive: amounts within half a cent are equal, amounts exactly
      a cent apart are not. */
  lemma EqualToleranceExamples()
    ensures AreValuesEqual(Num(1000.0), Num(1000.005))
    ensures !AreValuesEqual(Num(100.0), Num(100.01))
    ensures AreValuesEqual(Num(0.0), Num(0.009)) && !AreValuesEqual(Num(0.0), Num(0.011))
  {
  }

  /** The tolerance makes equality non-transitive. */
  lemma EqualNotTransitive()
    ensures AreValuesEqual(Num(0.0), Num(0.006)) && AreValuesEqual(Num(0.006), Num(0.012))
    ensures !AreValuesEqual(Num(0.0), Num(0.012))
  {
  }

  /** The decimal rendering of a whole number equals that number. */
  lemma EqualNumericString(n: nat)
    ensures AreValuesEqual(Str(NatToString(n)), Num(n as real))
    ensures AreValuesEqual(Num(n as real), Str(NatToString(n)))
  {
    ParseFloatNat(n);
  }

  /** The opposite direction of comparison: a difference with the files exchanged. */
  function Negated(d: Delta): Delta {
    match d
    case Amount(x) => Amount(-x)
    case Days(x) => Days(-x)
    case Identical => Identical
    case DifferentValues => DifferentValues
  }

  /** Exchanging the files negates the difference and keeps the markers. */
  lemma DifferenceAntisymmetric(a: Value, b: Value)
    ensures CalculateDifference(b, a) == Negated(CalculateDifference(a, b))
  {
  }

  /** For two numbers, equality is exactly a difference of less than 0.01 either way. */
  lemma DifferenceOfNumbers(x: real, y: real)
    ensures CalculateDifference(Num(x), Num(y)) == Amount(y - x)
    ensures AreValuesEqual(Num(x), Num(y)) <==> -0.01 < CalculateDifference(Num(x), Num(y)).amount < 0.01
  {
  }

  /** Two dates differ by the number of days between them, zero exactly when they are
      the same instant, which is exactly when they compare equal. */
  lemma DifferenceOfDates(x: int, s: string, y: int, t: string)
    ensures CalculateDifference(Date(x, s), Date(y, t)).Days?
    ensures CalculateDifference(Date(x, s), Date(y, t)).days == 0.0 <==> AreValuesEqual(Date(x, s), Date(y, t))
    ensures CalculateDifference(Date(x, s), Date(y, t)).days * 86400000.0 == (y - x) as real
  {
  }

  /** Between two strings, the marker is `Identique` exactly when the values compare
      equal: a recorded string difference always reads `Valeurs différentes`. */
  lemma DifferenceOfStrings(s: string, t: string)
    ensures CalculateDifference(Str(s), Str(t)) == (if AreValuesEqual(Str(s), Str(t)) then Identical else DifferentValues)
  {
  }

  /** The text fallback of `calculateDifference` renders null as `null`, so an empty cell
      against the text `null` is a difference that is reported as `Identique`. */
  lemma DifferenceNullText()
    ensures !AreValuesEqual(Null, Str("null"))
    ensures CalculateDifference(Null, Str("null")) == Identical
  {
    assert MixedNumbers(Null, Str("null")) == NoPair;
    assert TextOf(Null) == TextOf(Str("null"));
    assert SameText(Null, Str("null"));
  }
}
