/** The JavaScript string built-ins the reconciliation core relies on, stated over
    `seq<char>`: the `\s` class and `trim()`, `toLowerCase()`, `includes`,
    `lastIndexOf`, `replace`, the decimal rendering of a natural number and
    `parseFloat`, the last one as an exact decimal-prefix parser over `real`. */
module JsText {
  import opened Wrappers

  /** The characters matched by the regular-expression class `\s` and removed by
      `trim()`: ECMAScript WhiteSpace and LineTerminator. */
  predicate IsSpace(c: char) {
    || c == ' ' || c == '\t' || c == '\n' || c == '\r' || c == '\U{B}' || c == '\U{C}'
    || c == '\U{A0}' || c == '\U{1680}' || ('\U{2000}' <= c <= '\U{200A}')
    || c == '\U{2028}' || c == '\U{2029}' || c == '\U{202F}' || c == '\U{205F}'
    || c == '\U{3000}' || c == '\U{FEFF}'
  }

  predicate IsDigit(c: char) {
    '0' <= c <= '9'
  }

  predicate AllDigits(s: string) {
    forall i :: 0 <= i < |s| ==> IsDigit(s[i])
  }

  predicate NoSpaces(s: string) {
    forall i :: 0 <= i < |s| ==> !IsSpace(s[i])
  }

  /** `s` with its leading `\s` characters removed. */
  function TrimStart(s: string): (r: string)
    ensures |r| <= |s| && r == s[|s| - |r|..]
    ensures r == [] || !IsSpace(r[0])
    ensures forall i :: 0 <= i < |s| - |r| ==> IsSpace(s[i])
  {
    if |s| > 0 && IsSpace(s[0]) then TrimStart(s[1..]) else s
  }

  /** `s` with its trailing `\s` characters removed. */
  function TrimEnd(s: string): (r: string)
    ensures |r| <= |s| && r == s[..|r|]
    ensures r == [] || !IsSpace(r[|r| - 1])
    ensures forall i :: |r| <= i < |s| ==> IsSpace(s[i])
  {
    if |s| > 0 && IsSpace(s[|s| - 1]) then TrimEnd(s[..|s| - 1]) else s
  }

  /** `r` sits in `s` at position `p` with only `\s` characters before and after it. */
  predicate SpaceBounded(s: string, r: string, p: int) {
    && 0 <= p <= |s| - |r| && r == s[p..p + |r|]
    && (forall i :: 0 <= i < p ==> IsSpace(s[i]))
    && (forall i :: p + |r| <= i < |s| ==> IsSpace(s[i]))
  }

  /** `String.prototype.trim`. */
  function Trim(s: string): (r: string)
    ensures |r| <= |s|
    ensures r == [] || (!IsSpace(r[0]) && !IsSpace(r[|r| - 1]))
  {
    TrimEnd(TrimStart(s))
  }

  /** The trim of `s` is the slice of `s` left between a leading and a trailing run of
      `\s` characters. */
  lemma TrimSlice(s: string)
    ensures exists p :: SpaceBounded(s, Trim(s), p)
  {
    var t := TrimStart(s);
    var r := TrimEnd(t);
    var p := |s| - |t|;
    assert r == s[p..p + |r|] by {
      assert t == s[p..];
      assert r == t[..|r|];
      forall i | 0 <= i < |r| ensures r[i] == s[p + i] {
        assert r[i] == t[i];
      }
    }
    assert forall i :: p + |r| <= i < |s| ==> IsSpace(s[i]) by {
      forall i | p + |r| <= i < |s| ensures IsSpace(s[i]) {
        assert s[i] == t[i - p];
      }
    }
    assert Trim(s) == r;
    assert SpaceBounded(s, r, p);
  }

  /** Trimming is idempotent. */
  lemma TrimIdempotent(s: string)
    ensures Trim(Trim(s)) == Trim(s)
  {
    var t := Trim(s);
    TrimUnchanged(t);
  }

  /** A string that neither starts nor ends with `\s` is its own trim. */
  lemma TrimUnchanged(s: string)
    requires s == [] || (!IsSpace(s[0]) && !IsSpace(s[|s| - 1]))
    ensures Trim(s) == s
  {
  }

  /** A string made only of `\s` characters trims to the empty string, and conversely. */
  lemma TrimEmptyIff(s: string)
    ensures Trim(s) == [] <==> forall i :: 0 <= i < |s| ==> IsSpace(s[i])
  {
    var t := TrimStart(s);
    if t != [] {
      assert !IsSpace(t[0]);
      assert TrimEnd(t) != [];
      assert s[|s| - |t|] == t[0];
    }
  }

  /** `s.replace(/\s/g, "")`: every `\s` character removed. */
  function StripSpaces(s: string): (r: string)
    ensures |r| <= |s| && NoSpaces(r)
    ensures forall i :: 0 <= i < |r| ==> r[i] in s
  {
    if s == [] then [] else (if IsSpace(s[0]) then [] else [s[0]]) + StripSpaces(s[1..])
  }

  /** Removal works piecewise: stripping a concatenation strips each part. With
      `StripSpacesUnchanged` and `StripSpacesOfSpaces` this fixes the result: the
      characters of `s` that are not `\s`, in their order. */
  lemma {:induction false} StripSpacesAppend(a: string, b: string)
    ensures StripSpaces(a + b) == StripSpaces(a) + StripSpaces(b)
  {
    if a != [] {
      var head := if IsSpace(a[0]) then [] else [a[0]];
      assert (a + b)[1..] == a[1..] + b;
      assert StripSpaces(a + b) == head + StripSpaces(a[1..] + b);
      StripSpacesAppend(a[1..], b);
      assert StripSpaces(a) == head + StripSpaces(a[1..]);
    } else {
      assert a + b == b;
    }
  }

  /** A string made only of `\s` characters is removed entirely. */
  lemma {:induction false} StripSpacesOfSpaces(s: string)
    requires forall i :: 0 <= i < |s| ==> IsSpace(s[i])
    ensures StripSpaces(s) == []
  {
    if s != [] {
      StripSpacesOfSpaces(s[1..]);
    }
  }

  /** A string without `\s` characters is unchanged by `StripSpaces`. */
  lemma {:induction false} StripSpacesUnchanged(s: string)
    requires NoSpaces(s)
    ensures StripSpaces(s) == s
  {
    if s != [] {
      StripSpacesUnchanged(s[1..]);
    }
  }

  /** `toLowerCase` on one character: ASCII and Latin-1 upper-case letters. */
  function LowerChar(c: char): (r: char)
    ensures IsSpace(r) <==> IsSpace(c)
    ensures IsDigit(r) <==> IsDigit(c)
  {
    if 'A' <= c <= 'Z' || ('\U{C0}' <= c <= '\U{DE}' && c != '\U{D7}') then
      (c as int + 32) as char
    else c
  }

  /** `s.toLowerCase()`, character by character. */
  function Lower(s: string): (r: string)
    ensures |r| == |s|
    ensures forall i :: 0 <= i < |s| ==> r[i] == LowerChar(s[i])
  {
    if s == [] then [] else [LowerChar(s[0])] + Lower(s[1..])
  }

  /** `s.includes(k)`: `k` occurs in `s` as a contiguous, case-sensitive substring. */
  predicate Contains(s: string, k: string) {
    k <= s || (|s| > 0 && Contains(s[1..], k))
  }

  /** `k` occurs in `s` starting at position `i`. */
  predicate OccursAt(s: string, k: string, i: int) {
    0 <= i <= |s| - |k| && s[i..i + |k|] == k
  }

  /** `Contains` holds exactly when `k` sits at some position of `s`. */
  lemma {:induction false} ContainsIff(s: string, k: string)
    ensures Contains(s, k) <==> exists i :: OccursAt(s, k, i)
  {
    if k <= s {
      assert OccursAt(s, k, 0);
    } else if |s| > 0 {
      ContainsIff(s[1..], k);
      if Contains(s[1..], k) {
        var i :| OccursAt(s[1..], k, i);
        assert s[i + 1..i + 1 + |k|] == s[1..][i..i + |k|];
        assert OccursAt(s, k, i + 1);
      } else if exists i :: OccursAt(s, k, i) {
        var i :| OccursAt(s, k, i);
        assert i != 0;
        assert s[1..][i - 1..i - 1 + |k|] == s[i..i + |k|];
        assert OccursAt(s[1..], k, i - 1);
      }
    } else {
      forall i ensures !OccursAt(s, k, i) {
      }
    }
  }

  /** Some keyword of `keywords` occurs in `s`. */
  predicate ContainsAny(s: string, keywords: seq<string>) {
    exists k :: k in keywords && Contains(s, k)
  }

  /** `s.lastIndexOf(c)`: the last position of `c` in `s`, or -1. */
  function LastIndexOf(s: string, c: char): (r: int)
    ensures -1 <= r < |s|
    ensures r >= 0 ==> s[r] == c
    ensures forall i :: r < i < |s| ==> s[i] != c
  {
    if s == [] then -1
    else if s[|s| - 1] == c then |s| - 1
    else LastIndexOf(s[..|s| - 1], c)
  }

  /** `s.replace(/c/g, "")`. */
  function RemoveAll(s: string, c: char): (r: string)
    ensures |r| <= |s|
    ensures c !in r
    ensures forall x :: x in r <==> x in s && x != c
  {
    if s == [] then [] else (if s[0] == c then [] else [s[0]]) + RemoveAll(s[1..], c)
  }

  /** Characters appended after the last `c` do not move it. */
  lemma {:induction false} LastIndexOfAppend(a: string, b: string, c: char)
    requires c !in b
    ensures LastIndexOf(a + b, c) == LastIndexOf(a, c)
  {
    if b == [] {
      assert a + b == a;
    } else {
      assert (a + b)[..|a + b| - 1] == a + b[..|b| - 1];
      LastIndexOfAppend(a, b[..|b| - 1], c);
    }
  }

  lemma RemoveAllCons(x: char, s: string, c: char)
    ensures RemoveAll([x] + s, c) == (if x == c then [] else [x]) + RemoveAll(s, c)
  {
    assert ([x] + s)[1..] == s;
  }

  lemma {:induction false} RemoveAllAppend(a: string, b: string, c: char)
    ensures RemoveAll(a + b, c) == RemoveAll(a, c) + RemoveAll(b, c)
  {
    if a == [] {
      assert a + b == b;
    } else {
      var x, rest := a[0], a[1..];
      var head := if x == c then [] else [x];
      calc {
        RemoveAll(a + b, c);
        { assert a + b == [x] + (rest + b); }
        RemoveAll([x] + (rest + b), c);
        { RemoveAllCons(x, rest + b, c); }
        head + RemoveAll(rest + b, c);
        { RemoveAllAppend(rest, b, c); }
        head + (RemoveAll(rest, c) + RemoveAll(b, c));
        (head + RemoveAll(rest, c)) + RemoveAll(b, c);
        { RemoveAllCons(x, rest, c); assert a == [x] + rest; }
        RemoveAll(a, c) + RemoveAll(b, c);
      }
    }
  }

  lemma {:induction false} RemoveAllAbsent(s: string, c: char)
    requires c !in s
    ensures RemoveAll(s, c) == s
  {
    if s != [] {
      RemoveAllAbsent(s[1..], c);
    }
  }

  /** Removing `c` around a separator `x` that is not `c`, from a tail without `c`. */
  lemma RemoveAllAround(a: string, x: char, b: string, c: char)
    requires x != c && c !in b
    ensures RemoveAll(a + [x] + b, c) == RemoveAll(a, c) + [x] + b
  {
    RemoveAllAppend(a + [x], b, c);
    RemoveAllAppend(a, [x], c);
    assert RemoveAll([x], c) == [x] by {
      assert [x][1..] == [];
    }
    RemoveAllAbsent(b, c);
  }

  /** `parseFloat` of a string starting with a digit is its unsigned decimal prefix. */
  lemma ParseFloatUnsigned(s: string)
    requires |s| > 0 && IsDigit(s[0])
    ensures ParseFloat(s) == UnsignedDecimal(s)
  {
    TrimStartDigit(s);
  }

  /** `s.replace(c, d)` with a one-character string pattern: only the first `c` becomes `d`. */
  function ReplaceFirst(s: string, c: char, d: char): (r: string)
    ensures |r| == |s|
  {
    if s == [] then []
    else if s[0] == c then [d] + s[1..]
    else [s[0]] + ReplaceFirst(s[1..], c, d)
  }

  /** Only the first `c` is replaced: the text before it is kept, and so is the text after. */
  lemma {:induction false} ReplaceFirstAt(a: string, b: string, c: char, d: char)
    requires c !in a
    ensures ReplaceFirst(a + [c] + b, c, d) == a + [d] + b
  {
    if a != [] {
      assert (a + [c] + b)[1..] == a[1..] + [c] + b;
      ReplaceFirstAt(a[1..], b, c, d);
    }
  }

  function DigitChar(d: nat): char
    requires d < 10
  {
    ('0' as int + d) as char
  }

  /** The value of a string of decimal digits, most significant digit first. */
  function DigitsValue(s: string): nat
    requires AllDigits(s)
  {
    if s == [] then 0 else DigitsValue(s[..|s| - 1]) * 10 + (s[|s| - 1] as int - '0' as int)
  }

  /** `String(n)` for a natural number `n`: its decimal digits without leading zeros. */
  function NatToString(n: nat): (r: string)
    ensures |r| >= 1 && AllDigits(r)
    ensures DigitsValue(r) == n
    ensures r[0] != '0' || n == 0
  {
    if n < 10 then [DigitChar(n)]
    else
      var p := NatToString(n / 10);
      assert (p + [DigitChar(n % 10)])[..|p|] == p;
      p + [DigitChar(n % 10)]
  }

  /** The length of the run of decimal digits at the start of `s`. */
  function LeadingDigits(s: string): (r: nat)
    ensures r <= |s| && AllDigits(s[..r])
    ensures r < |s| ==> !IsDigit(s[r])
  {
    if s != [] && IsDigit(s[0]) then
      var r := 1 + LeadingDigits(s[1..]);
      assert s[..r] == [s[0]] + s[1..][..r - 1];
      r
    else 0
  }

  /** `x` times ten to the power `e`, exactly. */
  function Scale(x: real, e: int): real
    decreases if e < 0 then -e else e
  {
    if e == 0 then x else if e > 0 then 10.0 * Scale(x, e - 1) else Scale(x, e + 1) / 10.0
  }

  /** The exponent part (`e`, `E`, optional sign, digits) at the start of `s`, or 0
      when `s` does not start with a complete one. */
  function ExponentOf(s: string): int {
    if |s| >= 2 && (s[0] == 'e' || s[0] == 'E') then
      var t := s[1..];
      var v := if t[0] == '+' || t[0] == '-' then t[1..] else t;
      var k := LeadingDigits(v);
      if k == 0 then 0
      else if t[0] == '-' then -(DigitsValue(v[..k]) as int)
      else DigitsValue(v[..k])
    else 0
  }

  /** The value of the digits after a decimal point. */
  function Fraction(ds: string): real
    requires AllDigits(ds)
  {
    if ds == [] then 0.0 else ((ds[0] as int - '0' as int) as real + Fraction(ds[1..])) / 10.0
  }

  /** The result of `parseFloat`: NaN, or an exact real. */
  datatype Parsed = NaN | Real(value: real)

  /** The pieces of an unsigned decimal literal: integer digits, fraction digits, exponent. */
  datatype DecimalLiteral = DecimalLiteral(intDigits: string, fracDigits: string, exponent: int)

  /** The longest prefix of `u` that is an unsigned decimal literal
      (digits, optional `.` and digits, optional exponent), split into its pieces;
      None when `u` starts neither with a digit nor with `.` and a digit. */
  function ScanDecimal(u: string): (r: Option<DecimalLiteral>)
    ensures r.Some? ==> AllDigits(r.value.intDigits) && AllDigits(r.value.fracDigits)
  {
    var n := LeadingDigits(u);
    var rest := u[n..];
    if |rest| > 0 && rest[0] == '.' then
      var f := LeadingDigits(rest[1..]);
      if n == 0 && f == 0 then None
      else Some(DecimalLiteral(u[..n], rest[1..][..f], ExponentOf(rest[1..][f..])))
    else if n == 0 then None
    else Some(DecimalLiteral(u[..n], "", ExponentOf(rest)))
  }

  /** The exact value of a decimal literal. */
  function LiteralValue(d: DecimalLiteral): real
    requires AllDigits(d.intDigits) && AllDigits(d.fracDigits)
  {
    Scale(DigitsValue(d.intDigits) as real + Fraction(d.fracDigits), d.exponent)
  }

  /** The value of the longest unsigned decimal prefix of `u`, or NaN. */
  function UnsignedDecimal(u: string): Parsed {
    match ScanDecimal(u)
    case Some(d) => Real(LiteralValue(d))
    case None => NaN
  }

  /** `parseFloat(s)` over exact reals: leading `\s` skipped, an optional sign, then the
      longest decimal prefix. */
  function ParseFloat(s: string): Parsed {
    var t := TrimStart(s);
    if |t| > 0 && t[0] == '-' then
      match UnsignedDecimal(t[1..])
      case Real(x) => Real(-x)
      case NaN => NaN
    else if |t| > 0 && t[0] == '+' then UnsignedDecimal(t[1..])
    else UnsignedDecimal(t)
  }

  /** A string that starts with a digit has no leading `\s` to skip. */
  lemma TrimStartDigit(s: string)
    requires |s| > 0 && IsDigit(s[0])
    ensures TrimStart(s) == s
  {
    DigitNotSpace(s[0]);
  }

  lemma DigitNotSpace(c: char)
    requires IsDigit(c)
    ensures !IsSpace(c)
  {
  }

  /** `parseFloat` reads back the decimal rendering of every natural number. */
  lemma ParseFloatNat(n: nat)
    ensures ParseFloat(NatToString(n)).Real? && ParseFloat(NatToString(n)).value == n as real
  {
    var s := NatToString(n);
    assert IsDigit(s[0]);
    ParseFloatUnsigned(s);
    UnsignedDigits(s);
  }

  /** A plain run of digits reads as its value. */
  lemma UnsignedDigits(s: string)
    requires |s| > 0 && AllDigits(s)
    ensures UnsignedDecimal(s).Real? && UnsignedDecimal(s).value == DigitsValue(s) as real
  {
    LeadingDigitsAll(s);
    assert s[..|s|] == s;
    assert s[|s|..] == [];
    assert ExponentOf([]) == 0;
    assert ScanDecimal(s) == Some(DecimalLiteral(s, "", 0));
    assert Fraction("") == 0.0;
  }

  /** `parseFloat` reads `i.f` as the integer `i` plus the fraction `f` over ten to its length. */
  lemma ParseFloatDecimal(i: nat, f: string)
    requires AllDigits(f)
    ensures ParseFloat(NatToString(i) + "." + f).Real?
    ensures ParseFloat(NatToString(i) + "." + f).value == i as real + Fraction(f)
  {
    var p := NatToString(i);
    var s := p + "." + f;
    TrimStartDigit(s);
    UnsignedPointDigits(p, f);
  }

  /** Digits, a point and digits read as the integer part plus the fraction. */
  lemma UnsignedPointDigits(p: string, f: string)
    requires |p| > 0 && AllDigits(p) && AllDigits(f)
    ensures UnsignedDecimal(p + "." + f).Real?
    ensures UnsignedDecimal(p + "." + f).value == DigitsValue(p) as real + Fraction(f)
  {
    ScanPointDigits(p, f);
  }

  lemma ScanPointDigits(p: string, f: string)
    requires |p| > 0 && AllDigits(p) && AllDigits(f)
    ensures ScanDecimal(p + "." + f) == Some(DecimalLiteral(p, f, 0))
  {
    var q := ['.'] + f;
    var s := p + q;
    assert s == p + "." + f;
    LeadingDigitsStop(p, q);
    assert s[|p|..] == q;
    assert s[..|p|] == p;
    assert q[1..] == f;
    LeadingDigitsAll(f);
    assert f[..|f|] == f;
    assert f[|f|..] == [];
    assert ExponentOf([]) == 0;
  }

  lemma {:induction false} LeadingDigitsAll(s: string)
    requires AllDigits(s)
    ensures LeadingDigits(s) == |s|
  {
    if s != [] {
      LeadingDigitsAll(s[1..]);
    }
  }

  lemma {:induction false} LeadingDigitsStop(p: string, q: string)
    requires AllDigits(p)
    requires q == [] || !IsDigit(q[0])
    ensures LeadingDigits(p + q) == |p|
  {
    if p != [] {
      assert (p + q)[1..] == p[1..] + q;
      LeadingDigitsStop(p[1..], q);
    }
  }

  /** A string without any decimal digit never parses as a number. */
  lemma NoDigitNoNumber(s: string)
    requires forall i :: 0 <= i < |s| ==> !IsDigit(s[i])
    ensures ParseFloat(s) == NaN
  {
    var t := TrimStart(s);
    assert forall i :: 0 <= i < |t| ==> !IsDigit(t[i]) by {
      forall i | 0 <= i < |t| ensures !IsDigit(t[i]) {
        assert t[i] == s[|s| - |t| + i];
      }
    }
    if |t| > 0 {
      var u := t[1..];
      assert forall i :: 0 <= i < |u| ==> !IsDigit(u[i]) by {
        forall i | 0 <= i < |u| ensures !IsDigit(u[i]) {
          assert u[i] == t[i + 1];
        }
      }
      UnsignedNoDigit(u);
    }
    UnsignedNoDigit(t);
  }

  lemma UnsignedNoDigit(u: string)
    requires forall i :: 0 <= i < |u| ==> !IsDigit(u[i])
    ensures UnsignedDecimal(u) == NaN
  {
    assert LeadingDigits(u) == 0;
    if |u| > 1 && u[0] == '.' {
      assert !IsDigit(u[1..][0]);
    }
  }
}
