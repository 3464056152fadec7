/** The order `Array.prototype.sort` uses without a comparator on strings: character by
    character, a proper prefix first. Characters are compared by code point, where
    JavaScript compares UTF-16 code units; the two agree except between a character
    above U+FFFF and one in U+E000..U+FFFF. */
module StringOrder {
  /** `a` sorts strictly before `b`. */
  predicate Less(a: string, b: string) {
    if a == [] then b != []
    else if b == [] then false
    else if a[0] != b[0] then a[0] < b[0]
    else Less(a[1..], b[1..])
  }

  lemma {:induction false} LessIrreflexive(a: string)
    ensures !Less(a, a)
  {
    if a != [] {
      LessIrreflexive(a[1..]);
    }
  }

  lemma {:induction false} LessAsymmetric(a: string, b: string)
    requires Less(a, b)
    ensures !Less(b, a)
  {
    if a != [] && b != [] && a[0] == b[0] {
      LessAsymmetric(a[1..], b[1..]);
    }
  }

  lemma {:induction false} LessTransitive(a: string, b: string, c: string)
    requires Less(a, b) && Less(b, c)
    ensures Less(a, c)
  {
    if a != [] && a[0] == b[0] && b[0] == c[0] {
      LessTransitive(a[1..], b[1..], c[1..]);
    }
  }

  /** Two different strings are ordered one way or the other. */
  lemma {:induction false} LessTotal(a: string, b: string)
    requires a != b
    ensures Less(a, b) || Less(b, a)
  {
    if a != [] && b != [] && a[0] == b[0] {
      assert a == [a[0]] + a[1..] && b == [b[0]] + b[1..];
      LessTotal(a[1..], b[1..]);
    }
  }

  predicate StrictlySorted(s: seq<string>) {
    forall i, j :: 0 <= i < j < |s| ==> Less(s[i], s[j])
  }

  /** `x` placed into a sorted sequence before the first element it precedes. */
  function Insert(s: seq<string>, x: string): (r: seq<string>)
    requires StrictlySorted(s) && x !in s
    ensures StrictlySorted(r)
    ensures forall y :: y in r <==> y in s || y == x
    ensures |r| == |s| + 1
  {
    if s == [] then [x]
    else if Less(x, s[0]) then
      forall j | 0 < j < |s| ensures Less(x, s[j]) {
        LessTransitive(x, s[0], s[j]);
      }
      [x] + s
    else
      LessTotal(x, s[0]);
      var rest := Insert(s[1..], x);
      assert forall y :: y in rest ==> y == x || y in s[1..];
      assert forall y :: y in s[1..] ==> Less(s[0], y);
      [s[0]] + rest
  }

  /** The sorted order of a sequence of distinct strings. */
  function Sort(s: seq<string>): (r: seq<string>)
    requires forall i, j :: 0 <= i < j < |s| ==> s[i] != s[j]
    ensures StrictlySorted(r)
    ensures forall y :: y in r <==> y in s
  {
    if s == [] then []
    else
      var init := s[..|s| - 1];
      assert forall y :: y in s <==> y in init || y == s[|s| - 1];
      var sorted := Sort(init);
      Insert(sorted, s[|s| - 1])
  }

  /** A strictly sorted sequence is determined by its elements. */
  lemma {:induction false} SortedUnique(r: seq<string>, t: seq<string>)
    requires StrictlySorted(r) && StrictlySorted(t)
    requires forall y :: y in r <==> y in t
    ensures r == t
  {
    if r != [] {
      assert r[0] in t;
    }
    if t != [] {
      assert t[0] in r;
    }
    if r != [] && t != [] {
      var m :| 0 <= m < |t| && t[m] == r[0];
      var k :| 0 <= k < |r| && r[k] == t[0];
      if m > 0 && k > 0 {
        assert Less(t[0], r[0]) && Less(r[0], t[0]);
        LessAsymmetric(t[0], r[0]);
      }
      assert r[0] == t[0];
      LessIrreflexive(r[0]);
      forall y ensures y in r[1..] <==> y in t[1..] {
        if y in r[1..] {
          var i :| 1 <= i < |r| && r[i] == y;
          assert Less(r[0], r[i]);
          assert y in t;
          var j :| 0 <= j < |t| && t[j] == y;
          assert j != 0;
          assert t[1..][j - 1] == y;
        }
        if y in t[1..] {
          var i :| 1 <= i < |t| && t[i] == y;
          assert Less(t[0], t[i]);
          assert y in r;
          var j :| 0 <= j < |r| && r[j] == y;
          assert j != 0;
          assert r[1..][j - 1] == y;
        }
      }
      SortedUnique(r[1..], t[1..]);
      assert r == [r[0]] + r[1..] && t == [t[0]] + t[1..];
    }
  }
}
