/**
 * The JavaScript string and array built-ins the extension relies on:
 * `Array.prototype.join`, `String.prototype.split` with a one-character
 * separator, `String.prototype.trim`, an ASCII case-insensitive substring
 * test (what `RegExp("Feature-Policy", "i").test` does) and the default
 * comparison of `Array.prototype.sort` on strings.
 */
module JsStrings {

  /** `parts.join(sep)`. */
  function Join(parts: seq<string>, sep: string): string
  {
    if |parts| == 0 then ""
    else if |parts| == 1 then parts[0]
    else parts[0] + sep + Join(parts[1..], sep)
  }

  /**
   * `s.split(sep)` for a one-character separator: the pieces between
   * separators, in order; the empty string gives one empty piece.
   */
  function Split(s: string, sep: char): (parts: seq<string>)
    ensures |parts| >= 1
    ensures forall i :: 0 <= i < |parts| ==> sep !in parts[i]
    decreases |s|
  {
    if s == [] then [""]
    else
      var rest := Split(s[1..], sep);
      if s[0] == sep then
        assert ([""] + rest)[1..] == rest;
        [""] + rest
      else
        var first := [s[0]] + rest[0];
        assert ([first] + rest[1..])[1..] == rest[1..];
        [first] + rest[1..]
  }

  /** Joining the pieces with the separator gives back the string. */
  lemma {:induction false} JoinSplit(s: string, sep: char)
    ensures Join(Split(s, sep), [sep]) == s
    decreases |s|
  {
    if s != [] {
      JoinSplit(s[1..], sep);
      var rest := Split(s[1..], sep);
      if s[0] != sep && |rest| > 1 {
        assert Join(rest, [sep]) == rest[0] + [sep] + Join(rest[1..], [sep]);
      }
    }
  }

  /** A piece free of the separator splits to itself. */
  lemma {:induction false} SplitWithoutSeparator(a: string, sep: char)
    requires sep !in a
    ensures Split(a, sep) == [a]
    decreases |a|
  {
    if a != [] {
      assert sep !in a[1..];
      SplitWithoutSeparator(a[1..], sep);
      assert [a[0]] + a[1..] == a;
    }
  }

  /** A separator at the end adds one empty piece after the others. */
  lemma {:induction false} SplitTrailingSeparator(s: string, sep: char)
    ensures Split(s + [sep], sep) == Split(s, sep) + [""]
    decreases |s|
  {
    var t := s + [sep];
    if s == [] {
      assert t[1..] == [];
    } else {
      assert t[1..] == s[1..] + [sep];
      SplitTrailingSeparator(s[1..], sep);
      var rest := Split(s[1..], sep);
      if s[0] != sep {
        assert (rest + [""])[0] == rest[0];
        assert (rest + [""])[1..] == rest[1..] + [""];
      }
    }
  }

  /** Splitting `a + sep + b` yields `a` followed by the pieces of `b`. */
  lemma {:induction false} SplitAtSeparator(a: string, sep: char, b: string)
    requires sep !in a
    ensures Split(a + [sep] + b, sep) == [a] + Split(b, sep)
    decreases |a|
  {
    var s := a + [sep] + b;
    if a == [] {
      assert s[1..] == b;
    } else {
      assert s[1..] == a[1..] + [sep] + b;
      assert sep !in a[1..];
      SplitAtSeparator(a[1..], sep, b);
      assert [a[0]] + a[1..] == a;
    }
  }

  /** Split undoes Join when no piece holds the separator. */
  lemma {:induction false} SplitJoin(parts: seq<string>, sep: char)
    requires |parts| >= 1
    requires forall i :: 0 <= i < |parts| ==> sep !in parts[i]
    ensures Split(Join(parts, [sep]), sep) == parts
    decreases |parts|
  {
    if |parts| == 1 {
      SplitWithoutSeparator(parts[0], sep);
    } else {
      SplitJoin(parts[1..], sep);
      SplitAtSeparator(parts[0], sep, Join(parts[1..], [sep]));
      assert [parts[0]] + parts[1..] == parts;
    }
  }

  /**
   * The characters `String.prototype.trim` removes: ECMAScript WhiteSpace
   * (tab, vertical tab, form feed, U+FEFF and the Unicode space separators)
   * and LineTerminator (LF, CR, U+2028, U+2029).
   */
  predicate IsJsWhitespace(c: char)
  {
    var n := c as int;
    n == 0x09 || n == 0x0A || n == 0x0B || n == 0x0C || n == 0x0D || n == 0x20
    || n == 0xA0 || n == 0x1680 || (0x2000 <= n <= 0x200A) || n == 0x2028
    || n == 0x2029 || n == 0x202F || n == 0x205F || n == 0x3000 || n == 0xFEFF
  }

  /** Drops the leading whitespace. */
  function TrimStart(s: string): (r: string)
    ensures |r| <= |s| && r == s[|s| - |r|..]
    ensures r == [] || !IsJsWhitespace(r[0])
    ensures forall i :: 0 <= i < |s| - |r| ==> IsJsWhitespace(s[i])
  {
    if s != [] && IsJsWhitespace(s[0]) then TrimStart(s[1..]) else s
  }

  /** Drops the trailing whitespace. */
  function TrimEnd(s: string): (r: string)
    ensures |r| <= |s| && r == s[..|r|]
    ensures r == [] || !IsJsWhitespace(r[|r| - 1])
    ensures forall i :: |r| <= i < |s| ==> IsJsWhitespace(s[i])
  {
    if s != [] && IsJsWhitespace(s[|s| - 1]) then TrimEnd(s[..|s| - 1]) else s
  }

  /**
   * `s.trim()`: the middle of `s`, after the leading whitespace, of which
   * only whitespace is dropped on either side.
   */
  function Trim(s: string): (r: string)
    ensures r == [] || (!IsJsWhitespace(r[0]) && !IsJsWhitespace(r[|r| - 1]))
    ensures var a := |s| - |TrimStart(s)|;
      a + |r| <= |s| && r == s[a..a + |r|]
      && (forall j :: 0 <= j < a ==> IsJsWhitespace(s[j]))
      && (forall j :: a + |r| <= j < |s| ==> IsJsWhitespace(s[j]))
  {
    TrimEnd(TrimStart(s))
  }

  /** A string without whitespace at either end is its own trim. */
  lemma TrimUnchanged(s: string)
    requires s == [] || (!IsJsWhitespace(s[0]) && !IsJsWhitespace(s[|s| - 1]))
    ensures Trim(s) == s
  {
  }

  /** ASCII lower-casing of one character; every other character is kept. */
  function ToLowerAscii(c: char): char
  {
    if 'A' <= c <= 'Z' then (c as int + 32) as char else c
  }

  /** Lower-cases the ASCII letters of `s`. */
  function LowerAscii(s: string): string
  {
    seq(|s|, i requires 0 <= i < |s| => ToLowerAscii(s[i]))
  }

  /** `p` occurs in `s` starting at index `i`. */
  predicate OccursAt(p: string, s: string, i: int)
  {
    0 <= i <= |s| - |p| && s[i..i + |p|] == p
  }

  /** Two characters that are equal up to ASCII case. */
  predicate SameIgnoringAsciiCase(a: char, b: char)
  {
    a == b
    || ('A' <= a <= 'Z' && b as int == a as int + 32)
    || ('A' <= b <= 'Z' && a as int == b as int + 32)
  }

  /** `p` matches `s` from index `i` on, each character equal up to ASCII case. */
  predicate MatchesIgnoringCaseAt(p: string, s: string, i: int)
  {
    0 <= i <= |s| - |p| && forall j :: 0 <= j < |p| ==> SameIgnoringAsciiCase(s[i + j], p[j])
  }

  lemma ToLowerAsciiSame(a: char, b: char)
    ensures ToLowerAscii(a) == ToLowerAscii(b) <==> SameIgnoringAsciiCase(a, b)
  {
  }

  /** Whether `p` occurs in `s` at some position, scanning left to right. */
  predicate HasInfix(p: string, s: string)
    decreases |s|
  {
    |p| <= |s| && (s[..|p|] == p || HasInfix(p, s[1..]))
  }

  /** HasInfix holds exactly when `p` sits at some index of `s`. */
  lemma {:induction false} HasInfixAt(p: string, s: string)
    ensures HasInfix(p, s) <==> exists i :: OccursAt(p, s, i)
    decreases |s|
  {
    if |p| <= |s| && s[..|p|] != p {
      HasInfixAt(p, s[1..]);
      if HasInfix(p, s[1..]) {
        var i :| OccursAt(p, s[1..], i);
        assert s[i + 1..i + 1 + |p|] == s[1..][i..i + |p|];
        assert OccursAt(p, s, i + 1);
      }
      if exists i :: OccursAt(p, s, i) {
        var i :| OccursAt(p, s, i);
        assert i != 0;
        assert s[1..][i - 1..i - 1 + |p|] == s[i..i + |p|];
        assert OccursAt(p, s[1..], i - 1);
      }
    } else if |p| <= |s| {
      assert OccursAt(p, s, 0);
    }
  }

  /**
   * `RegExp(pattern, "i").test(s)` for a pattern of ASCII letters and '-':
   * without the unicode flag a non-ASCII character never matches an ASCII
   * one case-insensitively, so lower-casing ASCII letters is exact.
   */
  predicate ContainsIgnoringCase(s: string, pattern: string)
  {
    HasInfix(LowerAscii(pattern), LowerAscii(s))
  }

  /** The case-insensitive test succeeds exactly when `p` matches `s` at some index up to ASCII case. */
  lemma ContainsIgnoringCaseAt(s: string, p: string)
    ensures ContainsIgnoringCase(s, p) <==> exists i :: MatchesIgnoringCaseAt(p, s, i)
  {
    var ls, lp := LowerAscii(s), LowerAscii(p);
    HasInfixAt(lp, ls);
    forall i
      ensures OccursAt(lp, ls, i) <==> MatchesIgnoringCaseAt(p, s, i)
    {
      if 0 <= i <= |s| - |p| {
        forall j | 0 <= j < |p|
          ensures ls[i..i + |p|][j] == lp[j] <==> SameIgnoringAsciiCase(s[i + j], p[j])
        {
          ToLowerAsciiSame(s[i + j], p[j]);
        }
        if MatchesIgnoringCaseAt(p, s, i) {
          assert ls[i..i + |p|] == lp;
        }
      }
    }
  }

  /** `a < b` on JavaScript strings: lexicographic by character. */
  predicate LexLess(a: string, b: string)
    decreases |a|
  {
    |b| > 0 && (|a| == 0 || a[0] < b[0] || (a[0] == b[0] && LexLess(a[1..], b[1..])))
  }

  lemma {:induction false} LexLessIrreflexive(a: string)
    ensures !LexLess(a, a)
    decreases |a|
  {
    if |a| > 0 {
      LexLessIrreflexive(a[1..]);
    }
  }

  lemma {:induction false} LexLessTransitive(a: string, b: string, c: string)
    requires LexLess(a, b) && LexLess(b, c)
    ensures LexLess(a, c)
    decreases |a|
  {
    if |a| > 0 && a[0] == b[0] && b[0] == c[0] {
      LexLessTransitive(a[1..], b[1..], c[1..]);
    }
  }

  lemma {:induction false} LexLessTotal(a: string, b: string)
    requires a != b
    ensures LexLess(a, b) || LexLess(b, a)
    decreases |a|
  {
    if |a| > 0 && |b| > 0 && a[0] == b[0] {
      assert a == [a[0]] + a[1..] && b == [b[0]] + b[1..];
      LexLessTotal(a[1..], b[1..]);
    }
  }

  lemma LexLessAsymmetric(a: string, b: string)
    requires LexLess(a, b)
    ensures !LexLess(b, a)
  {
    if LexLess(b, a) {
      LexLessTransitive(a, b, a);
      LexLessIrreflexive(a);
    }
  }

  /** Ascending in the order of `Array.prototype.sort` (ties allowed). */
  predicate IsSorted(s: seq<string>)
  {
    forall i, j :: 0 <= i < j < |s| ==> !LexLess(s[j], s[i])
  }

  /** No string occurs twice. */
  predicate IsDistinct(s: seq<string>)
  {
    forall i, j :: 0 <= i < j < |s| ==> s[i] != s[j]
  }

  function InsertSorted(x: string, s: seq<string>): (r: seq<string>)
    ensures multiset(r) == multiset(s) + multiset{x}
    ensures IsSorted(s) ==> IsSorted(r)
  {
    if s == [] then [x]
    else if LexLess(s[0], x) then
      var rest := InsertSorted(x, s[1..]);
      assert s == [s[0]] + s[1..];
      InsertAfterHead(x, s, rest);
      [s[0]] + rest
    else
      InsertAtHead(x, s);
      [x] + s
  }

  lemma InsertAtHead(x: string, s: seq<string>)
    requires s != [] && !LexLess(s[0], x)
    ensures IsSorted(s) ==> IsSorted([x] + s)
  {
    if IsSorted(s) {
      forall j | 0 < j < |[x] + s|
        ensures !LexLess(([x] + s)[j], x)
      {
        var y := s[j - 1];
        if LexLess(y, x) {
          if y != s[0] {
            LexLessTotal(y, s[0]);
            LexLessTransitive(s[0], y, x);
          }
        }
      }
    }
  }

  lemma InsertAfterHead(x: string, s: seq<string>, rest: seq<string>)
    requires s != [] && LexLess(s[0], x)
    requires multiset(rest) == multiset(s[1..]) + multiset{x}
    requires IsSorted(s[1..]) ==> IsSorted(rest)
    ensures IsSorted(s) ==> IsSorted([s[0]] + rest)
  {
    if IsSorted(s) {
      assert IsSorted(s[1..]);
      forall j | 0 <= j < |rest|
        ensures !LexLess(rest[j], s[0])
      {
        assert rest[j] in multiset(rest);
        if rest[j] == x {
          LexLessAsymmetric(s[0], x);
        } else {
          assert rest[j] in multiset(s[1..]);
          var k :| 0 <= k < |s[1..]| && s[1..][k] == rest[j];
          assert s[k + 1] == rest[j];
        }
      }
    }
  }

  /** `keys.sort()`: insertion sort in the default string order. */
  function SortStrings(s: seq<string>): (r: seq<string>)
    ensures multiset(r) == multiset(s)
    ensures IsSorted(r)
  {
    if s == [] then []
    else
      assert s == [s[0]] + s[1..];
      InsertSorted(s[0], SortStrings(s[1..]))
  }

  /** A sequence is free of repeats exactly when no multiplicity exceeds one. */
  lemma {:induction false} DistinctMultiplicity(s: seq<string>)
    ensures IsDistinct(s) <==> forall x :: multiset(s)[x] <= 1
    decreases |s|
  {
    if s != [] {
      var t := s[1..];
      assert s == [s[0]] + t;
      DistinctMultiplicity(t);
      if IsDistinct(s) {
        forall k | 0 <= k < |t|
          ensures t[k] != s[0]
        {
          assert t[k] == s[k + 1];
        }
        assert s[0] !in t;
        assert IsDistinct(t);
      } else {
        var i, j :| 0 <= i < j < |s| && s[i] == s[j];
        if i == 0 {
          assert s[0] in t by { assert t[j - 1] == s[0]; }
          assert multiset(s)[s[0]] >= 2;
        } else {
          assert t[i - 1] == t[j - 1];
          assert !IsDistinct(t);
          var x :| multiset(t)[x] > 1;
          assert multiset(s)[x] >= multiset(t)[x];
        }
      }
    }
  }

  /** Sorting a repeat-free sequence yields a strictly ascending one. */
  lemma SortDistinctIsStrict(s: seq<string>)
    requires IsDistinct(s)
    ensures IsDistinct(SortStrings(s))
    ensures forall i, j :: 0 <= i < j < |SortStrings(s)| ==> LexLess(SortStrings(s)[i], SortStrings(s)[j])
  {
    var r := SortStrings(s);
    DistinctMultiplicity(s);
    DistinctMultiplicity(r);
    forall i, j | 0 <= i < j < |r|
      ensures LexLess(r[i], r[j])
    {
      LexLessTotal(r[i], r[j]);
    }
  }
}
