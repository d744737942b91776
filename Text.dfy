/**
 * The .NET string operations the editor code relies on: `char.IsWhiteSpace`,
 * `Trim`, ordinal `IndexOf` and `StartsWith`, `Replace` and `Insert`. A
 * Dafny `char` is a Unicode scalar value where a .NET `char` is a UTF-16
 * code unit, so lengths and indices agree only on text without characters
 * beyond U+FFFF.
 */
module Text {

  /** `char.IsWhiteSpace`: the Unicode categories Zs, Zl and Zp, plus the
      control characters U+0009..U+000D and U+0085. */
  predicate IsWhiteSpace(c: char) {
    || c == ' '
    || '\t' <= c <= '\r'
    || c == '\U{85}'
    || c == '\U{A0}'
    || c == '\U{1680}'
    || '\U{2000}' <= c <= '\U{200A}'
    || c == '\U{2028}'
    || c == '\U{2029}'
    || c == '\U{202F}'
    || c == '\U{205F}'
    || c == '\U{3000}'
  }

  /** Every character of `s` from index `lo` up to `hi` is white space. */
  predicate WhiteSpaceBetween(s: string, lo: int, hi: int)
    requires 0 <= lo && hi <= |s|
  {
    forall k :: lo <= k < hi ==> IsWhiteSpace(s[k])
  }

  /** Neither the first nor the last character is white space. */
  predicate IsTrimmed(s: string) {
    s == [] || (!IsWhiteSpace(s[0]) && !IsWhiteSpace(s[|s| - 1]))
  }

  /** Length of the white-space run at the start of `s`. */
  function LeadingWhiteSpace(s: string): (n: nat)
    ensures n <= |s| && WhiteSpaceBetween(s, 0, n)
    ensures n < |s| ==> !IsWhiteSpace(s[n])
  {
    if s == [] || !IsWhiteSpace(s[0]) then 0
    else 1 + LeadingWhiteSpace(s[1..])
  }

  /** Length of the white-space run at the end of `s`. */
  function TrailingWhiteSpace(s: string): (n: nat)
    ensures n <= |s| && WhiteSpaceBetween(s, |s| - n, |s|)
    ensures n < |s| ==> !IsWhiteSpace(s[|s| - 1 - n])
  {
    if s == [] || !IsWhiteSpace(s[|s| - 1]) then 0
    else 1 + TrailingWhiteSpace(s[..|s| - 1])
  }

  /** `String.Trim()`: removes the white space at both ends. */
  function Trim(s: string): (r: string)
    ensures IsTrimmed(r)
    ensures |r| <= |s|
  {
    var start := LeadingWhiteSpace(s);
    var rest := s[start..];
    rest[..|rest| - TrailingWhiteSpace(rest)]
  }

  /** Trim keeps exactly the part of `s` between a white-space prefix and a
      white-space suffix; with IsTrimmed(Trim(s)) this determines Trim. */
  lemma {:induction false} TrimIsInnerPart(s: string)
    ensures exists i, j :: 0 <= i <= j <= |s| && Trim(s) == s[i..j]
                           && WhiteSpaceBetween(s, 0, i) && WhiteSpaceBetween(s, j, |s|)
  {
    var i := LeadingWhiteSpace(s);
    var rest := s[i..];
    var j := i + |rest| - TrailingWhiteSpace(rest);
    assert Trim(s) == s[i..j];
    assert WhiteSpaceBetween(s, j, |s|);
  }

  /** Conversely, any split of `s` into a white-space prefix, a part with no
      white space at its ends and a white-space suffix is the one Trim makes. */
  lemma {:induction false} TrimUnique(s: string, i: nat, j: nat)
    requires i <= j <= |s|
    requires WhiteSpaceBetween(s, 0, i) && WhiteSpaceBetween(s, j, |s|)
    requires IsTrimmed(s[i..j])
    ensures Trim(s) == s[i..j]
  {
    var lead := LeadingWhiteSpace(s);
    if i < j {
      assert s[i..j][0] == s[i] && s[i..j][j - i - 1] == s[j - 1];
      assert lead == i;
      var rest := s[i..];
      var trail := TrailingWhiteSpace(rest);
      assert rest[j - i - 1] == s[j - 1];
      assert trail == |rest| - (j - i);
      assert rest[..j - i] == s[i..j];
    } else {
      assert lead == |s|;
    }
  }

  /** A string with no white space at its ends is its own trim. */
  lemma {:induction false} TrimOfTrimmed(s: string)
    requires IsTrimmed(s)
    ensures Trim(s) == s
  {
    if s != [] {
      assert LeadingWhiteSpace(s) == 0;
      assert s[0..] == s;
      assert TrailingWhiteSpace(s) == 0;
    }
  }

  /** White space in front of a string does not survive Trim. */
  lemma {:induction false} TrimDropsLeadingWhiteSpace(c: char, s: string)
    requires IsWhiteSpace(c)
    ensures Trim([c] + s) == Trim(s)
  {
    assert ([c] + s)[1..] == s;
    var n := LeadingWhiteSpace(s);
    assert LeadingWhiteSpace([c] + s) == n + 1;
    assert ([c] + s)[n + 1..] == s[n..];
  }

  /** Trimming twice is trimming once. */
  lemma {:induction false} TrimIdempotent(s: string)
    ensures Trim(Trim(s)) == Trim(s)
  {
    TrimOfTrimmed(Trim(s));
  }

  /** `pat` occurs in `s` at index `i`. */
  predicate MatchAt(s: string, pat: string, i: int) {
    0 <= i && i + |pat| <= |s| && s[i..i + |pat|] == pat
  }

  /** One differing character rules an occurrence out. */
  lemma {:induction false} MismatchAt(s: string, pat: string, j: nat, m: nat)
    requires m < |pat| && j + |pat| <= |s| && s[j + m] != pat[m]
    ensures !MatchAt(s, pat, j)
  {
    assert s[j..j + |pat|][m] == s[j + m];
  }

  /** `pat` cannot occur where its first character is absent. */
  lemma {:induction false} NoMatchWithoutFirstChar(s: string, pat: string)
    requires |pat| > 0 && pat[0] !in s
    ensures forall j :: !MatchAt(s, pat, j)
  {
    forall j | 0 <= j && j + |pat| <= |s| ensures !MatchAt(s, pat, j) {
      assert s[j..j + |pat|][0] == s[j];
    }
  }

  lemma {:induction false} MatchShiftAt(s: string, pat: string, j: nat)
    requires s != []
    ensures MatchAt(s[1..], pat, j) <==> MatchAt(s, pat, j + 1)
  {
    if 0 <= j && j + |pat| <= |s| - 1 {
      assert s[1..][j..j + |pat|] == s[j + 1..j + 1 + |pat|];
    }
  }

  /** An occurrence in the tail of `s` is an occurrence in `s`, one further on. */
  lemma {:induction false} MatchShift(s: string, pat: string)
    requires s != []
    ensures forall j :: 0 <= j ==> (MatchAt(s[1..], pat, j) <==> MatchAt(s, pat, j + 1))
    ensures forall j :: 1 <= j ==> (MatchAt(s, pat, j) <==> MatchAt(s[1..], pat, j - 1))
  {
    forall j | 0 <= j ensures MatchAt(s[1..], pat, j) <==> MatchAt(s, pat, j + 1) {
      MatchShiftAt(s, pat, j);
    }
    forall j | 1 <= j ensures MatchAt(s, pat, j) <==> MatchAt(s[1..], pat, j - 1) {
      MatchShiftAt(s, pat, j - 1);
    }
  }

  /** `String.IndexOf(pat, StringComparison.Ordinal)`: the first index at
      which `pat` occurs, or -1 (IndexOfFinds). */
  function IndexOf(s: string, pat: string): (r: int)
    ensures -1 <= r && (r >= 0 ==> r + |pat| <= |s|)
    decreases |s|
  {
    if |s| < |pat| then -1
    else if s[..|pat|] == pat then 0
    else
      var k := IndexOf(s[1..], pat);
      if k < 0 then -1 else k + 1
  }

  /** IndexOf finds the first occurrence, and answers -1 exactly when there
      is none. */
  lemma {:induction false} IndexOfFinds(s: string, pat: string)
    ensures var r := IndexOf(s, pat);
      && (r >= 0 ==> MatchAt(s, pat, r) && forall j :: 0 <= j < r ==> !MatchAt(s, pat, j))
      && (r < 0 ==> forall j :: !MatchAt(s, pat, j))
    decreases |s|
  {
    if |s| >= |pat| && s[..|pat|] != pat {
      IndexOfFinds(s[1..], pat);
      MatchShift(s, pat);
    }
  }

  /** Ordinal `String.StartsWith(pat)`. */
  predicate StartsWith(s: string, pat: string) {
    |pat| <= |s| && s[..|pat|] == pat
  }

  /** `String.Replace(pat, rep)`: every occurrence of `pat`, found left to
      right without overlap, is replaced; the search resumes after the
      occurrence, so the inserted text is never searched. .NET refuses an
      empty `pat`. */
  function ReplaceAll(s: string, pat: string, rep: string): string
    requires |pat| > 0
    decreases |s|
  {
    var i := IndexOf(s, pat);
    if i < 0 then s else s[..i] + rep + ReplaceAll(s[i + |pat|..], pat, rep)
  }

  /** Where `pat` does not occur, Replace changes nothing. */
  lemma {:induction false} ReplaceAllAbsent(s: string, pat: string, rep: string)
    requires |pat| > 0
    requires forall j :: !MatchAt(s, pat, j)
    ensures ReplaceAll(s, pat, rep) == s
  {
    IndexOfFinds(s, pat);
  }

  /** The first occurrence of `pat` is replaced, the text before it is kept,
      and the search resumes after the occurrence. With ReplaceAllAbsent this
      determines Replace completely. */
  lemma {:induction false} ReplaceAllAtFirst(s: string, pat: string, rep: string, i: nat)
    requires |pat| > 0
    requires MatchAt(s, pat, i)
    requires forall j :: 0 <= j < i ==> !MatchAt(s, pat, j)
    ensures ReplaceAll(s, pat, rep) == s[..i] + rep + ReplaceAll(s[i + |pat|..], pat, rep)
  {
    IndexOfFinds(s, pat);
    var k := IndexOf(s, pat);
    assert k >= 0 by { assert MatchAt(s, pat, i); }
    assert k == i;
  }

  /** An occurrence lying inside `a` is an occurrence in `a + b`. */
  lemma {:induction false} MatchInPrefix(a: string, b: string, pat: string, j: int)
    requires j + |pat| <= |a|
    ensures MatchAt(a + b, pat, j) <==> MatchAt(a, pat, j)
  {
    if 0 <= j {
      assert (a + b)[j..j + |pat|] == a[j..j + |pat|];
    }
  }

  /** An occurrence in `b` is an occurrence in `a + b`, `|a|` further on. */
  lemma {:induction false} MatchInSuffix(a: string, b: string, pat: string, k: nat)
    ensures MatchAt(a + b, pat, |a| + k) <==> MatchAt(b, pat, k)
  {
    if |a| + k + |pat| <= |a + b| {
      assert (a + b)[|a| + k..|a| + k + |pat|] == b[k..k + |pat|];
    }
  }

  /** An occurrence in `s[d..]` is an occurrence in `s`, `d` further on. */
  lemma {:induction false} MatchInDrop(s: string, d: nat, pat: string, j: nat)
    requires d <= |s|
    ensures MatchAt(s[d..], pat, j) <==> MatchAt(s, pat, d + j)
  {
    if d + j + |pat| <= |s| {
      assert s[d..][j..j + |pat|] == s[d + j..d + j + |pat|];
    }
  }

  /** No occurrence of `pat` in `a + b` begins in `a` and ends in `b`. */
  predicate NoMatchAcross(a: string, b: string, pat: string) {
    forall j :: j < |a| < j + |pat| ==> !MatchAt(a + b, pat, j)
  }

  /** Replace works piecewise on a concatenation that no occurrence
      straddles. */
  lemma {:induction false} ReplaceAllConcat(a: string, b: string, pat: string, rep: string)
    requires |pat| > 0 && NoMatchAcross(a, b, pat)
    ensures ReplaceAll(a + b, pat, rep) == ReplaceAll(a, pat, rep) + ReplaceAll(b, pat, rep)
    decreases |a|
  {
    var i := IndexOf(a + b, pat);
    if i < 0 {
      ReplaceAllConcatNoMatch(a, b, pat, rep);
    } else if i + |pat| <= |a| {
      ReplaceAllConcatInPrefix(a, b, pat, rep, i);
      var rest := a[i + |pat|..];
      ReplaceAllConcat(rest, b, pat, rep);
      AppendAssoc(a[..i] + rep, ReplaceAll(rest, pat, rep), ReplaceAll(b, pat, rep));
    } else {
      ReplaceAllConcatInSuffix(a, b, pat, rep, i);
    }
  }

  lemma {:induction false} AppendAssoc(x: string, y: string, z: string)
    ensures x + (y + z) == (x + y) + z
  {
  }

  lemma {:induction false} ReplaceAllConcatNoMatch(a: string, b: string, pat: string, rep: string)
    requires |pat| > 0 && IndexOf(a + b, pat) < 0
    ensures ReplaceAll(a + b, pat, rep) == ReplaceAll(a, pat, rep) + ReplaceAll(b, pat, rep)
  {
    IndexOfFinds(a + b, pat);
    forall j ensures !MatchAt(a, pat, j) {
      if j + |pat| <= |a| {
        MatchInPrefix(a, b, pat, j);
      }
    }
    forall j ensures !MatchAt(b, pat, j) {
      if 0 <= j {
        MatchInSuffix(a, b, pat, j);
      }
    }
    ReplaceAllAbsent(a, pat, rep);
    ReplaceAllAbsent(b, pat, rep);
  }

  /** One step of Replace at the occurrence IndexOf finds. */
  lemma {:induction false} ReplaceAllUnfold(s: string, pat: string, rep: string, i: int)
    requires |pat| > 0 && i == IndexOf(s, pat) && i >= 0
    ensures ReplaceAll(s, pat, rep) == (s[..i] + rep) + ReplaceAll(s[i + |pat|..], pat, rep)
  {
  }

  /** The first occurrence lies in `a`: it is replaced in both, and what is
      left of `a` is again a concatenation no occurrence straddles. */
  lemma {:induction false} ReplaceAllConcatInPrefix(a: string, b: string, pat: string, rep: string, i: nat)
    requires |pat| > 0 && NoMatchAcross(a, b, pat)
    requires i == IndexOf(a + b, pat) && i + |pat| <= |a|
    ensures NoMatchAcross(a[i + |pat|..], b, pat)
    ensures ReplaceAll(a + b, pat, rep) == (a[..i] + rep) + ReplaceAll(a[i + |pat|..] + b, pat, rep)
    ensures ReplaceAll(a, pat, rep) == (a[..i] + rep) + ReplaceAll(a[i + |pat|..], pat, rep)
  {
    FirstMatchInPrefix(a, b, pat, i);
    ReplaceAllAtFirst(a, pat, rep, i);
    ReplaceAllPrefixStep(a, b, pat, rep, i);
    NoMatchAcrossRest(a, b, pat, i);
  }

  /** The first occurrence in `a + b` that ends inside `a` is the first one in `a`. */
  lemma {:induction false} FirstMatchInPrefix(a: string, b: string, pat: string, i: nat)
    requires |pat| > 0 && i == IndexOf(a + b, pat) && i + |pat| <= |a|
    ensures MatchAt(a, pat, i) && forall j :: 0 <= j < i ==> !MatchAt(a, pat, j)
  {
    IndexOfFinds(a + b, pat);
    MatchInPrefix(a, b, pat, i);
    forall j | 0 <= j < i ensures !MatchAt(a, pat, j) {
      MatchInPrefix(a, b, pat, j);
    }
  }

  /** Dropping a prefix of `a` keeps the boundary with `b` free of straddling occurrences. */
  lemma {:induction false} NoMatchAcrossRest(a: string, b: string, pat: string, i: nat)
    requires NoMatchAcross(a, b, pat) && i + |pat| <= |a|
    ensures NoMatchAcross(a[i + |pat|..], b, pat)
  {
    var s := a + b;
    var d := i + |pat|;
    var rest := a[d..];
    assert s[d..] == rest + b;
    forall j | j < |rest| < j + |pat| ensures !MatchAt(rest + b, pat, j) {
      if 0 <= j {
        MatchInDrop(s, d, pat, j);
      }
    }
  }

  lemma {:induction false} ReplaceAllPrefixStep(a: string, b: string, pat: string, rep: string, i: nat)
    requires |pat| > 0 && i == IndexOf(a + b, pat) && i + |pat| <= |a|
    ensures ReplaceAll(a + b, pat, rep) == (a[..i] + rep) + ReplaceAll(a[i + |pat|..] + b, pat, rep)
  {
    var s := a + b;
    ReplaceAllUnfold(s, pat, rep, i);
    assert s[..i] == a[..i];
    assert s[i + |pat|..] == a[i + |pat|..] + b;
  }

  /** The first occurrence lies in `b`: `a` holds none and is kept. */
  lemma {:induction false} ReplaceAllConcatInSuffix(a: string, b: string, pat: string, rep: string, i: nat)
    requires |pat| > 0 && NoMatchAcross(a, b, pat)
    requires i == IndexOf(a + b, pat) && |a| < i + |pat|
    ensures ReplaceAll(a + b, pat, rep) == ReplaceAll(a, pat, rep) + ReplaceAll(b, pat, rep)
  {
    FirstMatchInSuffix(a, b, pat, i);
    ReplaceAllAbsent(a, pat, rep);
    ReplaceAllSuffixStep(a, b, pat, rep, i);
  }

  /** The first occurrence in `a + b` that ends past `a` starts inside `b`,
      is the first one there, and `a` has none at all. */
  lemma {:induction false} FirstMatchInSuffix(a: string, b: string, pat: string, i: nat)
    requires |pat| > 0 && NoMatchAcross(a, b, pat)
    requires i == IndexOf(a + b, pat) && |a| < i + |pat|
    ensures |a| <= i && forall j :: !MatchAt(a, pat, j)
    ensures MatchAt(b, pat, i - |a|) && forall j :: 0 <= j < i - |a| ==> !MatchAt(b, pat, j)
  {
    var s := a + b;
    IndexOfFinds(s, pat);
    var k := i - |a|;
    assert k >= 0;
    forall j ensures !MatchAt(a, pat, j) {
      if j + |pat| <= |a| {
        MatchInPrefix(a, b, pat, j);
      }
    }
    MatchInSuffix(a, b, pat, k);
    forall j | 0 <= j < k ensures !MatchAt(b, pat, j) {
      MatchInSuffix(a, b, pat, j);
    }
  }

  lemma {:induction false} ReplaceAllSuffixStep(a: string, b: string, pat: string, rep: string, i: nat)
    requires |pat| > 0 && i == IndexOf(a + b, pat) && |a| <= i
    requires MatchAt(b, pat, i - |a|) && forall j :: 0 <= j < i - |a| ==> !MatchAt(b, pat, j)
    ensures ReplaceAll(a + b, pat, rep) == a + ReplaceAll(b, pat, rep)
  {
    var s := a + b;
    var k := i - |a|;
    ReplaceAllAtFirst(b, pat, rep, k);
    ReplaceAllUnfold(s, pat, rep, i);
    var tail := ReplaceAll(b[k + |pat|..], pat, rep);
    assert s[..i] == a + b[..k];
    assert s[i + |pat|..] == b[k + |pat|..];
    AppendAssoc(a, b[..k], rep);
    AppendAssoc(a, b[..k] + rep, tail);
  }

  /** `String.Insert(i, v)`: `v` placed before the character at index `i`.
      .NET throws when `i` is past the end. */
  function Insert(s: string, i: nat, v: string): (r: string)
    requires i <= |s|
    ensures |r| == |s| + |v|
    ensures r[..i] == s[..i] && r[i..i + |v|] == v && r[i + |v|..] == s[i..]
  {
    s[..i] + v + s[i..]
  }
}
