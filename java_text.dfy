/**
 * The string operations the specifications and the service rely on: Java's
 * toLowerCase, trim, equalsIgnoreCase and split, Spring's StringUtils.hasText,
 * the store's LIKE matching and its text ordering.
 * Case mapping covers the ASCII letters only.
 */
module JavaText {

  predicate IsUpper(c: char) { 'A' <= c <= 'Z' }

  function LowerChar(c: char): char
  {
    if IsUpper(c) then (c as int + 32) as char else c
  }

  /** String.toLowerCase (and the store's lower()), on ASCII letters. */
  function Lower(s: string): string
  {
    seq(|s|, i requires 0 <= i < |s| => LowerChar(s[i]))
  }

  predicate NoUpper(s: string)
  {
    forall i :: 0 <= i < |s| ==> !IsUpper(s[i])
  }

  lemma LowerConcat(a: string, b: string)
    ensures Lower(a + b) == Lower(a) + Lower(b)
  {
    assert forall i :: 0 <= i < |a + b| ==> Lower(a + b)[i] == (Lower(a) + Lower(b))[i];
  }

  lemma LowerOfLowerCase(s: string)
    requires NoUpper(s)
    ensures Lower(s) == s
  {
  }

  lemma LowerIdempotent(s: string)
    ensures NoUpper(Lower(s)) && Lower(Lower(s)) == Lower(s)
  {
  }

  // ---------------------------------------------------------------------
  // Blank tests: String.trim().isEmpty() and StringUtils.hasText
  // ---------------------------------------------------------------------

  function TrimStart(s: string): string
  {
    if s != [] && s[0] <= ' ' then TrimStart(s[1..]) else s
  }

  function TrimEnd(s: string): string
  {
    if s != [] && s[|s| - 1] <= ' ' then TrimEnd(s[..|s| - 1]) else s
  }

  /** String.trim: drops every leading and trailing character at or below U+0020. */
  function Trim(s: string): string
  {
    TrimEnd(TrimStart(s))
  }

  /** `s.trim().isEmpty()` holds exactly when every character is at or below U+0020. */
  lemma {:induction false} TrimEmptyIff(s: string)
    ensures Trim(s) == [] <==> forall i :: 0 <= i < |s| ==> s[i] <= ' '
  {
    TrimStartEmptyIff(s);
    var t := TrimStart(s);
    if t != [] {
      TrimStartHead(s);
      TrimEndKeepsHead(t);
    }
  }

  lemma {:induction false} TrimStartEmptyIff(s: string)
    ensures TrimStart(s) == [] <==> forall i :: 0 <= i < |s| ==> s[i] <= ' '
  {
    if s != [] && s[0] <= ' ' {
      TrimStartEmptyIff(s[1..]);
      assert forall i :: 1 <= i < |s| ==> s[i] == s[1..][i - 1];
    }
  }

  lemma {:induction false} TrimStartHead(s: string)
    ensures TrimStart(s) != [] ==> TrimStart(s)[0] > ' '
  {
    if s != [] && s[0] <= ' ' {
      TrimStartHead(s[1..]);
    }
  }

  lemma {:induction false} TrimEndKeepsHead(t: string)
    requires t != [] && t[0] > ' '
    ensures TrimEnd(t) != []
    decreases |t|
  {
    if t[|t| - 1] <= ' ' {
      TrimEndKeepsHead(t[..|t| - 1]);
    }
  }

  /** Character.isWhitespace: the Unicode space, line and paragraph separators
      other than the no-break spaces, and the ASCII controls 9-13 and 28-31. */
  predicate IsJavaWhitespace(c: char)
  {
    || c == ' ' || c == '\t' || c == '\n' || c == '\U{B}' || c == '\U{C}' || c == '\r'
    || ('\U{1C}' <= c <= '\U{1F}')
    || c == '\U{1680}'
    || ('\U{2000}' <= c <= '\U{2006}') || ('\U{2008}' <= c <= '\U{200A}')
    || c == '\U{2028}' || c == '\U{2029}' || c == '\U{205F}' || c == '\U{3000}'
  }

  /** StringUtils.hasText on a non-null string: some character is not whitespace. */
  predicate HasText(s: string)
  {
    exists i :: 0 <= i < |s| && !IsJavaWhitespace(s[i])
  }

  /** The two blank tests disagree: an ideographic space is blank for hasText but
      survives trim, and a NUL character is removed by trim but is text for hasText. */
  lemma BlankTestsDiffer()
    ensures !HasText("\U{3000}") && Trim("\U{3000}") != []
    ensures HasText("\U{0}") && Trim("\U{0}") == []
  {
    TrimEmptyIff("\U{3000}");
    TrimEmptyIff("\U{0}");
    assert !IsJavaWhitespace("\U{0}"[0]);
  }

  // ---------------------------------------------------------------------
  // equalsIgnoreCase
  // ---------------------------------------------------------------------

  /** String.equalsIgnoreCase: same length, characters equal after case folding. */
  predicate EqualsIgnoreCase(a: string, b: string)
  {
    |a| == |b| && forall i :: 0 <= i < |a| ==> LowerChar(a[i]) == LowerChar(b[i])
  }

  lemma EqualsIgnoreCaseIff(a: string, b: string)
    ensures EqualsIgnoreCase(a, b) <==> Lower(a) == Lower(b)
  {
    if Lower(a) == Lower(b) {
      assert forall i :: 0 <= i < |a| ==> LowerChar(a[i]) == Lower(a)[i];
    }
  }

  // ---------------------------------------------------------------------
  // LIKE
  // ---------------------------------------------------------------------

  /** SQL LIKE with no escape character: '%' matches any run of characters,
      '_' exactly one, every other pattern character itself. */
  predicate LikeMatch(t: string, p: string)
    decreases |t| + |p|
  {
    if p == [] then t == []
    else if p[0] == '%' then LikeMatch(t, p[1..]) || (t != [] && LikeMatch(t[1..], p))
    else t != [] && (p[0] == '_' || t[0] == p[0]) && LikeMatch(t[1..], p[1..])
  }

  predicate IsWildcard(c: char) { c == '%' || c == '_' }

  predicate NoWildcards(s: string)
  {
    forall i :: 0 <= i < |s| ==> !IsWildcard(s[i])
  }

  predicate IsPrefix(s: string, t: string)
  {
    |s| <= |t| && t[..|s|] == s
  }

  predicate IsSubstring(s: string, t: string)
  {
    exists k :: 0 <= k <= |t| && IsPrefix(s, t[k..])
  }

  lemma LowerKeepsWildcards(s: string)
    ensures NoWildcards(Lower(s)) <==> NoWildcards(s)
  {
    assert forall i :: 0 <= i < |s| ==> (IsWildcard(Lower(s)[i]) <==> IsWildcard(s[i]));
  }

  /** A pattern without wildcards matches only itself. */
  lemma {:induction false} LikeExact(t: string, s: string)
    requires NoWildcards(s)
    ensures LikeMatch(t, s) <==> t == s
  {
    if s != [] && t != [] {
      LikeExact(t[1..], s[1..]);
      if t[0] == s[0] && t[1..] == s[1..] {
        assert t == [t[0]] + t[1..] && s == [s[0]] + s[1..];
      }
    }
  }

  lemma {:induction false} LikeAnything(t: string)
    ensures LikeMatch(t, "%")
  {
    if t != [] {
      LikeAnything(t[1..]);
    }
  }

  /** `s%` with a wildcard-free s is a prefix test. */
  lemma {:induction false} LikePrefix(t: string, s: string)
    requires NoWildcards(s)
    ensures LikeMatch(t, s + "%") <==> IsPrefix(s, t)
  {
    if s == [] {
      assert s + "%" == "%";
      LikeAnything(t);
    } else {
      var p := s + "%";
      assert p[0] == s[0] && p[1..] == s[1..] + "%";
      if t != [] {
        LikePrefix(t[1..], s[1..]);
        if t[0] == s[0] && IsPrefix(s[1..], t[1..]) {
          assert t[..|s|] == [t[0]] + t[1..][..|s| - 1];
          assert s == [s[0]] + s[1..];
        }
        if IsPrefix(s, t) {
          assert t[1..][..|s| - 1] == t[..|s|][1..];
        }
      }
    }
  }

  lemma SubstringStep(s: string, t: string)
    ensures IsSubstring(s, t) <==> IsPrefix(s, t) || (t != [] && IsSubstring(s, t[1..]))
  {
    if IsSubstring(s, t) {
      var k :| 0 <= k <= |t| && IsPrefix(s, t[k..]);
      if k > 0 {
        assert t[1..][k - 1..] == t[k..];
      } else {
        assert t[k..] == t;
      }
    }
    if t != [] && IsSubstring(s, t[1..]) {
      var k :| 0 <= k <= |t[1..]| && IsPrefix(s, t[1..][k..]);
      assert t[1..][k..] == t[k + 1..];
    }
    if IsPrefix(s, t) {
      assert t[0..] == t;
    }
  }

  /** `%s%` with a wildcard-free s is a substring test. */
  lemma {:induction false} LikeContains(t: string, s: string)
    requires NoWildcards(s)
    ensures LikeMatch(t, "%" + s + "%") <==> IsSubstring(s, t)
  {
    var p := "%" + s + "%";
    assert p[0] == '%' && p[1..] == s + "%";
    LikePrefix(t, s);
    SubstringStep(s, t);
    if t != [] {
      LikeContains(t[1..], s);
    }
  }

  /** A matched text without upper-case letters forces every literal pattern
      character to be free of upper case as well. */
  lemma {:induction false} LikeKeepsCase(t: string, p: string, i: int)
    requires NoUpper(t) && LikeMatch(t, p)
    requires 0 <= i < |p| && !IsWildcard(p[i])
    ensures !IsUpper(p[i])
    decreases |t| + |p|
  {
    if p[0] == '%' {
      if LikeMatch(t, p[1..]) {
        LikeKeepsCase(t, p[1..], i - 1);
      } else {
        LikeKeepsCase(t[1..], p, i);
      }
    } else if i > 0 {
      LikeKeepsCase(t[1..], p[1..], i - 1);
    }
  }

  /** Hence a pattern with an upper-case literal never matches a lower-cased text. */
  lemma UpperPatternNeverMatchesLowered(t: string, p: string, i: int)
    requires 0 <= i < |p| && IsUpper(p[i])
    ensures !LikeMatch(Lower(t), p)
  {
    LowerIdempotent(t);
    if LikeMatch(Lower(t), p) {
      LikeKeepsCase(Lower(t), p, i);
    }
  }

  // ---------------------------------------------------------------------
  // String.split with a one-character separator
  // ---------------------------------------------------------------------

  /** Every field between separators, empty ones included. */
  function SplitAll(s: string, sep: char): (r: seq<string>)
    ensures |r| >= 1
  {
    if s == [] then [[]]
    else
      var rest := SplitAll(s[1..], sep);
      if s[0] == sep then [[]] + rest else [[s[0]] + rest[0]] + rest[1..]
  }

  function StripTrailingEmpty(parts: seq<string>): seq<string>
  {
    if parts != [] && parts[|parts| - 1] == [] then StripTrailingEmpty(parts[..|parts| - 1]) else parts
  }

  /** String.split(sep) with limit 0: with no separator present the string itself,
      otherwise the fields with the trailing empty ones removed. */
  function JavaSplit(s: string, sep: char): seq<string>
  {
    if sep !in s then [s] else StripTrailingEmpty(SplitAll(s, sep))
  }

  function JoinWith(parts: seq<string>, sep: char): string
    requires parts != []
  {
    if |parts| == 1 then parts[0] else parts[0] + [sep] + JoinWith(parts[1..], sep)
  }

  /** Splitting and joining again gives the original string. */
  lemma {:induction false} JoinSplitAll(s: string, sep: char)
    ensures JoinWith(SplitAll(s, sep), sep) == s
  {
    if s != [] {
      var rest := SplitAll(s[1..], sep);
      JoinSplitAll(s[1..], sep);
      if s[0] != sep {
        var r := [[s[0]] + rest[0]] + rest[1..];
        assert r[1..] == rest[1..];
        if |rest| > 1 {
          assert JoinWith(rest, sep) == rest[0] + [sep] + JoinWith(rest[1..], sep);
        }
      } else {
        assert ([[]] + rest)[1..] == rest;
      }
    }
  }

  lemma {:induction false} SplitAllNoSeparator(a: string, sep: char)
    requires sep !in a
    ensures SplitAll(a, sep) == [a]
  {
    if a != [] {
      assert sep != a[0] && sep !in a[1..];
      SplitAllNoSeparator(a[1..], sep);
      assert [a[0]] + a[1..] == a;
    }
  }

  lemma {:induction false} SplitAllAfterField(a: string, b: string, sep: char)
    requires sep !in a
    ensures SplitAll(a + [sep] + b, sep) == [a] + SplitAll(b, sep)
  {
    if a == [] {
      assert a + [sep] + b == [sep] + b;
      assert ([sep] + b)[1..] == b;
    } else {
      assert (a + [sep] + b)[1..] == a[1..] + [sep] + b;
      SplitAllAfterField(a[1..], b, sep);
      assert [a[0]] + a[1..] == a;
    }
  }

  /** Joining separator-free fields and splitting again gives the fields back. */
  lemma {:induction false} SplitAllJoin(parts: seq<string>, sep: char)
    requires parts != []
    requires forall k :: 0 <= k < |parts| ==> sep !in parts[k]
    ensures SplitAll(JoinWith(parts, sep), sep) == parts
  {
    if |parts| == 1 {
      SplitAllNoSeparator(parts[0], sep);
    } else {
      SplitAllJoin(parts[1..], sep);
      SplitAllAfterField(parts[0], JoinWith(parts[1..], sep), sep);
      assert [parts[0]] + parts[1..] == parts;
    }
  }

  /** The same round trip for String.split, which keeps the fields when the last one is not empty. */
  lemma JavaSplitJoin(parts: seq<string>, sep: char)
    requires parts != []
    requires forall k :: 0 <= k < |parts| ==> sep !in parts[k]
    requires |parts| == 1 || parts[|parts| - 1] != []
    ensures JavaSplit(JoinWith(parts, sep), sep) == parts
  {
    if |parts| > 1 {
      SplitAllJoin(parts, sep);
      var j := JoinWith(parts, sep);
      assert j == parts[0] + [sep] + JoinWith(parts[1..], sep);
      assert j[|parts[0]|] == sep;
    }
  }

  lemma {:induction false} StripTrailingEmptyPrefix(parts: seq<string>)
    ensures |StripTrailingEmpty(parts)| <= |parts|
    ensures StripTrailingEmpty(parts) == parts[..|StripTrailingEmpty(parts)|]
  {
    if parts != [] && parts[|parts| - 1] == [] {
      StripTrailingEmptyPrefix(parts[..|parts| - 1]);
    }
  }

  lemma {:induction false} SplitAllFieldsFree(s: string, sep: char)
    ensures forall k :: 0 <= k < |SplitAll(s, sep)| ==> sep !in SplitAll(s, sep)[k]
  {
    if s != [] {
      SplitAllFieldsFree(s[1..], sep);
    }
  }

  /** No field of String.split contains the separator. */
  lemma JavaSplitFieldsFree(s: string, sep: char)
    ensures forall k :: 0 <= k < |JavaSplit(s, sep)| ==> sep !in JavaSplit(s, sep)[k]
  {
    if sep in s {
      SplitAllFieldsFree(s, sep);
      StripTrailingEmptyPrefix(SplitAll(s, sep));
    }
  }

  lemma {:induction false} SplitAllLastField(s: string, sep: char)
    requires s != [] && s[|s| - 1] != sep
    ensures SplitAll(s, sep)[|SplitAll(s, sep)| - 1] != []
  {
    if |s| > 1 {
      assert s[1..][|s[1..]| - 1] == s[|s| - 1];
      SplitAllLastField(s[1..], sep);
    }
  }

  /** A string that does not end with the separator is the join of its split fields. */
  lemma JavaSplitJoinBack(s: string, sep: char)
    requires s != [] && s[|s| - 1] != sep
    ensures JavaSplit(s, sep) != [] && JoinWith(JavaSplit(s, sep), sep) == s
  {
    JoinSplitAll(s, sep);
    if sep in s {
      SplitAllLastField(s, sep);
    }
  }

  lemma {:induction false} SplitAllOfSeparators(s: string, sep: char)
    requires forall i :: 0 <= i < |s| ==> s[i] == sep
    ensures |SplitAll(s, sep)| == |s| + 1
    ensures forall k :: 0 <= k < |SplitAll(s, sep)| ==> SplitAll(s, sep)[k] == []
  {
    if s != [] {
      SplitAllOfSeparators(s[1..], sep);
    }
  }

  lemma {:induction false} StripAllEmpty(parts: seq<string>)
    requires forall k :: 0 <= k < |parts| ==> parts[k] == []
    ensures StripTrailingEmpty(parts) == []
  {
    if parts != [] {
      StripAllEmpty(parts[..|parts| - 1]);
    }
  }

  /** Splitting a string made only of separators yields no field at all. */
  lemma JavaSplitOfSeparators(s: string, sep: char)
    requires s != [] && forall i :: 0 <= i < |s| ==> s[i] == sep
    ensures JavaSplit(s, sep) == []
  {
    assert s[0] == sep;
    SplitAllOfSeparators(s, sep);
    StripAllEmpty(SplitAll(s, sep));
  }

  // ---------------------------------------------------------------------
  // Decimal text and the text order
  // ---------------------------------------------------------------------

  function DigitChar(d: nat): char
    requires d < 10
  {
    ('0' as int + d) as char
  }

  function NatText(n: nat): string
  {
    if n < 10 then [DigitChar(n)] else NatText(n / 10) + [DigitChar(n % 10)]
  }

  /** Integer.toString / the store's cast of a number to text. */
  function DecimalText(n: int): string
  {
    if n < 0 then "-" + NatText(-n) else NatText(n)
  }

  /** Text order by character code, as String.compareTo orders strings. */
  predicate StrLess(a: string, b: string)
  {
    if a == [] then b != []
    else b != [] && (a[0] < b[0] || (a[0] == b[0] && StrLess(a[1..], b[1..])))
  }

  lemma {:induction false} StrLessIrreflexive(a: string)
    ensures !StrLess(a, a)
  {
    if a != [] {
      StrLessIrreflexive(a[1..]);
    }
  }

  lemma {:induction false} StrLessTransitive(a: string, b: string, c: string)
    requires StrLess(a, b) && StrLess(b, c)
    ensures StrLess(a, c)
  {
    if a != [] && a[0] == b[0] && b[0] == c[0] {
      StrLessTransitive(a[1..], b[1..], c[1..]);
    }
  }

  lemma {:induction false} StrLessTotal(a: string, b: string)
    ensures a == b || StrLess(a, b) || StrLess(b, a)
  {
    if a != [] && b != [] && a[0] == b[0] {
      StrLessTotal(a[1..], b[1..]);
      if a[1..] == b[1..] {
        assert a == [a[0]] + a[1..] && b == [b[0]] + b[1..];
      }
    }
  }
}
