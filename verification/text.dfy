/** The JavaScript string primitives the extension leans on, over `seq<char>`:
    `trim` and the regular-expression class `\s`, `startsWith`, `includes`,
    ASCII case folding (what a case-insensitive regular expression does with
    an ASCII pattern), a global literal `replace`, UTF-16 `length` and
    `Number.prototype.toString()` for non-negative integers. */
module Text {

  /** ECMAScript WhiteSpace and LineTerminator code points: the set that both
      `String.prototype.trim` and the regular-expression class `\s` use. */
  predicate IsWhitespace(c: char) {
    || c == '\t' || c == '\n' || c == '\U{B}' || c == '\U{C}' || c == '\r'
    || c == ' ' || c == '\U{A0}' || c == '\U{1680}'
    || ('\U{2000}' <= c <= '\U{200A}')
    || c == '\U{2028}' || c == '\U{2029}' || c == '\U{202F}' || c == '\U{205F}'
    || c == '\U{3000}' || c == '\U{FEFF}'
  }

  predicate AllWhitespace(s: string) {
    forall i :: 0 <= i < |s| ==> IsWhitespace(s[i])
  }

  /** Neither end of `s` is whitespace. */
  predicate IsTrimmed(s: string) {
    |s| > 0 ==> !IsWhitespace(s[0]) && !IsWhitespace(s[|s| - 1])
  }

  /** The number of whitespace characters `s` starts with. */
  function LeadingSpace(s: string): (n: nat)
    ensures n <= |s|
    decreases |s|
  {
    if |s| > 0 && IsWhitespace(s[0]) then 1 + LeadingSpace(s[1..]) else 0
  }

  /** The number of whitespace characters `s` ends with. */
  function TrailingSpace(s: string): (n: nat)
    ensures n <= |s|
    decreases |s|
  {
    if |s| > 0 && IsWhitespace(s[|s| - 1]) then 1 + TrailingSpace(s[..|s| - 1]) else 0
  }

  /** `LeadingSpace` counts whitespace up to the first other character. */
  lemma {:induction false} LeadingSpaceFacts(s: string)
    ensures var n := LeadingSpace(s);
            && (forall k :: 0 <= k < n ==> IsWhitespace(s[k]))
            && (n < |s| ==> !IsWhitespace(s[n]))
    decreases |s|
  {
    if |s| > 0 && IsWhitespace(s[0]) {
      var u := s[1..];
      LeadingSpaceFacts(u);
      forall k | 1 <= k < 1 + LeadingSpace(u)
        ensures IsWhitespace(s[k])
      {
        assert s[k] == u[k - 1];
      }
    }
  }

  /** `TrailingSpace` counts whitespace back to the last other character. */
  lemma {:induction false} TrailingSpaceFacts(s: string)
    ensures var n := TrailingSpace(s);
            && (forall k :: |s| - n <= k < |s| ==> IsWhitespace(s[k]))
            && (n < |s| ==> !IsWhitespace(s[|s| - n - 1]))
    decreases |s|
  {
    if |s| > 0 && IsWhitespace(s[|s| - 1]) {
      var u := s[..|s| - 1];
      TrailingSpaceFacts(u);
      forall k | |s| - 1 - TrailingSpace(u) <= k < |s| - 1
        ensures IsWhitespace(s[k])
      {
        assert s[k] == u[k];
      }
    }
  }

  /** The leading whitespace ends at the first other character. */
  lemma {:induction false} LeadingSpaceAt(s: string, n: nat)
    requires n <= |s| && forall k :: 0 <= k < n ==> IsWhitespace(s[k])
    requires n == |s| || !IsWhitespace(s[n])
    ensures LeadingSpace(s) == n
    decreases n
  {
    if n > 0 {
      LeadingSpaceAt(s[1..], n - 1);
    }
  }

  /** `String.prototype.trimStart`. */
  function TrimStart(s: string): (r: string)
    ensures |r| <= |s| && r == s[|s| - |r|..]
    ensures AllWhitespace(s[..|s| - |r|])
    ensures |r| > 0 ==> !IsWhitespace(r[0])
  {
    LeadingSpaceFacts(s);
    var n := LeadingSpace(s);
    assert forall k :: 0 <= k < n ==> s[..n][k] == s[k];
    s[n..]
  }

  /** `String.prototype.trimEnd`. */
  function TrimEnd(s: string): (r: string)
    ensures |r| <= |s| && r == s[..|r|]
    ensures AllWhitespace(s[|r|..])
    ensures |r| > 0 ==> !IsWhitespace(r[|r| - 1])
  {
    TrailingSpaceFacts(s);
    var n := |s| - TrailingSpace(s);
    assert forall k :: 0 <= k < |s| - n ==> s[n..][k] == s[n + k];
    s[..n]
  }

  /** `String.prototype.trim`. */
  function Trim(s: string): (r: string)
    ensures IsTrimmed(r) && |r| <= |s|
  {
    TrimEnd(TrimStart(s))
  }

  /** `Trim` keeps the infix of `s` between the leading and the trailing
      whitespace, and what it drops at either end is whitespace. */
  lemma TrimIsInfix(s: string)
    ensures var r := Trim(s);
            var i := |s| - |TrimStart(s)|;
            && 0 <= i <= |s| - |r| && r == s[i..i + |r|]
            && AllWhitespace(s[..i]) && AllWhitespace(s[i + |r|..])
  {
    var t := TrimStart(s);
    SliceOfSuffix(s, |s| - |t|, |Trim(s)|);
  }

  /** Cutting a suffix of `s` again is cutting `s`. */
  lemma SliceOfSuffix(s: string, i: int, n: int)
    requires 0 <= i <= |s| && 0 <= n <= |s| - i
    ensures s[i..][..n] == s[i..i + n] && s[i..][n..] == s[i + n..]
  {
  }

  /** Trimming is the identity on a string with no whitespace at either end. */
  lemma {:induction false} TrimTrimmed(s: string)
    requires IsTrimmed(s)
    ensures TrimStart(s) == s && Trim(s) == s
  {
    assert TrimStart(s) == s;
    assert TrimEnd(s) == s;
  }

  /** A string that does not start with whitespace has nothing to trim in
      front. */
  lemma TrimStartNone(s: string)
    requires |s| == 0 || !IsWhitespace(s[0])
    ensures TrimStart(s) == s
  {
    assert s[0..] == s;
  }

  /** Trimming twice is trimming once. */
  lemma TrimIdempotent(s: string)
    ensures Trim(Trim(s)) == Trim(s)
  {
    TrimTrimmed(Trim(s));
  }

  predicate StartsWith(s: string, prefix: string) {
    |prefix| <= |s| && s[..|prefix|] == prefix
  }

  /** `String.prototype.includes`, scanning from the left. */
  predicate Contains(s: string, part: string)
    decreases |s|
  {
    StartsWith(s, part) || (|s| > 0 && Contains(s[1..], part))
  }

  /** `Contains` holds exactly when `part` occurs at some position of `s`. */
  lemma {:induction false} ContainsIff(s: string, part: string)
    ensures Contains(s, part) <==> exists i :: 0 <= i <= |s| && StartsWith(s[i..], part)
    decreases |s|
  {
    assert s[0..] == s;
    if |s| > 0 {
      ContainsIff(s[1..], part);
      if exists i :: 0 <= i <= |s| && StartsWith(s[i..], part) {
        var i :| 0 <= i <= |s| && StartsWith(s[i..], part);
        if i > 0 {
          assert s[1..][i - 1..] == s[i..];
        }
      }
      if Contains(s[1..], part) {
        var i :| 0 <= i <= |s| - 1 && StartsWith(s[1..][i..], part);
        assert s[1..][i..] == s[i + 1..];
      }
    }
  }

  /** Nothing longer than `s` occurs in `s`. */
  lemma ContainsShorter(s: string, part: string)
    requires |part| > |s|
    ensures !Contains(s, part)
  {
  }

  /** A part placed between two strings occurs in their concatenation. */
  lemma ContainsInfix(pre: string, part: string, post: string)
    ensures Contains(pre + part + post, part)
  {
    var s := pre + part + post;
    ContainsIff(s, part);
    assert s[|pre|..][..|part|] == part;
  }

  /** An occurrence at the front is an occurrence. */
  lemma StartsWithContains(s: string, part: string)
    requires StartsWith(s, part)
    ensures Contains(s, part)
  {
  }

  /** ASCII lower-casing of one character; every other character is kept. */
  function Lower(c: char): (r: char)
    ensures 'A' <= c <= 'Z' ==> r as int == c as int + 32
    ensures !('A' <= c <= 'Z') ==> r == c
  {
    if 'A' <= c <= 'Z' then (c as int + 32) as char else c
  }

  /** `toLowerCase` restricted to ASCII letters. */
  function ToLower(s: string): (r: string)
    ensures |r| == |s|
    ensures forall i :: 0 <= i < |s| ==> r[i] == Lower(s[i])
  {
    seq(|s|, i requires 0 <= i < |s| => Lower(s[i]))
  }

  /** Lower-casing a lower-cased string changes nothing. */
  lemma ToLowerIdempotent(s: string)
    ensures ToLower(ToLower(s)) == ToLower(s)
  {
  }

  /** `s` begins with `prefix` when both are ASCII-case-folded: what
      `/^prefix/i` tests for a pattern made of ASCII characters. */
  predicate StartsWithIgnoreCase(s: string, prefix: string)
    ensures StartsWithIgnoreCase(s, prefix) ==> |prefix| <= |s|
    decreases |s|
  {
    |prefix| == 0
    || (|s| > 0 && Lower(s[0]) == Lower(prefix[0])
        && StartsWithIgnoreCase(s[1..], prefix[1..]))
  }

  lemma {:induction false} StartsWithIgnoreCaseIff(s: string, prefix: string)
    ensures StartsWithIgnoreCase(s, prefix)
            <==> |prefix| <= |s| && ToLower(s[..|prefix|]) == ToLower(prefix)
    decreases |s|
  {
    if |prefix| > 0 && |s| > 0 {
      StartsWithIgnoreCaseIff(s[1..], prefix[1..]);
      if |prefix| <= |s| {
        assert s[1..][..|prefix| - 1] == s[1..|prefix|];
        var a, b := ToLower(s[..|prefix|]), ToLower(prefix);
        assert a == [a[0]] + a[1..] && b == [b[0]] + b[1..];
        assert a[1..] == ToLower(s[1..|prefix|]);
        assert b[1..] == ToLower(prefix[1..]);
      }
    }
  }

  /** A case-insensitive prefix `a + b` is `a` followed by `b`. */
  lemma {:induction false} StartsWithIgnoreCaseSplit(s: string, a: string, b: string)
    ensures StartsWithIgnoreCase(s, a + b)
            <==> (StartsWithIgnoreCase(s, a) && StartsWithIgnoreCase(s[|a|..], b))
    decreases |a|
  {
    if |a| == 0 {
      assert a + b == b;
      assert s[0..] == s;
    } else if |s| > 0 {
      assert (a + b)[1..] == a[1..] + b;
      StartsWithIgnoreCaseSplit(s[1..], a[1..], b);
      if |a| <= |s| {
        assert s[1..][|a| - 1..] == s[|a|..];
      }
    }
  }

  /** A case-sensitive prefix is also a case-insensitive one. */
  lemma {:induction false} StartsWithIgnoresCase(s: string, prefix: string)
    requires StartsWith(s, prefix)
    ensures StartsWithIgnoreCase(s, prefix)
  {
    StartsWithIgnoreCaseIff(s, prefix);
  }

  /** `s.replace(/pattern/g, replacement)` for a literal pattern: occurrences
      are found from the left and replaced without overlapping. */
  function ReplaceAll(s: string, pattern: string, replacement: string): (r: string)
    requires |pattern| > 0
    ensures |replacement| <= |pattern| ==> |r| <= |s|
    ensures !Contains(s, pattern) ==> r == s
    decreases |s|
  {
    if |s| == 0 then []
    else if StartsWith(s, pattern) then
      replacement + ReplaceAll(s[|pattern|..], pattern, replacement)
    else
      [s[0]] + ReplaceAll(s[1..], pattern, replacement)
  }

  /** A prefix in which no occurrence of the pattern starts is copied as it is. */
  lemma {:induction false} ReplaceAllSkip(u: string, v: string, pattern: string, replacement: string)
    requires |pattern| > 0
    requires forall i :: 0 <= i < |u| ==> !StartsWith((u + v)[i..], pattern)
    ensures ReplaceAll(u + v, pattern, replacement) == u + ReplaceAll(v, pattern, replacement)
    decreases |u|
  {
    if |u| > 0 {
      var w := u + v;
      assert !StartsWith(w[0..], pattern);
      assert w[0..] == w;
      assert w[1..] == u[1..] + v;
      forall i | 0 <= i < |u| - 1
        ensures !StartsWith((u[1..] + v)[i..], pattern)
      {
        assert (u[1..] + v)[i..] == w[i + 1..];
      }
      ReplaceAllSkip(u[1..], v, pattern, replacement);
      assert u == [u[0]] + u[1..];
    } else {
      assert u + v == v;
    }
  }

  /** An occurrence of the pattern at the front is replaced. */
  lemma ReplaceAllHit(v: string, pattern: string, replacement: string)
    requires |pattern| > 0
    ensures ReplaceAll(pattern + v, pattern, replacement)
            == replacement + ReplaceAll(v, pattern, replacement)
  {
    var w := pattern + v;
    assert StartsWith(w, pattern) by {
      assert w[..|pattern|] == pattern;
    }
    assert w[|pattern|..] == v;
  }

  /** JavaScript `length`: UTF-16 code units, two for a code point above U+FFFF. */
  function JsLength(s: string): (n: nat)
    ensures |s| <= n <= 2 * |s|
  {
    if |s| == 0 then 0
    else (if s[0] as int > 0xFFFF then 2 else 1) + JsLength(s[1..])
  }

  function DigitChar(d: nat): (c: char)
    requires d < 10
    ensures '0' <= c <= '9' && c as int - '0' as int == d
  {
    ('0' as int + d) as char
  }

  predicate IsDigit(c: char) {
    '0' <= c <= '9'
  }

  /** `n.toString()` for a non-negative integer. */
  function NatToString(n: nat): (s: string)
    ensures |s| > 0
    ensures forall i :: 0 <= i < |s| ==> IsDigit(s[i])
    ensures |s| > 1 ==> s[0] != '0'
    decreases n
  {
    if n < 10 then [DigitChar(n)] else NatToString(n / 10) + [DigitChar(n % 10)]
  }

  /** Reads a string of decimal digits back as a number. */
  function ParseDecimal(s: string): nat
    requires forall i :: 0 <= i < |s| ==> IsDigit(s[i])
    decreases |s|
  {
    if |s| == 0 then 0
    else
      var last := s[|s| - 1];
      assert IsDigit(last);
      10 * ParseDecimal(s[..|s| - 1]) + (last as int - '0' as int)
  }

  /** The decimal rendering of a number reads back as that number, so
      `NatToString` is injective. */
  lemma {:induction false} NatToStringRoundTrip(n: nat)
    ensures ParseDecimal(NatToString(n)) == n
    decreases n
  {
    if n >= 10 {
      NatToStringRoundTrip(n / 10);
      var s := NatToString(n);
      assert s[..|s| - 1] == NatToString(n / 10);
    }
  }

  lemma NatToStringInjective(m: nat, n: nat)
    requires NatToString(m) == NatToString(n)
    ensures m == n
  {
    NatToStringRoundTrip(m);
    NatToStringRoundTrip(n);
  }
}
