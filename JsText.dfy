/**
 * The pieces of JavaScript string semantics the page relies on: which characters a regular
 * expression's `.` refuses, which ones `String.prototype.trim` strips, where a pattern occurs in
 * a string, and how an integer status code is written out in a template literal.
 * Strings are sequences of UTF-16 code units in JavaScript; here they are `seq<char>`.
 */
module JsText {
  import opened Wrappers

  /** The four ECMAScript LineTerminator code points: a regular expression's `.` (without the `s` flag) matches anything else. */
  predicate IsLineTerminator(c: char) {
    c == '\n' || c == '\r' || c == '\U{2028}' || c == '\U{2029}'
  }

  /** No character of `s` ends a line. */
  predicate NoTerminator(s: string) {
    forall k :: 0 <= k < |s| ==> !IsLineTerminator(s[k])
  }

  /** ECMAScript WhiteSpace: tab, vertical tab, form feed, the no-break and byte-order-mark spaces, and every space separator. */
  predicate IsWhiteSpace(c: char) {
    c == '\t' || c == '\U{000B}' || c == '\U{000C}' || c == ' ' || c == '\U{00A0}' || c == '\U{FEFF}' ||
    c == '\U{1680}' || ('\U{2000}' <= c <= '\U{200A}') || c == '\U{202F}' || c == '\U{205F}' || c == '\U{3000}'
  }

  /** The characters `String.prototype.trim` removes from either end: WhiteSpace and LineTerminator. */
  predicate IsTrimmable(c: char) {
    IsWhiteSpace(c) || IsLineTerminator(c)
  }

  /** `trimStart`: `s` without its leading run of trimmable characters. */
  function TrimStart(s: string): (r: string)
    ensures |r| <= |s|
    decreases |s|
  {
    if s != [] && IsTrimmable(s[0]) then TrimStart(s[1..]) else s
  }

  /** `trimStart` drops exactly the leading trimmable run: what is left is a suffix that does not start with one. */
  lemma {:induction false} TrimStartSpec(s: string)
    ensures var r := TrimStart(s);
      r == s[|s| - |r|..] && (r != [] ==> !IsTrimmable(r[0])) &&
      forall k :: 0 <= k < |s| - |r| ==> IsTrimmable(s[k])
    decreases |s|
  {
    if s != [] && IsTrimmable(s[0]) {
      TrimStartSpec(s[1..]);
      var r := TrimStart(s);
      forall k | 1 <= k < |s| - |r| ensures IsTrimmable(s[k]) {
        assert s[k] == s[1..][k - 1];
      }
    }
  }

  /** `trimEnd`: `s` without its trailing run of trimmable characters. */
  function TrimEnd(s: string): (r: string)
    ensures |r| <= |s|
    decreases |s|
  {
    if s != [] && IsTrimmable(s[|s| - 1]) then TrimEnd(s[..|s| - 1]) else s
  }

  /** `trimEnd` drops exactly the trailing trimmable run: what is left is a prefix that does not end with one. */
  lemma {:induction false} TrimEndSpec(s: string)
    ensures var r := TrimEnd(s);
      r == s[..|r|] && (r != [] ==> !IsTrimmable(r[|r| - 1])) &&
      forall k :: |r| <= k < |s| ==> IsTrimmable(s[k])
    decreases |s|
  {
    if s != [] && IsTrimmable(s[|s| - 1]) {
      var init := s[..|s| - 1];
      TrimEndSpec(init);
      var r := TrimEnd(s);
      assert init[..|r|] == s[..|r|];
      forall k | |r| <= k < |s| - 1 ensures IsTrimmable(s[k]) {
        assert s[k] == init[k];
      }
    }
  }

  /**
   * `String.prototype.trim`: a non-empty result neither starts nor ends with a trimmable character,
   * and the result is empty exactly when every character of `s` is trimmable.
   */
  function Trim(s: string): (r: string)
    ensures |r| <= |s|
    ensures r != [] ==> !IsTrimmable(r[0]) && !IsTrimmable(r[|r| - 1])
    ensures r == [] <==> forall k :: 0 <= k < |s| ==> IsTrimmable(s[k])
  {
    TrimStartSpec(s);
    TrimEndSpec(TrimStart(s));
    TrimEnd(TrimStart(s))
  }

  /**
   * What `trim` promises: the result is the part of `s` that starts at its first non-trimmable
   * character and ends at its last one, so it neither starts nor ends with a trimmable character,
   * and everything cut away on either side is trimmable.
   */
  lemma TrimIsCore(s: string)
    ensures var lead := |s| - |TrimStart(s)|; var r := Trim(s);
      lead + |r| <= |s| && r == s[lead..lead + |r|] &&
      (forall k :: 0 <= k < lead ==> IsTrimmable(s[k])) &&
      (forall k :: lead + |r| <= k < |s| ==> IsTrimmable(s[k])) &&
      (r != [] ==> !IsTrimmable(r[0]) && !IsTrimmable(r[|r| - 1]))
  {
    TrimStartSpec(s);
    TrimSlice(s);
    TrimTail(s);
  }

  /** The trimmed text is a slice of `s` starting where `trimStart` cut. */
  lemma TrimSlice(s: string)
    ensures |s| - |TrimStart(s)| + |Trim(s)| <= |s|
    ensures Trim(s) == s[|s| - |TrimStart(s)|..|s| - |TrimStart(s)| + |Trim(s)|]
  {
    TrimStartSpec(s);
    TrimEndSpec(TrimStart(s));
    assert TrimStart(s) == s[|s| - |TrimStart(s)|..];
    assert Trim(s) == TrimStart(s)[..|Trim(s)|];
  }

  /** Everything after the trimmed text is trimmable. */
  lemma TrimTail(s: string)
    ensures forall k :: |s| - |TrimStart(s)| + |Trim(s)| <= k < |s| ==> IsTrimmable(s[k])
  {
    var t := TrimStart(s);
    var lead := |s| - |t|;
    TrimStartSpec(s);
    TrimEndSpec(t);
    forall k | lead + |Trim(s)| <= k < |s| ensures IsTrimmable(s[k]) {
      assert s[k] == t[k - lead];
    }
  }

  /** Trimming twice is trimming once. */
  lemma TrimIdempotent(s: string)
    ensures Trim(Trim(s)) == Trim(s)
  {
    var r := Trim(s);
    TrimIsCore(s);
    if r != [] {
      assert TrimStart(r) == r;
      assert TrimEnd(r) == r;
    }
  }

  /** `s` ends with `suffix` (`String.prototype.endsWith`); `suffix <= s` is `startsWith`. */
  predicate EndsWith(s: string, suffix: string) {
    |suffix| <= |s| && s[|s| - |suffix|..] == suffix
  }

  /** `pat` occurs in `s` starting at index `k`. */
  predicate OccursAt(s: string, pat: string, k: int) {
    0 <= k && k + |pat| <= |s| && s[k..k + |pat|] == pat
  }

  /** The first index at or after `i` where `pat` occurs: the left-to-right search of `indexOf` and of a regular expression. */
  function FirstFrom(s: string, pat: string, i: nat): (r: Option<nat>)
    ensures r.Some? ==> i <= r.value && r.value + |pat| <= |s|
    decreases |s| + 1 - i
  {
    if OccursAt(s, pat, i) then Some(i)
    else if i >= |s| then None
    else FirstFrom(s, pat, i + 1)
  }

  /** `FirstFrom` finds an occurrence with none between `i` and it, and finds nothing only when none starts at or after `i`. */
  lemma {:induction false} FirstFromSpec(s: string, pat: string, i: nat)
    ensures var r := FirstFrom(s, pat, i);
      (r.Some? ==> OccursAt(s, pat, r.value) && forall k :: i <= k < r.value ==> !OccursAt(s, pat, k)) &&
      (r.None? ==> forall k :: i <= k ==> !OccursAt(s, pat, k))
    decreases |s| + 1 - i
  {
    if !OccursAt(s, pat, i) && i < |s| {
      FirstFromSpec(s, pat, i + 1);
    }
  }

  /** The index of the first occurrence of `pat` in `s`. */
  function FirstOccurrence(s: string, pat: string): (r: Option<nat>)
    ensures r.Some? ==> r.value + |pat| <= |s|
  {
    FirstFrom(s, pat, 0)
  }

  /** The last index at or after `i` where `pat` occurs: where a greedy `.*` backs off to. */
  function LastFrom(s: string, pat: string, i: nat): (r: Option<nat>)
    ensures r.Some? ==> i <= r.value && r.value + |pat| <= |s|
    decreases |s| + 1 - i
  {
    if i > |s| then None
    else
      match LastFrom(s, pat, i + 1)
      case Some(j) => Some(j)
      case None => if OccursAt(s, pat, i) then Some(i) else None
  }

  /** `LastFrom` finds an occurrence with none after it, and finds nothing only when none starts at or after `i`. */
  lemma {:induction false} LastFromSpec(s: string, pat: string, i: nat)
    ensures var r := LastFrom(s, pat, i);
      (r.Some? ==> OccursAt(s, pat, r.value) && forall k :: r.value < k ==> !OccursAt(s, pat, k)) &&
      (r.None? ==> forall k :: i <= k ==> !OccursAt(s, pat, k))
    decreases |s| + 1 - i
  {
    if i <= |s| {
      LastFromSpec(s, pat, i + 1);
    }
  }

  /** The index of the last occurrence of `pat` in `s`. */
  function LastOccurrence(s: string, pat: string): (r: Option<nat>)
    ensures r.Some? ==> r.value + |pat| <= |s|
  {
    LastFrom(s, pat, 0)
  }

  predicate IsDigit(c: char) {
    '0' <= c <= '9'
  }

  function DigitValue(c: char): nat
    requires IsDigit(c)
  {
    c as int - '0' as int
  }

  function DigitChar(d: nat): (c: char)
    requires d < 10
    ensures IsDigit(c) && DigitValue(c) == d
  {
    ('0' as int + d) as char
  }

  /** How a non-negative integer `Number` is written by `String(n)` or in a template literal: decimal, no leading zero. */
  function DecimalString(n: nat): (r: string)
    ensures r != [] && forall k :: 0 <= k < |r| ==> IsDigit(r[k])
    ensures r[0] == '0' ==> n == 0
    decreases n
  {
    if n < 10 then [DigitChar(n)] else DecimalString(n / 10) + [DigitChar(n % 10)]
  }

  /** The number a string of decimal digits denotes. */
  function DecimalValue(r: string): nat
    requires forall k :: 0 <= k < |r| ==> IsDigit(r[k])
    decreases |r|
  {
    if r == [] then 0 else 10 * DecimalValue(r[..|r| - 1]) + DigitValue(r[|r| - 1])
  }

  /** Writing a status code out and reading it back gives the same number, so distinct codes give distinct texts. */
  lemma {:induction false} DecimalRoundTrip(n: nat)
    ensures DecimalValue(DecimalString(n)) == n
    decreases n
  {
    if n >= 10 {
      var r := DecimalString(n);
      DecimalRoundTrip(n / 10);
      assert r[..|r| - 1] == DecimalString(n / 10);
    }
  }
}
