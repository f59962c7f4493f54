/**
 * The summary formatter of the page (`displayResults`): a fixed chain of global regular-expression
 * replacements over the summary text, then a conditional wrap in a paragraph.
 *
 * Each `.replace(/…/g, …)` is one function here, written as the scan a global regular expression
 * performs over its `lastIndex`: try to match at position `i`; on a match emit the replacement and
 * resume at the end of the match, otherwise copy `s[i]` and try at `i + 1`. Beside each scan stands
 * an independent description of what it does (line by line, or by first and last occurrence),
 * proved equal to it.
 */
module Formatter {
  import opened Wrappers
  import opened JsText

  /**
   * Where the line holding position `j` ends: the first line terminator at or after `j`, or `|s|`.
   * `(.*)` without the `s` flag, started at `j`, captures exactly `s[j..LineEnd(s, j)]`.
   */
  function LineEnd(s: string, j: nat): (e: nat)
    requires j <= |s|
    ensures j <= e <= |s|
    decreases |s| - j
  {
    if j == |s| || IsLineTerminator(s[j]) then j else LineEnd(s, j + 1)
  }

  /** `LineEnd` is maximal munch: no terminator before it, and a terminator (or the end) at it. */
  lemma {:induction false} LineEndSpec(s: string, j: nat)
    requires j <= |s|
    ensures var e := LineEnd(s, j);
      (e == |s| || IsLineTerminator(s[e])) && forall k :: j <= k < e ==> !IsLineTerminator(s[k])
    decreases |s| - j
  {
    if j < |s| && !IsLineTerminator(s[j]) {
      LineEndSpec(s, j + 1);
    }
  }

  /** Every position up to the end of a line belongs to that same line. */
  lemma {:induction false} LineEndWithin(s: string, j: nat, k: nat)
    requires j <= k <= |s| && k <= LineEnd(s, j)
    ensures LineEnd(s, k) == LineEnd(s, j)
    decreases k - j
  {
    if j < k {
      LineEndWithin(s, j + 1, k);
    }
  }

  /* ---------------------------------------------------------------------------------------------
   * Headings and list items: `.replace(/<marker>(.*)/g, '<open>$1<close>')`
   * ------------------------------------------------------------------------------------------- */

  /**
   * The scan of `.replace(/<marker>(.*)/g, '<open>$1<close>')` from position `i`. The pattern is not
   * anchored: the marker is tried at every position, and on a match the rest of that line is
   * captured and the scan resumes at the line's end.
   */
  function MarkFrom(s: string, marker: string, open: string, close: string, i: nat): string
    requires marker != [] && i <= |s|
    decreases |s| - i
  {
    if i == |s| then []
    else if OccursAt(s, marker, i) then
      var e := LineEnd(s, i + |marker|);
      open + s[i + |marker|..e] + close + MarkFrom(s, marker, open, close, e)
    else [s[i]] + MarkFrom(s, marker, open, close, i + 1)
  }

  function MarkLines(s: string, marker: string, open: string, close: string): string
    requires marker != []
  {
    MarkFrom(s, marker, open, close, 0)
  }

  /**
   * The effect on the line that starts at `i`: when the first marker at or after `i` lies on that
   * line, the text before it is kept and the marker and the rest of the line are wrapped; otherwise
   * the line is kept as it is.
   */
  function MarkLine(s: string, marker: string, open: string, close: string, i: nat): string
    requires i <= |s|
  {
    if OnLine(s, marker, i) then
      s[i..FirstFrom(s, marker, i).value] + open + s[FirstFrom(s, marker, i).value + |marker|..LineEnd(s, i)] + close
    else s[i..LineEnd(s, i)]
  }

  /** The first marker at or after `i` lies on the line that starts at `i`. */
  predicate OnLine(s: string, marker: string, i: nat)
    requires i <= |s|
  {
    FirstFrom(s, marker, i).Some? && FirstFrom(s, marker, i).value + |marker| <= LineEnd(s, i)
  }

  /** The reference reading of the marker scan from `i`: cut the text at each line terminator, treat every line by `MarkLine`, keep the terminators. */
  function ByLineFrom(s: string, marker: string, open: string, close: string, i: nat): string
    requires i <= |s|
    decreases |s| - i
  {
    var e := LineEnd(s, i);
    if e == |s| then MarkLine(s, marker, open, close, i)
    else MarkLine(s, marker, open, close, i) + [s[e]] + ByLineFrom(s, marker, open, close, e + 1)
  }

  function ByLine(s: string, marker: string, open: string, close: string): string
  {
    ByLineFrom(s, marker, open, close, 0)
  }

  // Proof step: regrouping a concatenation after one prepended character.
  lemma ConsAssoc(c: char, a: string, b: string)
    ensures [c] + (a + b) == ([c] + a) + b
  {
  }

  // Proof step: regrouping a wrapped piece spliced between a prefix and a rest.
  lemma WrapAssoc(a: string, open: string, b: string, close: string, rest: string)
    ensures a + (open + b + close + rest) == (a + open + b + close) + rest
  {
  }

  /** Where no marker starts in `[i, p)`, the scan copies `s[i..p]`. */
  lemma {:induction false} MarkFromCopies(s: string, marker: string, open: string, close: string, i: nat, p: nat)
    requires marker != [] && i <= p <= |s|
    requires forall k :: i <= k < p ==> !OccursAt(s, marker, k)
    ensures MarkFrom(s, marker, open, close, i) == s[i..p] + MarkFrom(s, marker, open, close, p)
    decreases p - i
  {
    if i < p {
      MarkFromCopies(s, marker, open, close, i + 1, p);
      ConsAssoc(s[i], s[i + 1..p], MarkFrom(s, marker, open, close, p));
      assert [s[i]] + s[i + 1..p] == s[i..p];
    }
  }

  /** A marker without terminators that starts on a line ends on it. */
  lemma NoStraddle(s: string, marker: string, i: nat, q: nat)
    requires NoTerminator(marker) && i <= |s| && i <= q < LineEnd(s, i)
    ensures OccursAt(s, marker, q) ==> q + |marker| <= LineEnd(s, i)
  {
    LineEndSpec(s, i);
    if q + |marker| <= |s| && LineEnd(s, i) < q + |marker| {
      assert s[q..q + |marker|][LineEnd(s, i) - q] == s[LineEnd(s, i)];
    }
  }

  /** No marker without terminators starts on a line terminator. */
  lemma NotAtTerminator(s: string, marker: string, k: nat)
    requires NoTerminator(marker) && marker != [] && k < |s| && IsLineTerminator(s[k])
    ensures !OccursAt(s, marker, k)
  {
    if k + |marker| <= |s| {
      assert s[k..k + |marker|][0] == s[k];
    }
  }

  // Proof step: regrouping a concatenation around one inserted character.
  lemma SnocAssoc(a: string, c: char, b: string)
    ensures a + ([c] + b) == (a + [c]) + b
  {
  }

  /** At a marker on the line that starts at `i`, the scan wraps the rest of that line and resumes at its end. */
  lemma MarkFromAt(s: string, marker: string, open: string, close: string, i: nat, p: nat)
    requires marker != [] && i <= |s| && i <= p && p + |marker| <= LineEnd(s, i) && OccursAt(s, marker, p)
    ensures MarkFrom(s, marker, open, close, p) == open + s[p + |marker|..LineEnd(s, i)] + close + MarkFrom(s, marker, open, close, LineEnd(s, i))
  {
    LineEndWithin(s, i, p + |marker|);
  }

  /** The scan over a line whose first marker is at `p`. */
  lemma MarkFromLineWith(s: string, marker: string, open: string, close: string, i: nat, p: nat)
    requires marker != [] && i <= |s| && i <= p && p + |marker| <= LineEnd(s, i) && OccursAt(s, marker, p)
    requires forall q :: i <= q < p ==> !OccursAt(s, marker, q)
    ensures MarkFrom(s, marker, open, close, i) == (s[i..p] + open + s[p + |marker|..LineEnd(s, i)] + close) + MarkFrom(s, marker, open, close, LineEnd(s, i))
  {
    MarkFromCopies(s, marker, open, close, i, p);
    MarkFromAt(s, marker, open, close, i, p);
    WrapAssoc(s[i..p], open, s[p + |marker|..LineEnd(s, i)], close, MarkFrom(s, marker, open, close, LineEnd(s, i)));
  }

  /** A line on which no marker starts, given that the first one from `i` is not on it. */
  lemma NoMarkerOnLine(s: string, marker: string, i: nat)
    requires marker != [] && NoTerminator(marker) && i <= |s|
    requires !OnLine(s, marker, i)
    ensures forall q :: i <= q < LineEnd(s, i) ==> !OccursAt(s, marker, q)
  {
    FirstFromSpec(s, marker, i);
    forall q | i <= q < LineEnd(s, i) {
      NoStraddle(s, marker, i, q);
    }
  }

  /** The scan treats the line starting at `i` by `MarkLine` and continues from that line's end. */
  lemma MarkFromLine(s: string, marker: string, open: string, close: string, i: nat)
    requires marker != [] && NoTerminator(marker) && i <= |s|
    ensures MarkFrom(s, marker, open, close, i) == MarkLine(s, marker, open, close, i) + MarkFrom(s, marker, open, close, LineEnd(s, i))
  {
    if OnLine(s, marker, i) {
      MarkFromLineOn(s, marker, open, close, i);
    } else {
      MarkFromLineOff(s, marker, open, close, i);
    }
  }

  lemma MarkFromLineOn(s: string, marker: string, open: string, close: string, i: nat)
    requires marker != [] && i <= |s| && OnLine(s, marker, i)
    ensures MarkFrom(s, marker, open, close, i) == MarkLine(s, marker, open, close, i) + MarkFrom(s, marker, open, close, LineEnd(s, i))
  {
    FirstFromSpec(s, marker, i);
    MarkFromLineWith(s, marker, open, close, i, FirstFrom(s, marker, i).value);
  }

  lemma MarkFromLineOff(s: string, marker: string, open: string, close: string, i: nat)
    requires marker != [] && NoTerminator(marker) && i <= |s| && !OnLine(s, marker, i)
    ensures MarkFrom(s, marker, open, close, i) == MarkLine(s, marker, open, close, i) + MarkFrom(s, marker, open, close, LineEnd(s, i))
  {
    NoMarkerOnLine(s, marker, i);
    MarkFromCopies(s, marker, open, close, i, LineEnd(s, i));
  }

  /**
   * The scan and the line-by-line reading agree: on every line, the first occurrence of the marker
   * (wherever it stands on the line) and the rest of that line become `open + rest + close`; later
   * markers on the same line are swallowed by `(.*)` and stay as text; no match crosses a line.
   */
  lemma {:induction false} MarkLinesByLine(s: string, marker: string, open: string, close: string, i: nat)
    requires marker != [] && NoTerminator(marker) && i <= |s|
    ensures MarkFrom(s, marker, open, close, i) == ByLineFrom(s, marker, open, close, i)
    decreases |s| - i
  {
    MarkFromLine(s, marker, open, close, i);
    LineEndSpec(s, i);
    if LineEnd(s, i) < |s| {
      var e := LineEnd(s, i);
      NotAtTerminator(s, marker, e);
      MarkLinesByLine(s, marker, open, close, e + 1);
      SnocAssoc(MarkLine(s, marker, open, close, i), s[e], MarkFrom(s, marker, open, close, e + 1));
    }
  }

  /**
   * Lines 189-190: `### (.*)` and then `## (.*)` become level-3 headings. Read line by line: on
   * each line the first `### ` (in the first pass) and then the first `## ` (in the second) open a
   * heading that runs to the end of the line.
   */
  function Headings(s: string): (r: string)
    ensures r == ByLine(ByLine(s, "### ", "<h3>", "</h3>"), "## ", "<h3>", "</h3>")
  {
    MarkLinesByLine(s, "### ", "<h3>", "</h3>", 0);
    MarkLinesByLine(MarkLines(s, "### ", "<h3>", "</h3>"), "## ", "<h3>", "</h3>", 0);
    MarkLines(MarkLines(s, "### ", "<h3>", "</h3>"), "## ", "<h3>", "</h3>")
  }

  /** Line 193: `- (.*)` becomes a list item. Read line by line: on each line the first `- ` and the rest of the line become one item. */
  function ListItems(s: string): (r: string)
    ensures r == ByLine(s, "- ", "<li>", "</li>")
  {
    MarkLinesByLine(s, "- ", "<li>", "</li>", 0);
    MarkLines(s, "- ", "<li>", "</li>")
  }

  /* ---------------------------------------------------------------------------------------------
   * Bold: the lazy `**(.*?)**`
   * ------------------------------------------------------------------------------------------- */

  /** A `**` starts at `k`. */
  predicate StarsAt(s: string, k: int)
  {
    0 <= k && k + 2 <= |s| && s[k] == '*' && s[k + 1] == '*'
  }

  /** `StarsAt` is the occurrence test for the two-character pattern `**`. */
  lemma StarsAtOccurs(s: string, k: int)
    ensures StarsAt(s, k) <==> OccursAt(s, "**", k)
  {
    if 0 <= k && k + 2 <= |s| {
      assert s[k..k + 2][0] == s[k] && s[k..k + 2][1] == s[k + 1];
      if s[k] == '*' && s[k + 1] == '*' {
        assert s[k..k + 2] == "**";
      }
    }
  }

  /**
   * The lazy `(.*?)` followed by `**`, started at `j`: the first `**` at or after `j` that starts
   * before a line terminator, or nothing when the line holds none.
   */
  function CloseFrom(s: string, j: nat): (r: Option<nat>)
    requires j <= |s|
    ensures r.Some? ==> j <= r.value && r.value + 2 <= |s|
    decreases |s| - j
  {
    if StarsAt(s, j) then Some(j)
    else if j == |s| || IsLineTerminator(s[j]) then None
    else CloseFrom(s, j + 1)
  }

  /** Laziness: `CloseFrom` picks the first `**` on the line from `j`, and finds nothing only when the line has none. */
  lemma {:induction false} CloseFromSpec(s: string, j: nat)
    requires j <= |s|
    ensures var r := CloseFrom(s, j); var e := LineEnd(s, j);
      (r.Some? ==> r.value < e && StarsAt(s, r.value) && forall k :: j <= k < r.value ==> !StarsAt(s, k)) &&
      (r.None? ==> forall k :: j <= k < e ==> !StarsAt(s, k))
    decreases |s| - j
  {
    if StarsAt(s, j) {
    } else if j < |s| && !IsLineTerminator(s[j]) {
      CloseFromSpec(s, j + 1);
    }
  }

  /** The replacement text of one bold span. */
  function Strong(x: string): string
  {
    "<strong>" + x + "</strong>"
  }

  /** A bold span opens at `i`: a `**` there, and a closing `**` further on the same line. */
  predicate Opens(s: string, i: nat) {
    StarsAt(s, i) && CloseFrom(s, i + 2).Some?
  }

  /** The scan of line 191's global bold replacement from position `i`: `**x**` becomes `<strong>x</strong>`. */
  function EmphasizeFrom(s: string, i: nat): string
    requires i <= |s|
    decreases |s| - i
  {
    if i == |s| then []
    else if Opens(s, i) then
      var k := CloseFrom(s, i + 2).value;
      Strong(s[i + 2..k]) + EmphasizeFrom(s, k + 2)
    else [s[i]] + EmphasizeFrom(s, i + 1)
  }

  /**
   * Line 191's bold step over the whole text: it never shortens the text, and a text in which no
   * span opens (no `**`, or none with a closing `**` on its line) comes out unchanged.
   */
  function Emphasize(s: string): (r: string)
    ensures |r| >= |s|
    ensures (forall k :: 0 <= k < |s| ==> !Opens(s, k)) ==> r == s
  {
    EmphasizeLonger(s, 0);
    EmphasizeKeeps(s);
    EmphasizeFrom(s, 0)
  }

  /** Each bold span grows by the thirteen characters of its tags beyond its four stars, so the bold scan never shortens the text. */
  lemma {:induction false} EmphasizeLonger(s: string, i: nat)
    requires i <= |s|
    ensures |EmphasizeFrom(s, i)| >= |s| - i
    decreases |s| - i
  {
    if i < |s| {
      if Opens(s, i) {
        var k := CloseFrom(s, i + 2).value;
        CloseFromSpec(s, i + 2);
        EmphasizeLonger(s, k + 2);
      } else {
        EmphasizeLonger(s, i + 1);
      }
    }
  }

  /** The bold scan over a text where no span opens copies it. */
  lemma EmphasizeKeeps(s: string)
    ensures (forall k :: 0 <= k < |s| ==> !Opens(s, k)) ==> EmphasizeFrom(s, 0) == s
  {
    if forall k :: 0 <= k < |s| ==> !Opens(s, k) {
      EmphasizeCopies(s, 0, |s|);
      assert EmphasizeFrom(s, |s|) == [];
      assert s[0..|s|] == s;
    }
  }

  /** Where no span opens in `[i, p)`, the bold scan copies `s[i..p]`. */
  lemma {:induction false} EmphasizeCopies(s: string, i: nat, p: nat)
    requires i <= p <= |s|
    requires forall k :: i <= k < p ==> !Opens(s, k)
    ensures EmphasizeFrom(s, i) == s[i..p] + EmphasizeFrom(s, p)
    decreases p - i
  {
    if i < p {
      EmphasizeCopies(s, i + 1, p);
      ConsAssoc(s[i], s[i + 1..p], EmphasizeFrom(s, p));
      assert [s[i]] + s[i + 1..p] == s[i..p];
    }
  }

  /** At a `**` whose line holds a closing `**` further on, the scan emits one strong span and resumes after the closing `**`. */
  lemma {:induction false} EmphasizeAt(s: string, i: nat, k: nat)
    requires i < |s| && StarsAt(s, i) && CloseFrom(s, i + 2) == Some(k)
    ensures EmphasizeFrom(s, i) == Strong(s[i + 2..k]) + EmphasizeFrom(s, k + 2)
  {
  }

  /**
   * A bold span is matched lazily: at the first `**` of the text, when the same line holds another
   * `**` at least two characters on, the text before is kept and the span runs to the nearest such one.
   */
  lemma EmphasizeFirstSpan(s: string, i: nat, k: nat)
    requires StarsAt(s, i) && forall p :: 0 <= p < i ==> !StarsAt(s, p)
    requires CloseFrom(s, i + 2) == Some(k)
    ensures Emphasize(s) == s[..i] + (Strong(s[i + 2..k]) + EmphasizeFrom(s, k + 2))
  {
    EmphasizeCopies(s, 0, i);
    EmphasizeAt(s, i, k);
    assert s[0..i] == s[..i];
  }

  /** The lazy close found from `p` in `s` is the one found from `p - i` in `s[i..]`, shifted by `i`. */
  lemma {:induction false} CloseShift(s: string, i: nat, p: nat)
    requires i <= p <= |s|
    ensures CloseFrom(s, p).Some? <==> CloseFrom(s[i..], p - i).Some?
    ensures CloseFrom(s, p).Some? ==> CloseFrom(s[i..], p - i).value + i == CloseFrom(s, p).value
    decreases |s| - p
  {
    var t := s[i..];
    if p + 2 <= |s| {
      assert t[p - i] == s[p] && t[p - i + 1] == s[p + 1];
    }
    if !StarsAt(s, p) && p < |s| {
      assert t[p - i] == s[p];
      if !IsLineTerminator(s[p]) {
        CloseShift(s, i, p + 1);
      }
    }
  }

  /** A span opens at `p` in `s` exactly when one opens at `p - i` in `s[i..]`, and it closes at the same place. */
  lemma OpensShift(s: string, i: nat, p: nat)
    requires i <= p <= |s|
    ensures Opens(s, p) <==> Opens(s[i..], p - i)
    ensures Opens(s, p) ==> CloseFrom(s[i..], p - i + 2).value + i == CloseFrom(s, p + 2).value
  {
    if p + 2 <= |s| {
      var t := s[i..];
      CloseShift(s, i, p + 2);
      assert t[p - i] == s[p] && t[p - i + 1] == s[p + 1];
    }
  }

  /** Past one span, the bold scans of `s` and of `s[i..]` agree from its start when they agree after its close. */
  lemma SpanShift(s: string, i: nat, p: nat, k: nat)
    requires i <= p < |s| && StarsAt(s, p) && CloseFrom(s, p + 2) == Some(k)
    requires EmphasizeFrom(s, k + 2) == EmphasizeFrom(s[i..], k + 2 - i)
    ensures EmphasizeFrom(s, p) == EmphasizeFrom(s[i..], p - i)
  {
    OpensShift(s, i, p);
    EmphasizeAt(s, p, k);
    EmphasizeAt(s[i..], p - i, k - i);
    assert k - i + 2 == k + 2 - i;
    assert s[i..][p - i + 2..k - i] == s[p + 2..k];
  }

  /** Past one copied character, the bold scans of `s` and of `s[i..]` agree from it when they agree after it. */
  lemma PlainShift(s: string, i: nat, p: nat)
    requires i <= p < |s| && !Opens(s, p)
    requires EmphasizeFrom(s, p + 1) == EmphasizeFrom(s[i..], p + 1 - i)
    ensures EmphasizeFrom(s, p) == EmphasizeFrom(s[i..], p - i)
  {
    OpensShift(s, i, p);
    assert s[i..][p - i] == s[p];
  }

  /** The bold scan from `p` in `s` is the scan from `p - i` in `s[i..]`: what came before `i` plays no part. */
  lemma {:induction false} EmphasizeShift(s: string, i: nat, p: nat)
    requires i <= p <= |s|
    ensures EmphasizeFrom(s, p) == EmphasizeFrom(s[i..], p - i)
    decreases |s| - p
  {
    if p < |s| {
      if Opens(s, p) {
        var k := CloseFrom(s, p + 2).value;
        EmphasizeShift(s, i, k + 2);
        SpanShift(s, i, p, k);
      } else {
        EmphasizeShift(s, i, p + 1);
        PlainShift(s, i, p);
      }
    }
  }

  /**
   * The bold step read span by span: where no span opens the text is unchanged, so a `**` without
   * a closing `**` on its line stays as text; at the first position where one opens, the text before
   * it is kept, the span up to its lazy close becomes `<strong>…</strong>`, and the same step goes on
   * over the rest of the text after the closing `**`.
   */
  lemma EmphasizeFirstOpen(s: string, i: nat)
    requires Opens(s, i) && forall p :: 0 <= p < i ==> !Opens(s, p)
    ensures var k := CloseFrom(s, i + 2).value;
      Emphasize(s) == s[..i] + (Strong(s[i + 2..k]) + Emphasize(s[k + 2..]))
  {
    var k := CloseFrom(s, i + 2).value;
    EmphasizeCopies(s, 0, i);
    EmphasizeAt(s, i, k);
    EmphasizeShift(s, k + 2, k + 2);
    assert k + 2 - (k + 2) == 0;
    assert s[0..i] == s[..i];
  }

  /** The content of a strong span holds neither a `**` nor a line terminator. */
  lemma StrongContent(s: string, j: nat, k: nat)
    requires j <= |s| && CloseFrom(s, j) == Some(k)
    ensures forall p :: j <= p < k ==> !StarsAt(s, p) && !IsLineTerminator(s[p])
  {
    CloseFromSpec(s, j);
    LineEndSpec(s, j);
  }

  /** No `*` in `t`. */
  predicate NoStar(t: string) {
    forall k :: 0 <= k < |t| ==> t[k] != '*'
  }

  /** Over characters that are neither `*` nor line terminators, the lazy close runs on to the next `**`. */
  lemma {:induction false} CloseFromReaches(s: string, j: nat, k: nat)
    requires j <= k && StarsAt(s, k)
    requires forall p :: j <= p < k ==> s[p] != '*' && !IsLineTerminator(s[p])
    ensures CloseFrom(s, j) == Some(k)
    decreases k - j
  {
    if j < k {
      CloseFromReaches(s, j + 1, k);
    }
  }

  /** The bold scan copies a stretch without `*`. */
  lemma EmphasizeCopiesPlain(s: string, i: nat, p: nat)
    requires i <= p <= |s| && forall k :: i <= k < p ==> s[k] != '*'
    ensures EmphasizeFrom(s, i) == s[i..p] + EmphasizeFrom(s, p)
  {
    EmphasizeCopies(s, i, p);
  }

  /** Where `c` sits in `s`, the characters are those of `c`. */
  lemma SpanContentPlain(s: string, i: nat, c: string)
    requires i + |c| <= |s| && s[i..i + |c|] == c && NoStar(c) && NoTerminator(c)
    ensures forall p :: i <= p < i + |c| ==> s[p] != '*' && !IsLineTerminator(s[p])
  {
    forall p | i <= p < i + |c| ensures s[p] != '*' && !IsLineTerminator(s[p]) {
      assert s[p] == c[p - i];
    }
  }

  /** After an opening `**`, content `c` without `*` or line breaks runs to the `**` that follows it. */
  lemma {:induction false} CloseOfSpan(s: string, i: nat, c: string)
    requires i + |c| <= |s| && s[i..i + |c|] == c && StarsAt(s, i + |c|)
    requires NoStar(c) && NoTerminator(c)
    ensures CloseFrom(s, i) == Some(i + |c|)
  {
    SpanContentPlain(s, i, c);
    CloseFromReaches(s, i, i + |c|);
  }

  /** The strong span at `o`, with content `c` closed at `k`; the scan resumes at `e`. */
  lemma {:induction false} StrongSpan(s: string, o: nat, c: string, k: nat, e: nat)
    requires k == o + 2 + |c| && e == k + 2 && e <= |s|
    requires StarsAt(s, o) && s[o + 2..k] == c && StarsAt(s, k)
    requires NoStar(c) && NoTerminator(c)
    ensures EmphasizeFrom(s, o) == Strong(c) + EmphasizeFrom(s, e)
  {
    CloseOfSpan(s, o + 2, c);
    EmphasizeAt(s, o, k);
  }

  /** The four pieces of `**a**mid**b**`, read off by position. */
  lemma TwoSpansLayout(s: string, a: string, mid: string, b: string)
    requires s == "**" + a + "**" + mid + "**" + b + "**"
    ensures var o2 := |a| + 4 + |mid|;
      |s| == o2 + |b| + 4 &&
      StarsAt(s, 0) && s[2..2 + |a|] == a && StarsAt(s, 2 + |a|) &&
      s[|a| + 4..o2] == mid &&
      StarsAt(s, o2) && s[o2 + 2..o2 + 2 + |b|] == b && StarsAt(s, o2 + 2 + |b|)
  {
  }

  /**
   * Line 191 is lazy: `**a** and **b**` gives two separate strong spans, not one running from the
   * first `**` to the last. In general, for `a` and `b` without `*` or line breaks and `mid`
   * without `*`, `**a**mid**b**` becomes `<strong>a</strong>mid<strong>b</strong>`.
   */
  lemma TwoStrongSpans(a: string, mid: string, b: string)
    requires NoStar(a) && NoStar(mid) && NoStar(b) && NoTerminator(a) && NoTerminator(b)
    ensures Emphasize("**" + a + "**" + mid + "**" + b + "**") == Strong(a) + mid + Strong(b)
  {
    TwoSpansLayout("**" + a + "**" + mid + "**" + b + "**", a, mid, b);
    TwoSpansIn("**" + a + "**" + mid + "**" + b + "**", a, mid, b, |a| + 4 + |mid|);
  }

  /** The two spans and the plain stretch between them, given only where the pieces sit in `s`. */
  lemma {:induction false} TwoSpansIn(s: string, a: string, mid: string, b: string, o2: nat)
    requires o2 == |a| + 4 + |mid| && |s| == o2 + |b| + 4
    requires StarsAt(s, 0) && s[2..2 + |a|] == a && StarsAt(s, 2 + |a|)
    requires s[|a| + 4..o2] == mid
    requires StarsAt(s, o2) && s[o2 + 2..o2 + 2 + |b|] == b && StarsAt(s, o2 + 2 + |b|)
    requires NoStar(a) && NoStar(mid) && NoStar(b) && NoTerminator(a) && NoTerminator(b)
    ensures Emphasize(s) == Strong(a) + mid + Strong(b)
  {
    SpanThenPlain(s, a, mid, o2);
    LastSpan(s, o2, b);
  }

  /** The first span, then the plain stretch up to `o2`. */
  lemma {:induction false} SpanThenPlain(s: string, a: string, mid: string, o2: nat)
    requires o2 == |a| + 4 + |mid| && o2 <= |s|
    requires StarsAt(s, 0) && s[2..2 + |a|] == a && StarsAt(s, 2 + |a|)
    requires s[|a| + 4..o2] == mid
    requires NoStar(a) && NoStar(mid) && NoTerminator(a)
    ensures EmphasizeFrom(s, 0) == Strong(a) + mid + EmphasizeFrom(s, o2)
  {
    StrongSpan(s, 0, a, 2 + |a|, |a| + 4);
    PlainStretch(s, |a| + 4, mid, o2);
  }

  /** A span that closes at the very end of `s` is the whole rest of the output. */
  lemma {:induction false} LastSpan(s: string, o: nat, c: string)
    requires |s| == o + |c| + 4
    requires StarsAt(s, o) && s[o + 2..o + 2 + |c|] == c && StarsAt(s, o + 2 + |c|)
    requires NoStar(c) && NoTerminator(c)
    ensures EmphasizeFrom(s, o) == Strong(c)
  {
    StrongSpan(s, o, c, o + 2 + |c|, |s|);
    assert EmphasizeFrom(s, |s|) == [];
  }

  /** A stretch `m` without `*` is copied unchanged by the bold scan, which resumes at `e`. */
  lemma {:induction false} PlainStretch(s: string, i: nat, m: string, e: nat)
    requires e == i + |m| && e <= |s| && s[i..e] == m && NoStar(m)
    ensures EmphasizeFrom(s, i) == m + EmphasizeFrom(s, e)
  {
    forall k | i <= k < e ensures s[k] != '*' {
      assert s[k] == m[k - i];
    }
    EmphasizeCopiesPlain(s, i, e);
  }

  /* ---------------------------------------------------------------------------------------------
   * Paragraph breaks: `.replace(/\n\n/g, '</p><p>')`
   * ------------------------------------------------------------------------------------------- */

  /** No two consecutive line feeds in `s` from position `i` on. */
  predicate NoBlankLineFrom(s: string, i: nat) {
    forall k :: i <= k < |s| - 1 ==> !(s[k] == '\n' && s[k + 1] == '\n')
  }

  predicate NoBlankLine(s: string) {
    NoBlankLineFrom(s, 0)
  }

  lemma NoBlankLineConcat(a: string, b: string)
    requires NoBlankLine(a) && NoBlankLine(b)
    requires !(a != [] && b != [] && a[|a| - 1] == '\n' && b[0] == '\n')
    ensures NoBlankLine(a + b)
  {
    var ab := a + b;
    forall k | 0 <= k < |ab| - 1 ensures !(ab[k] == '\n' && ab[k + 1] == '\n') {
      if k + 1 < |a| {
        assert ab[k] == a[k] && ab[k + 1] == a[k + 1];
      } else if k >= |a| {
        assert ab[k] == b[k - |a|] && ab[k + 1] == b[k + 1 - |a|];
      }
    }
  }

  lemma TwoFeeds(s: string, i: nat)
    requires i + 1 < |s|
    ensures OccursAt(s, "\n\n", i) <==> s[i] == '\n' && s[i + 1] == '\n'
  {
    if s[i] == '\n' && s[i + 1] == '\n' {
      assert s[i..i + 2] == "\n\n";
    }
  }

  /** The scan of line 192 from position `i`; matches do not overlap, so `"\n\n\n"` keeps its last line feed. */
  function BreaksFrom(s: string, i: nat): string
    requires i <= |s|
    decreases |s| - i
  {
    if i == |s| then []
    else if OccursAt(s, "\n\n", i) then "</p><p>" + BreaksFrom(s, i + 2)
    else [s[i]] + BreaksFrom(s, i + 1)
  }

  /**
   * Line 192's paragraph step over the whole text: it leaves no blank line behind, even after a run
   * of three line feeds; it never shortens the text; and it changes the text exactly when the text
   * holds a blank line.
   */
  function ParagraphBreaks(s: string): (r: string)
    ensures NoBlankLine(r)
    ensures |r| >= |s|
    ensures r == s <==> NoBlankLine(s)
  {
    BreaksNoBlankLine(s, 0);
    BreaksLonger(s, 0);
    BreaksChangesIff(s, 0);
    assert s[0..] == s;
    BreaksFrom(s, 0)
  }

  /** The paragraph scan from `i + j` in `s` is the scan from `j` in `s[i..]`. */
  lemma {:induction false} BreaksShift(s: string, i: nat, j: nat)
    requires i + j <= |s|
    ensures BreaksFrom(s, i + j) == BreaksFrom(s[i..], j)
    decreases |s| - i - j
  {
    var t := s[i..];
    if i + j < |s| {
      assert OccursAt(s, "\n\n", i + j) <==> OccursAt(t, "\n\n", j) by {
        if i + j + 2 <= |s| {
          assert t[j..j + 2] == s[i + j..i + j + 2];
        }
      }
      if OccursAt(s, "\n\n", i + j) {
        BreaksShift(s, i, j + 2);
      } else {
        assert t[j] == s[i + j];
        BreaksShift(s, i, j + 1);
      }
    }
  }

  /** After the paragraph step the text holds no `"\n\n"`; a line feed it starts with is a lone one of the input. */
  lemma {:induction false} BreaksNoBlankLine(s: string, i: nat)
    requires i <= |s|
    ensures NoBlankLine(BreaksFrom(s, i))
    ensures var r := BreaksFrom(s, i); r != [] && r[0] == '\n' ==> i < |s| && s[i] == '\n' && !OccursAt(s, "\n\n", i)
    decreases |s| - i
  {
    if i < |s| {
      if OccursAt(s, "\n\n", i) {
        BreaksNoBlankLine(s, i + 2);
        NoBlankLineConcat("</p><p>", BreaksFrom(s, i + 2));
      } else {
        BreaksNoBlankLine(s, i + 1);
        var rest := BreaksFrom(s, i + 1);
        if i + 1 < |s| {
          TwoFeeds(s, i);
        }
        NoBlankLineConcat([s[i]], rest);
      }
    }
  }

  /** The paragraph step never shortens the text. */
  lemma {:induction false} BreaksLonger(s: string, i: nat)
    requires i <= |s|
    ensures |BreaksFrom(s, i)| >= |s| - i
    decreases |s| - i
  {
    if i < |s| {
      if OccursAt(s, "\n\n", i) {
        BreaksLonger(s, i + 2);
      } else {
        BreaksLonger(s, i + 1);
      }
    }
  }

  /** The absence of a blank line, one position at a time. */
  lemma NoBlankLineStep(s: string, i: nat)
    requires i < |s|
    ensures NoBlankLineFrom(s, i) <==> NoBlankLineFrom(s, i + 1) && !(i + 1 < |s| && s[i] == '\n' && s[i + 1] == '\n')
  {
  }

  /** Two texts with the same first character are equal exactly when their rests are. */
  lemma ConsEqual(c: char, a: string, b: string)
    ensures [c] + a == [c] + b <==> a == b
  {
    if [c] + a == [c] + b {
      assert a == ([c] + a)[1..] && b == ([c] + b)[1..];
    }
  }

  /** The paragraph step changes a text exactly when it holds a blank line. */
  lemma {:induction false} BreaksChangesIff(s: string, i: nat)
    requires i <= |s|
    ensures BreaksFrom(s, i) == s[i..] <==> NoBlankLineFrom(s, i)
    decreases |s| - i
  {
    if i < |s| {
      if OccursAt(s, "\n\n", i) {
        BreaksAtBlank(s, i);
      } else {
        BreaksChangesIff(s, i + 1);
        BreaksPastChar(s, i);
      }
    }
  }

  /** At a blank line the output starts with `<` where the input has a line feed, and the input has a blank line. */
  lemma BreaksAtBlank(s: string, i: nat)
    requires i < |s| && OccursAt(s, "\n\n", i)
    ensures BreaksFrom(s, i) != s[i..] && !NoBlankLineFrom(s, i)
  {
    TwoFeeds(s, i);
    assert BreaksFrom(s, i)[0] == '<' && s[i..][0] == '\n';
  }

  /** Past a character that starts no blank line, both sides of the equivalence move on by one. */
  lemma BreaksPastChar(s: string, i: nat)
    requires i < |s| && !OccursAt(s, "\n\n", i)
    ensures BreaksFrom(s, i) == s[i..] <==> BreaksFrom(s, i + 1) == s[i + 1..]
    ensures NoBlankLineFrom(s, i) <==> NoBlankLineFrom(s, i + 1)
  {
    assert s[i..] == [s[i]] + s[i + 1..];
    ConsEqual(s[i], BreaksFrom(s, i + 1), s[i + 1..]);
    NoBlankLineStep(s, i);
    if i + 1 < |s| {
      TwoFeeds(s, i);
    }
  }

  /**
   * The paragraph step read match by match: without a `"\n\n"` the text is unchanged; otherwise the
   * text before the first one is kept, that `"\n\n"` becomes `</p><p>`, and the same step goes on
   * over the rest of the text after it.
   */
  lemma ParagraphBreaksFirst(s: string)
    ensures match FirstOccurrence(s, "\n\n")
      case None => ParagraphBreaks(s) == s
      case Some(i) => ParagraphBreaks(s) == s[..i] + "</p><p>" + ParagraphBreaks(s[i + 2..])
  {
    FirstFromSpec(s, "\n\n", 0);
    match FirstOccurrence(s, "\n\n")
    case None =>
      BreaksCopies(s, 0, |s|);
      assert s[0..|s|] == s;
    case Some(i) =>
      BreaksCopies(s, 0, i);
      BreaksShift(s, i + 2, 0);
      assert s[0..i] == s[..i];
  }

  /* ---------------------------------------------------------------------------------------------
   * List wrapping: `.replace(/(<li>.*<\/li>)/gs, '<ul>$1</ul>')`
   * ------------------------------------------------------------------------------------------- */

  /**
   * Whether line 196's pattern matches at `p`: `<li>` there, and (with the `s` flag `.` crosses
   * lines, and greedy `.*` backs off only as far as it must) some `</li>` at least four characters on,
   * so that the match ends after the last `</li>` of the text.
   */
  predicate ListMatchAt(s: string, p: nat) {
    OccursAt(s, "<li>", p) && LastOccurrence(s, "</li>").Some? && p + 4 <= LastOccurrence(s, "</li>").value
  }

  /** The scan of line 196 from position `i`. */
  function WrapFrom(s: string, i: nat): string
    requires i <= |s|
    decreases |s| - i
  {
    if i == |s| then []
    else if ListMatchAt(s, i) then
      var e := LastOccurrence(s, "</li>").value + 5;
      "<ul>" + s[i..e] + "</ul>" + WrapFrom(s, e)
    else [s[i]] + WrapFrom(s, i + 1)
  }

  /**
   * Line 196's list step over the whole text. It inserts at most one `<ul>`…`</ul>` pair: `<ul>`
   * before the first `<li>` and `</ul>` after the last `</li>`, when that `</li>` comes after the
   * `<li>`; every other character is kept, in order. Otherwise the text is unchanged.
   */
  function WrapLists(s: string): (r: string)
    ensures var i := FirstOccurrence(s, "<li>"); var j := LastOccurrence(s, "</li>");
      if i.Some? && j.Some? && i.value + 4 <= j.value then
        r == s[..i.value] + ("<ul>" + s[i.value..j.value + 5] + "</ul>" + s[j.value + 5..])
      else r == s
  {
    WrapListsSpan(s);
    WrapFrom(s, 0)
  }

  /** Where no match starts in `[i, p)`, the list scan copies `s[i..p]`. */
  lemma {:induction false} WrapCopies(s: string, i: nat, p: nat)
    requires i <= p <= |s|
    requires forall k :: i <= k < p ==> !ListMatchAt(s, k)
    ensures WrapFrom(s, i) == s[i..p] + WrapFrom(s, p)
    decreases p - i
  {
    if i < p {
      WrapCopies(s, i + 1, p);
      ConsAssoc(s[i], s[i + 1..p], WrapFrom(s, p));
      assert [s[i]] + s[i + 1..p] == s[i..p];
    }
  }

  /** The list scan from the start, split by whether the first `<li>` precedes the last `</li>`. */
  lemma WrapListsSpan(s: string)
    ensures var i := FirstOccurrence(s, "<li>"); var j := LastOccurrence(s, "</li>");
      if i.Some? && j.Some? && i.value + 4 <= j.value then
        WrapFrom(s, 0) == s[..i.value] + ("<ul>" + s[i.value..j.value + 5] + "</ul>" + s[j.value + 5..])
      else WrapFrom(s, 0) == s
  {
    var i := FirstOccurrence(s, "<li>");
    var j := LastOccurrence(s, "</li>");
    if i.Some? && j.Some? && i.value + 4 <= j.value {
      WrapListsMatch(s, i.value, j.value);
    } else {
      WrapListsNoMatch(s);
    }
  }

  /** Where the first `<li>` precedes the last `</li>`, both ends of the one match are found. */
  lemma WrapListsMatch(s: string, i: nat, j: nat)
    requires FirstOccurrence(s, "<li>") == Some(i) && LastOccurrence(s, "</li>") == Some(j) && i + 4 <= j
    ensures WrapFrom(s, 0) == s[..i] + ("<ul>" + s[i..j + 5] + "</ul>" + s[j + 5..])
  {
    FirstFromSpec(s, "<li>", 0);
    WrapCopies(s, 0, i);
    WrapRest(s, j);
    assert WrapFrom(s, i) == "<ul>" + s[i..j + 5] + "</ul>" + WrapFrom(s, j + 5);
    assert s[0..i] == s[..i];
  }

  /** After the last `</li>` the list scan copies the rest of the text. */
  lemma WrapRest(s: string, j: nat)
    requires LastOccurrence(s, "</li>") == Some(j)
    ensures WrapFrom(s, j + 5) == s[j + 5..]
  {
    WrapCopies(s, j + 5, |s|);
    assert WrapFrom(s, |s|) == [];
  }

  /** Without a `<li>` before the last `</li>` the list scan changes nothing. */
  lemma WrapListsNoMatch(s: string)
    requires var i := FirstOccurrence(s, "<li>"); var j := LastOccurrence(s, "</li>");
      !(i.Some? && j.Some? && i.value + 4 <= j.value)
    ensures WrapFrom(s, 0) == s
  {
    FirstFromSpec(s, "<li>", 0);
    WrapCopies(s, 0, |s|);
    assert WrapFrom(s, |s|) == [];
  }

  /* ---------------------------------------------------------------------------------------------
   * The whole formatter
   * ------------------------------------------------------------------------------------------- */

  /** Lines 199-201: a text not starting with `<h3>` is wrapped in one paragraph. */
  function WrapParagraph(s: string): (r: string)
    ensures r == s <==> "<h3>" <= s
    ensures "<h3>" <= r || ("<p>" <= r && EndsWith(r, "</p>"))
    ensures r == s || r == "<p>" + s + "</p>"
  {
    if "<h3>" <= s then s else "<p>" + s + "</p>"
  }

  /** `displayResults`'s formatting (lines 188-201): the replacements in their source order, then the wrap. */
  function FormatSummary(summary: string): (r: string)
    ensures "<h3>" <= r || ("<p>" <= r && EndsWith(r, "</p>"))
  {
    var headed := Headings(summary);
    var bold := Emphasize(headed);
    var paragraphs := ParagraphBreaks(bold);
    var items := ListItems(paragraphs);
    var lists := WrapLists(items);
    WrapParagraph(lists)
  }

  /** Text in which none of the formatter's patterns occurs, and which does not open with a heading tag. */
  predicate NoMarkup(s: string) {
    (forall k :: 0 <= k < |s| ==> !OccursAt(s, "### ", k)) && (forall k :: 0 <= k < |s| ==> !OccursAt(s, "## ", k)) &&
    (forall k :: 0 <= k < |s| ==> !StarsAt(s, k)) && NoBlankLine(s) &&
    (forall k :: 0 <= k < |s| ==> !OccursAt(s, "- ", k)) && (forall k :: 0 <= k < |s| ==> !OccursAt(s, "<li>", k)) &&
    !("<h3>" <= s)
  }

  /** A marker scan over a text without the marker copies it. */
  lemma MarkLinesKeeps(s: string, marker: string, open: string, close: string)
    requires marker != [] && forall k :: 0 <= k < |s| ==> !OccursAt(s, marker, k)
    ensures MarkLines(s, marker, open, close) == s
  {
    MarkFromCopies(s, marker, open, close, 0, |s|);
    assert MarkFrom(s, marker, open, close, |s|) == [];
    assert s[0..|s|] == s;
  }

  /** The list wrap over a text without `<li>` copies it. */
  lemma WrapListsKeeps(s: string)
    requires forall k :: 0 <= k < |s| ==> !OccursAt(s, "<li>", k)
    ensures WrapLists(s) == s
  {
    FirstFromSpec(s, "<li>", 0);
  }

  /**
   * Plain prose passes through every replacement untouched and comes out as one paragraph:
   * the formatter adds markup only where the summary has a marker.
   */
  lemma PlainTextIsOneParagraph(s: string)
    requires NoMarkup(s)
    ensures FormatSummary(s) == "<p>" + s + "</p>"
  {
    MarkLinesKeeps(s, "### ", "<h3>", "</h3>");
    MarkLinesKeeps(s, "## ", "<h3>", "</h3>");
    MarkLinesKeeps(s, "- ", "<li>", "</li>");
    WrapListsKeeps(s);
  }

  /** Where no blank line starts in `[i, p)`, the paragraph scan copies `s[i..p]`. */
  lemma {:induction false} BreaksCopies(s: string, i: nat, p: nat)
    requires i <= p <= |s|
    requires forall k :: i <= k < p ==> !OccursAt(s, "\n\n", k)
    ensures BreaksFrom(s, i) == s[i..p] + BreaksFrom(s, p)
    decreases p - i
  {
    if i < p {
      BreaksCopies(s, i + 1, p);
      ConsAssoc(s[i], s[i + 1..p], BreaksFrom(s, p));
      assert [s[i]] + s[i + 1..p] == s[i..p];
    }
  }

  /** Where a pattern occurs, the text holds the pattern's characters. */
  lemma OccursChar(s: string, pat: string, k: nat, j: nat)
    requires j < |pat|
    ensures OccursAt(s, pat, k) ==> s[k + j] == pat[j]
  {
    if OccursAt(s, pat, k) {
      assert s[k..k + |pat|][j] == s[k + j];
    }
  }

  /** The four characters of `<h3>` start no marker that begins with `#` or `-`. */
  lemma MarkKeepsHeadingTag(s: string, marker: string, open: string, close: string)
    requires "<h3>" <= s && marker != [] && (marker[0] == '#' || marker[0] == '-')
    ensures "<h3>" <= MarkLines(s, marker, open, close)
  {
    forall k | 0 <= k < 4 ensures !OccursAt(s, marker, k) {
      OccursChar(s, marker, k, 0);
    }
    MarkFromCopies(s, marker, open, close, 0, 4);
    assert s[0..4] == "<h3>";
  }

  lemma EmphasizeKeepsHeadingTag(s: string)
    requires "<h3>" <= s
    ensures "<h3>" <= Emphasize(s)
  {
    EmphasizeCopies(s, 0, 4);
    assert s[0..4] == "<h3>";
  }

  lemma BreaksKeepHeadingTag(s: string)
    requires "<h3>" <= s
    ensures "<h3>" <= ParagraphBreaks(s)
  {
    forall k | 0 <= k < 4 ensures !OccursAt(s, "\n\n", k) {
      OccursChar(s, "\n\n", k, 0);
    }
    BreaksCopies(s, 0, 4);
    assert s[0..4] == "<h3>";
  }

  lemma WrapKeepsHeadingTag(s: string)
    requires "<h3>" <= s
    ensures "<h3>" <= WrapLists(s)
  {
    forall k | 0 <= k < 4 ensures !ListMatchAt(s, k) {
      OccursChar(s, "<li>", k, 0);
      OccursChar(s, "<li>", k, 1);
    }
    WrapCopies(s, 0, 4);
    assert s[0..4] == "<h3>";
  }

  /** At a `### ` at the very start, the first replacement opens the text with `<h3>`. */
  lemma HeadingTagFirst(s: string)
    requires "### " <= s
    ensures "<h3>" <= Headings(s)
  {
    assert OccursAt(s, "### ", 0);
    var first := MarkLines(s, "### ", "<h3>", "</h3>");
    assert first == "<h3>" + s[4..LineEnd(s, 4)] + "</h3>" + MarkFrom(s, "### ", "<h3>", "</h3>", LineEnd(s, 4));
    assert first[..4] == "<h3>";
    MarkKeepsHeadingTag(first, "## ", "<h3>", "</h3>");
  }

  /**
   * A summary that opens with a `### ` heading keeps the leading `<h3>` through every later
   * replacement, so line 199's test sees it and no paragraph is wrapped around the text.
   */
  lemma HeadingFirstNotWrapped(s: string)
    requires "### " <= s
    ensures "<h3>" <= FormatSummary(s) && !("<p>" <= FormatSummary(s))
  {
    HeadingTagFirst(s);
    EmphasizeKeepsHeadingTag(Headings(s));
    BreaksKeepHeadingTag(Emphasize(Headings(s)));
    MarkKeepsHeadingTag(ParagraphBreaks(Emphasize(Headings(s))), "- ", "<li>", "</li>");
    WrapKeepsHeadingTag(ListItems(ParagraphBreaks(Emphasize(Headings(s)))));
    assert FormatSummary(s) == WrapLists(ListItems(ParagraphBreaks(Emphasize(Headings(s)))));
    assert FormatSummary(s)[1] == 'h';
  }
}
