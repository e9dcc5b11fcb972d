/**
 * The four section patterns of the command parsers, with the meaning a
 * JavaScript regular expression gives them:
 *
 *   /##\s*Purpose\s*\n([^\n]+)/     /##\s*Usage\s*\n`([^`]+)`/
 *   /##\s*Speed\s*\n([^\n]+)/       /##\s*When to use\s*\n([^\n]+)/
 *
 * `match` returns the leftmost match, and for that start the greedy `\s*`
 * backtracks to the longest run that still lets the rest match. The server
 * reader uses the patterns as written; the web portal adds the `i` flag.
 * The captured group is then `trim`med.
 */
module Sections {
  import opened Wrappers
  import opened Text
  import opened Seqs

  datatype Section = Purpose | Usage | Speed | WhenToUse

  function Heading(sec: Section): string {
    match sec
    case Purpose => "Purpose"
    case Usage => "Usage"
    case Speed => "Speed"
    case WhenToUse => "When to use"
  }

  /** One pattern character against one text character; with the `i` flag ASCII letters match either case. */
  predicate CharMatches(c: char, h: char, ignoreCase: bool) {
    if ignoreCase then UpperChar(c) == UpperChar(h) else c == h
  }

  predicate HeadingAt(s: string, k: nat, h: string, ignoreCase: bool) {
    k + |h| <= |s| && forall t :: 0 <= t < |h| ==> CharMatches(s[k + t], h[t], ignoreCase)
  }

  /** `\n([^\n]+)` can match at `q`: a line feed followed by at least one other character. */
  predicate LineBreakAt(s: string, q: nat) {
    q + 1 < |s| && s[q] == '\n' && s[q + 1] != '\n'
  }

  /** The greatest `q` in `[lo, hi)` where `\n([^\n]+)` matches: the choice greedy backtracking makes. */
  function LastLineBreak(s: string, lo: nat, hi: nat): (r: Option<nat>)
    requires lo <= hi <= |s|
    ensures r.Some? ==> lo <= r.value < hi && LineBreakAt(s, r.value)
    ensures r.Some? ==> forall q :: r.value < q < hi ==> !LineBreakAt(s, q)
    ensures r.None? ==> forall q :: lo <= q < hi ==> !LineBreakAt(s, q)
    decreases hi - lo
  {
    if hi == lo then None
    else if LineBreakAt(s, hi - 1) then Some(hi - 1)
    else LastLineBreak(s, lo, hi - 1)
  }

  /** The first backtick at or after `i`, or `|s|`. */
  function NextBacktick(s: string, i: nat): (j: nat)
    requires i <= |s|
    ensures i <= j <= |s|
    ensures j == |s| || s[j] == '`'
    ensures forall k :: i <= k < j ==> s[k] != '`'
    decreases |s| - i
  {
    if i == |s| || s[i] == '`' then i else NextBacktick(s, i + 1)
  }

  /** `\s*\n`([^`]+)`` after the heading ends at `m`. The `\n` must be the last
      character of the whitespace run, because the backtick after it is not whitespace. */
  function UsageCapture(s: string, m: nat): (r: Option<string>)
    requires m <= |s|
    ensures r.Some? ==> r.value != [] && '`' !in r.value
  {
    var e := SkipSpace(s, m);
    if m < e < |s| && s[e - 1] == '\n' && s[e] == '`' then
      var c := NextBacktick(s, e + 1);
      if e + 1 < c < |s| then
        Some(s[e + 1..c])
      else None
    else None
  }

  /** `\s*\n([^\n]+)` after the heading ends at `m`: the rest of the line after
      the last usable line feed of the whitespace run. */
  function LineCapture(s: string, m: nat): (r: Option<string>)
    requires m <= |s|
    ensures r.Some? ==> r.value != [] && '\n' !in r.value
  {
    var e := SkipSpace(s, m);
    match LastLineBreak(s, m, e)
    case None => None
    case Some(q) =>
      var z := LineEnd(s, q + 1);
      Some(s[q + 1..z])
  }

  /** The text of capture group 1 when the pattern for `sec` matches starting at position `i`. */
  function CaptureAt(s: string, i: nat, sec: Section, ignoreCase: bool): (r: Option<string>)
    requires i <= |s|
    ensures r.Some? ==> i + 2 <= |s| && s[i] == '#' && s[i + 1] == '#'
    ensures r.Some? ==> r.value != []
    ensures r.Some? && sec == Usage ==> '`' !in r.value
    ensures r.Some? && sec != Usage ==> '\n' !in r.value
  {
    if i + 2 > |s| || s[i] != '#' || s[i + 1] != '#' then None
    else
      // `\s*` before the heading can only stop where the heading's first letter starts.
      var k := SkipSpace(s, i + 2);
      if !HeadingAt(s, k, Heading(sec), ignoreCase) then None
      else if sec == Usage then UsageCapture(s, k + |Heading(sec)|)
      else LineCapture(s, k + |Heading(sec)|)
  }

  /** Where `s.match(pattern)` matches, scanning from `i`: the leftmost start with a capture. */
  function FirstMatch(s: string, sec: Section, ignoreCase: bool, i: nat): (r: Option<nat>)
    requires i <= |s|
    ensures r.Some? ==> i <= r.value <= |s| && CaptureAt(s, r.value, sec, ignoreCase).Some?
    ensures r.Some? ==> forall j :: i <= j < r.value ==> CaptureAt(s, j, sec, ignoreCase).None?
    ensures r.None? ==> forall j :: i <= j <= |s| ==> CaptureAt(s, j, sec, ignoreCase).None?
  {
    MatchesAtMeans(s, sec, ignoreCase);
    FirstAt(MatchesAt(s, sec, ignoreCase), i, |s|)
  }

  /** Whether the pattern for `sec` matches starting at `j`. */
  function MatchesAt(s: string, sec: Section, ignoreCase: bool): nat -> bool {
    (j: nat) => j <= |s| && CaptureAt(s, j, sec, ignoreCase).Some?
  }

  lemma MatchesAtMeans(s: string, sec: Section, ignoreCase: bool)
    ensures forall j: nat :: j <= |s| ==> (MatchesAt(s, sec, ignoreCase)(j) <==> CaptureAt(s, j, sec, ignoreCase).Some?)
  {
  }

  /** `s.match(pattern)?.[1]?.trim()`: the section's value, absent when the pattern matches nowhere. */
  function SectionValue(s: string, sec: Section, ignoreCase: bool): (r: Option<string>)
    ensures r.None? <==> forall j :: 0 <= j <= |s| ==> CaptureAt(s, j, sec, ignoreCase).None?
    ensures r.Some? ==> r.value == [] || (!IsSpace(r.value[0]) && !IsSpace(r.value[|r.value| - 1]))
    ensures r.Some? && sec == Usage ==> '`' !in r.value
    ensures r.Some? && sec != Usage ==> '\n' !in r.value
  {
    match FirstMatch(s, sec, ignoreCase, 0)
    case None => None
    case Some(j) =>
      var v := CaptureAt(s, j, sec, ignoreCase).value;
      TrimWithin(v);
      Some(Trim(v))
  }

  /** A case-sensitive match is also a case-insensitive match, with the same capture. */
  lemma CaseSensitiveMatchAlsoInsensitive(s: string, i: nat, sec: Section)
    requires i <= |s|
    requires CaptureAt(s, i, sec, false).Some?
    ensures CaptureAt(s, i, sec, true) == CaptureAt(s, i, sec, false)
  {
    var k := SkipSpace(s, i + 2);
    assert HeadingAt(s, k, Heading(sec), false);
    assert HeadingAt(s, k, Heading(sec), true);
  }

  /**
   * Every section the server reader (case-sensitive) finds, the web portal
   * reader (case-insensitive) finds too; the portal may find it at an
   * earlier heading that differs only in letter case.
   */
  lemma PortalFindsServerSections(s: string, sec: Section)
    requires SectionValue(s, sec, false).Some?
    ensures SectionValue(s, sec, true).Some?
  {
    var j :| 0 <= j <= |s| && CaptureAt(s, j, sec, false).Some?;
    CaseSensitiveMatchAlsoInsensitive(s, j, sec);
  }

  /** `pre` holds no `##`, so no match can start inside it. */
  predicate NoDoubleHash(pre: string) {
    forall j :: 0 <= j < |pre| - 1 ==> !(pre[j] == '#' && pre[j + 1] == '#')
  }

  /** No match starts inside a prefix free of `##` when the text after it opens with `##`. */
  lemma NoMatchBefore(pre: string, s: string, sec: Section, ignoreCase: bool)
    requires NoDoubleHash(pre)
    requires |pre| + 2 <= |s| && s[..|pre|] == pre
    requires s[|pre|] == '#' && s[|pre| + 1] == '#'
    ensures forall j :: 0 <= j < |pre| ==> CaptureAt(s, j, sec, ignoreCase).None?
  {
    forall j | 0 <= j < |pre| ensures CaptureAt(s, j, sec, ignoreCase).None? {
      if j < |pre| - 1 {
        assert s[j] == pre[j] && s[j + 1] == pre[j + 1];
      } else {
        assert s[j] == pre[j];
        assert SkipSpace(s, j + 2) == j + 2;
        assert !CharMatches(s[j + 2], Heading(sec)[0], ignoreCase);
      }
    }
  }

  /** `## ` followed by the heading text at `n` matches the heading part of the pattern. */
  lemma HeadingMatches(s: string, n: nat, sec: Section, ignoreCase: bool)
    requires n + 3 + |Heading(sec)| <= |s|
    requires s[n] == '#' && s[n + 1] == '#' && s[n + 2] == ' '
    requires forall t :: 0 <= t < |Heading(sec)| ==> s[n + 3 + t] == Heading(sec)[t]
    ensures SkipSpace(s, n + 2) == n + 3
    ensures HeadingAt(s, n + 3, Heading(sec), ignoreCase)
  {
    assert s[n + 3] == Heading(sec)[0];
  }

  /** Once the heading matches at `n + 3`, the capture is what follows the heading. */
  lemma CaptureAfterHeading(s: string, n: nat, sec: Section, ignoreCase: bool)
    requires n + 2 <= |s| && s[n] == '#' && s[n + 1] == '#'
    requires SkipSpace(s, n + 2) == n + 3 && HeadingAt(s, n + 3, Heading(sec), ignoreCase)
    ensures sec == Usage ==> CaptureAt(s, n, sec, ignoreCase) == UsageCapture(s, n + 3 + |Heading(sec)|)
    ensures sec != Usage ==> CaptureAt(s, n, sec, ignoreCase) == LineCapture(s, n + 3 + |Heading(sec)|)
  {
  }

  /** A line feed at `m` followed by a non-blank line `p` captures exactly `p`. */
  lemma LineCaptureOf(s: string, m: nat, p: string)
    requires m + 1 + |p| <= |s| && s[m] == '\n'
    requires forall t :: 0 <= t < |p| ==> s[m + 1 + t] == p[t]
    requires '\n' !in p && !IsBlank(p)
    requires m + 1 + |p| < |s| ==> s[m + 1 + |p|] == '\n'
    ensures LineCapture(s, m) == Some(p)
  {
    var t0 :| 0 <= t0 < |p| && !IsSpace(p[t0]);
    var e := SkipSpace(s, m);
    assert s[m + 1 + t0] == p[t0];
    assert e <= m + 1 + t0;
    assert s[m + 1] == p[0];
    assert LineBreakAt(s, m);
    forall q | m < q < e ensures !LineBreakAt(s, q) {
      assert s[q] == p[q - m - 1];
    }
    assert LastLineBreak(s, m, e) == Some(m);
    var z := LineEnd(s, m + 1);
    forall k | m + 1 <= k < m + 1 + |p| ensures s[k] != '\n' {
      assert s[k] == p[k - m - 1];
    }
    assert z == m + 1 + |p|;
    assert s[m + 1..z] == p;
  }

  /** A backtick at `m + 1` after a line feed at `m`, then `u`, then a backtick, captures exactly `u`. */
  lemma UsageCaptureOf(s: string, m: nat, u: string)
    requires m + 3 + |u| <= |s| && s[m] == '\n' && s[m + 1] == '`'
    requires forall t :: 0 <= t < |u| ==> s[m + 2 + t] == u[t]
    requires s[m + 2 + |u|] == '`'
    requires u != [] && '`' !in u
    ensures UsageCapture(s, m) == Some(u)
  {
    assert SkipSpace(s, m) == m + 1;
    forall k | m + 2 <= k < m + 2 + |u| ensures s[k] != '`' {
      assert s[k] == u[k - m - 2];
    }
    assert NextBacktick(s, m + 2) == m + 2 + |u|;
    assert s[m + 2..m + 2 + |u|] == u;
  }

  /** The leftmost start with a capture is where `match` reports the match. */
  lemma FirstMatchIs(s: string, sec: Section, ignoreCase: bool, n: nat)
    requires n <= |s| && CaptureAt(s, n, sec, ignoreCase).Some?
    requires forall j :: 0 <= j < n ==> CaptureAt(s, j, sec, ignoreCase).None?
    ensures FirstMatch(s, sec, ignoreCase, 0) == Some(n)
  {
    var r := FirstMatch(s, sec, ignoreCase, 0);
    assert r.Some?;
    assert r.value >= n;
    assert r.value <= n;
  }

  /** The section value is the trimmed capture at the leftmost position that has one. */
  lemma SectionValueAt(s: string, sec: Section, ignoreCase: bool, n: nat, v: string)
    requires n <= |s| && CaptureAt(s, n, sec, ignoreCase) == Some(v)
    requires forall j :: 0 <= j < n ==> CaptureAt(s, j, sec, ignoreCase).None?
    ensures SectionValue(s, sec, ignoreCase) == Some(Trim(v))
  {
    FirstMatchIs(s, sec, ignoreCase, n);
  }

  /** `## <Heading>`, a line feed and a non-blank line `p` at `n` capture exactly `p`. */
  lemma LineCaptureAtHeading(s: string, n: nat, sec: Section, ignoreCase: bool, p: string)
    requires sec != Usage
    requires n + 4 + |Heading(sec)| + |p| <= |s|
    requires s[n] == '#' && s[n + 1] == '#' && s[n + 2] == ' '
    requires forall t :: 0 <= t < |Heading(sec)| ==> s[n + 3 + t] == Heading(sec)[t]
    requires s[n + 3 + |Heading(sec)|] == '\n'
    requires forall t :: 0 <= t < |p| ==> s[n + 4 + |Heading(sec)| + t] == p[t]
    requires '\n' !in p && !IsBlank(p)
    requires n + 4 + |Heading(sec)| + |p| < |s| ==> s[n + 4 + |Heading(sec)| + |p|] == '\n'
    ensures CaptureAt(s, n, sec, ignoreCase) == Some(p)
  {
    var m := n + 3 + |Heading(sec)|;
    HeadingMatches(s, n, sec, ignoreCase);
    LineCaptureOf(s, m, p);
    CaptureAfterHeading(s, n, sec, ignoreCase);
  }

  /**
   * Rendering a line section and parsing it back: after a prefix free of
   * `##`, the heading `## <Heading>` and a line `p` that is not blank give the
   * section value `trim(p)`, in either case mode.
   */
  lemma LineSectionRoundTrip(pre: string, sec: Section, p: string, rest: string, ignoreCase: bool)
    requires sec != Usage && NoDoubleHash(pre)
    requires '\n' !in p && !IsBlank(p)
    requires rest == [] || rest[0] == '\n'
    ensures SectionValue(pre + "## " + Heading(sec) + "\n" + p + rest, sec, ignoreCase) == Some(Trim(p))
  {
    LineSectionLayout(pre, Heading(sec), p, rest);
    LineSectionIn(pre + "## " + Heading(sec) + "\n" + p + rest, pre, sec, p, ignoreCase);
  }

  /** A string laid out as a line section after a prefix without `##` yields that section's trimmed line. */
  lemma LineSectionIn(s: string, pre: string, sec: Section, p: string, ignoreCase: bool)
    requires sec != Usage && NoDoubleHash(pre)
    requires '\n' !in p && !IsBlank(p)
    requires var n := |pre|;
             && n + 4 + |Heading(sec)| + |p| <= |s|
             && s[..n] == pre
             && s[n] == '#' && s[n + 1] == '#' && s[n + 2] == ' '
             && (forall t :: 0 <= t < |Heading(sec)| ==> s[n + 3 + t] == Heading(sec)[t])
             && s[n + 3 + |Heading(sec)|] == '\n'
             && (forall t :: 0 <= t < |p| ==> s[n + 4 + |Heading(sec)| + t] == p[t])
             && (n + 4 + |Heading(sec)| + |p| < |s| ==> s[n + 4 + |Heading(sec)| + |p|] == '\n')
    ensures SectionValue(s, sec, ignoreCase) == Some(Trim(p))
  {
    NoMatchBefore(pre, s, sec, ignoreCase);
    LineCaptureAtHeading(s, |pre|, sec, ignoreCase, p);
    SectionValueAt(s, sec, ignoreCase, |pre|, p);
  }

  /** Where the prefix, the heading line and the value line sit in a rendered line section. */
  lemma LineSectionLayout(pre: string, h: string, p: string, rest: string)
    requires rest == [] || rest[0] == '\n'
    ensures var s := pre + "## " + h + "\n" + p + rest;
            var n := |pre|;
            && n + 4 + |h| + |p| <= |s|
            && s[..n] == pre
            && s[n] == '#' && s[n + 1] == '#' && s[n + 2] == ' '
            && (forall t :: 0 <= t < |h| ==> s[n + 3 + t] == h[t])
            && s[n + 3 + |h|] == '\n'
            && (forall t :: 0 <= t < |p| ==> s[n + 4 + |h| + t] == p[t])
            && (n + 4 + |h| + |p| < |s| ==> s[n + 4 + |h| + |p|] == '\n')
  {
    var x := pre + "## " + h + "\n";
    HeaderLayout(pre, h);
    AppendLayout(x, p, rest);
    assert (x + p + rest)[..|pre|] == x[..|pre|];
  }

  /** Where the prefix and the heading sit in `pre + "## " + h + "\n"`. */
  lemma HeaderLayout(pre: string, h: string)
    ensures var x := pre + "## " + h + "\n";
            var n := |pre|;
            && |x| == n + 4 + |h|
            && x[..n] == pre
            && x[n] == '#' && x[n + 1] == '#' && x[n + 2] == ' '
            && (forall t :: 0 <= t < |h| ==> x[n + 3 + t] == h[t])
            && x[n + 3 + |h|] == '\n'
  {
    var a := pre + "## ";
    var b := a + h;
    assert forall k :: 0 <= k < |a| ==> b[k] == a[k];
  }

  /** Where `x`, `p` and the start of `rest` sit in `x + p + rest`. */
  lemma AppendLayout(x: string, p: string, rest: string)
    requires rest == [] || rest[0] == '\n'
    ensures var s := x + p + rest;
            && |s| == |x| + |p| + |rest|
            && (forall k :: 0 <= k < |x| ==> s[k] == x[k])
            && (forall t :: 0 <= t < |p| ==> s[|x| + t] == p[t])
            && (|x| + |p| < |s| ==> s[|x| + |p|] == '\n')
  {
  }

  /**
   * Rendering a usage section and parsing it back: after a prefix free of
   * `##`, `## Usage`, a line feed and a backtick-delimited span `u` give the
   * usage value `trim(u)`, in either case mode.
   */
  lemma UsageRoundTrip(pre: string, u: string, rest: string, ignoreCase: bool)
    requires NoDoubleHash(pre)
    requires u != [] && '`' !in u
    ensures SectionValue(pre + "## Usage\n`" + u + "`" + rest, Usage, ignoreCase) == Some(Trim(u))
  {
    UsageLayout(pre, u, rest);
    UsageSectionIn(pre + "## Usage\n`" + u + "`" + rest, pre, u, ignoreCase);
  }

  /** Where the prefix, the heading line and the backtick span sit in a rendered usage section. */
  lemma UsageLayout(pre: string, u: string, rest: string)
    ensures var s := pre + "## Usage\n`" + u + "`" + rest;
            var n := |pre|;
            && n + 11 + |u| <= |s|
            && s[..n] == pre
            && s[n] == '#' && s[n + 1] == '#' && s[n + 2] == ' '
            && (forall t :: 0 <= t < 5 ==> s[n + 3 + t] == Heading(Usage)[t])
            && s[n + 8] == '\n' && s[n + 9] == '`'
            && (forall t :: 0 <= t < |u| ==> s[n + 10 + t] == u[t])
            && s[n + 10 + |u|] == '`'
  {
    var x := pre + "## Usage\n`";
    var y := x + u;
    HeaderLayout(pre, "Usage");
    assert x == (pre + "## " + "Usage" + "\n") + "`";
    assert forall k :: 0 <= k < |x| ==> y[k] == x[k];
    assert pre + "## Usage\n`" + u + "`" + rest == y + "`" + rest;
  }

  /** A string laid out as a usage section after a prefix without `##` yields the trimmed span. */
  lemma UsageSectionIn(s: string, pre: string, u: string, ignoreCase: bool)
    requires NoDoubleHash(pre)
    requires u != [] && '`' !in u
    requires var n := |pre|;
             && n + 11 + |u| <= |s|
             && s[..n] == pre
             && s[n] == '#' && s[n + 1] == '#' && s[n + 2] == ' '
             && (forall t :: 0 <= t < 5 ==> s[n + 3 + t] == Heading(Usage)[t])
             && s[n + 8] == '\n' && s[n + 9] == '`'
             && (forall t :: 0 <= t < |u| ==> s[n + 10 + t] == u[t])
             && s[n + 10 + |u|] == '`'
    ensures SectionValue(s, Usage, ignoreCase) == Some(Trim(u))
  {
    var n := |pre|;
    NoMatchBefore(pre, s, Usage, ignoreCase);
    HeadingMatches(s, n, Usage, ignoreCase);
    UsageCaptureOf(s, n + 8, u);
    CaptureAfterHeading(s, n, Usage, ignoreCase);
    SectionValueAt(s, Usage, ignoreCase, n, u);
  }
}
