/**
 * The metadata extraction both command readers apply to a command's markdown
 * text (after front matter): name from the first line, title, description
 * from the second non-blank line, and the four optional sections.
 */
module CommandParser {
  import opened Wrappers
  import opened Text
  import opened Seqs
  import opened Sections

  /** `CommandMetadata`. The server reader never sets `category`; the portal reader always does. */
  datatype Command = Command(
    id: string,
    name: string,
    title: string,
    description: string,
    purpose: Option<string>,
    usage: Option<string>,
    speed: Option<string>,
    whenToUse: Option<string>,
    category: Option<string>,
    content: string)

  /** `/^#\s*\//` matches `line[..k]`: a `#`, then whitespace only, then `/`. */
  predicate CommandPrefixAt(line: string, k: nat) {
    && 2 <= k <= |line|
    && line[0] == '#'
    && line[k - 1] == '/'
    && (forall j :: 1 <= j < k - 1 ==> IsSpace(line[j]))
  }

  /** The prefix pattern matches in one way at most: `/` is not whitespace. */
  lemma CommandPrefixUnique(line: string, k: nat, m: nat)
    requires CommandPrefixAt(line, k) && CommandPrefixAt(line, m)
    ensures k == m
  {
  }

  /** Where `/^#\s*\//` stops matching in `line`, if it matches. */
  function CommandPrefixEnd(line: string): (r: Option<nat>)
    ensures r.Some? ==> CommandPrefixAt(line, r.value)
    ensures r.None? <==> forall k: nat :: !CommandPrefixAt(line, k)
  {
    if |line| == 0 || line[0] != '#' then None
    else
      var k := SkipSpace(line, 1);
      PrefixAtSkip(line);
      if k < |line| && line[k] == '/' then Some(k + 1) else None
  }

  /** After a `#`, the prefix can only end one past the end of the whitespace run, and does when a `/` is there. */
  lemma PrefixAtSkip(line: string)
    requires |line| > 0 && line[0] == '#'
    ensures var k := SkipSpace(line, 1);
            forall m: nat :: CommandPrefixAt(line, m) <==> k < |line| && line[k] == '/' && m == k + 1
  {
    var k := SkipSpace(line, 1);
    forall m: nat | CommandPrefixAt(line, m) ensures m == k + 1 {
      assert !IsSpace(line[m - 1]);
    }
  }

  /** `line.replace(/^#\s*\//, '')`. */
  function StripCommandPrefix(line: string): (r: string)
    ensures forall k: nat :: CommandPrefixAt(line, k) ==> r == line[k..]
    ensures (forall k: nat :: !CommandPrefixAt(line, k)) ==> r == line
  {
    match CommandPrefixEnd(line)
    case Some(k) =>
      assert forall m: nat :: CommandPrefixAt(line, m) ==> m == k by {
        forall m: nat | CommandPrefixAt(line, m) ensures m == k {
          CommandPrefixUnique(line, k, m);
        }
      }
      line[k..]
    case None => line
  }

  /** `s.split('\n')[0]`: the text up to, not including, the first line feed. */
  function FirstLine(s: string): (line: string)
    ensures line <= s && '\n' !in line
    ensures line == s || s[|line|] == '\n'
  {
    var e := LineEnd(s, 0);
    assert forall c :: c in s[..e] ==> c != '\n';
    s[..e]
  }

  /**
   * `content.split('\n')[0].replace(/^#\s*\//, '').trim()`: the first line,
   * with the command prefix removed when it has one, trimmed.
   */
  function NameOf(text: string): (name: string)
    ensures forall k: nat :: CommandPrefixAt(FirstLine(text), k) ==> name == Trim(FirstLine(text)[k..])
    ensures (forall k: nat :: !CommandPrefixAt(FirstLine(text), k)) ==> name == Trim(FirstLine(text))
    ensures name == [] || (!IsSpace(name[0]) && !IsSpace(name[|name| - 1]))
    ensures '\n' !in name
  {
    var first := Lines(text)[0];
    assert first == FirstLine(text);
    var stripped := StripCommandPrefix(first);
    assert forall c :: c in stripped ==> c in first;
    TrimWithin(stripped);
    Trim(stripped)
  }

  /** The `filter(line => line.trim())` test. */
  predicate NotBlank(line: string) {
    !IsBlank(line)
  }

  /**
   * `content.split('\n').filter(line => line.trim())[1] || ''`: the second
   * non-blank line, taken raw, or empty when there are fewer than two.
   */
  function DescriptionOf(text: string): (description: string)
    ensures description == [] <==> |Filter(Lines(text), NotBlank)| < 2
    ensures description != [] ==> NotBlank(description)
    ensures description != [] ==>
      exists j: nat :: j < |Lines(text)| && Lines(text)[j] == description && |Filter(Lines(text)[..j], NotBlank)| == 1
  {
    var nonBlank := Filter(Lines(text), NotBlank);
    if |nonBlank| >= 2 then
      assert nonBlank[1] in nonBlank;
      FilterNth(Lines(text), NotBlank, 1);
      nonBlank[1]
    else []
  }

  /**
   * The metadata object both readers build from a document: `ignoreCase` is
   * the `i` flag the portal reader adds to the section patterns, `category`
   * what it puts in the `category` field.
   */
  function Parse(id: string, text: string, category: Option<string>, ignoreCase: bool): (c: Command)
    ensures c.id == id && c.content == text && c.category == category
    ensures c.title == "/" + c.name
    ensures c.name == [] || (!IsSpace(c.name[0]) && !IsSpace(c.name[|c.name| - 1]))
    ensures c.usage.Some? ==> '`' !in c.usage.value
    ensures c.purpose.Some? ==> '\n' !in c.purpose.value
  {
    var name := NameOf(text);
    Command(
      id,
      name,
      "/" + name,
      DescriptionOf(text),
      SectionValue(text, Purpose, ignoreCase),
      SectionValue(text, Usage, ignoreCase),
      SectionValue(text, Speed, ignoreCase),
      SectionValue(text, WhenToUse, ignoreCase),
      category,
      text)
  }

  /** The lines of a document that starts with the line `first` and then the line `d`. */
  lemma TwoLeadingLines(first: string, d: string, rest: string) returns (tail: seq<string>)
    requires '\n' !in first && '\n' !in d
    requires rest == [] || rest[0] == '\n'
    ensures Lines(first + "\n" + d + rest) == [first, d] + tail
  {
    if rest == [] {
      assert first + "\n" + d + rest == first + "\n" + d;
      OnlyTwoLines(first, d);
      tail := [];
    } else {
      var more := rest[1..];
      assert rest == "\n" + more;
      assert first + "\n" + d + rest == first + "\n" + d + "\n" + more;
      tail := LeadingTwoLines(first, d, more);
    }
  }

  lemma OnlyTwoLines(first: string, d: string)
    requires '\n' !in first && '\n' !in d
    ensures Lines(first + "\n" + d) == [first, d]
  {
    LinesCons(first, d);
    LinesSingle(d);
  }

  lemma LeadingTwoLines(first: string, d: string, more: string) returns (tail: seq<string>)
    requires '\n' !in first && '\n' !in d
    ensures tail == Lines(more)
    ensures Lines(first + "\n" + d + "\n" + more) == [first, d] + tail
  {
    Regroup(first, d, more);
    LinesCons(first, d + "\n" + more);
    LinesCons(d, more);
    tail := Lines(more);
    assert [first] + ([d] + tail) == [first, d] + tail;
  }

  lemma Regroup(first: string, d: string, more: string)
    ensures first + "\n" + d + "\n" + more == first + "\n" + (d + "\n" + more)
  {
  }

  /**
   * Writing a command's header and reading it back: a document whose first
   * line is `# /<n>` and whose next line `d` is not blank parses to name `n`
   * and description `d` (and so to title `/n`).
   */
  lemma HeaderRoundTrip(n: string, d: string, rest: string)
    requires '\n' !in n && (n == [] || (!IsSpace(n[0]) && !IsSpace(n[|n| - 1])))
    requires '\n' !in d && NotBlank(d)
    requires rest == [] || rest[0] == '\n'
    ensures NameOf("# /" + n + "\n" + d + rest) == n
    ensures DescriptionOf("# /" + n + "\n" + d + rest) == d
  {
    var first := HeaderLineFree(n);
    var tail := TwoLeadingLines(first, d, rest);
    NameOfFirstLine(n);
    HeaderDescription(first, d, tail);
  }

  /**
   * The usual layout: the header line `# /<n>`, a blank line, then the
   * description line `d`. Blank lines do not count, so the description is `d`.
   */
  lemma HeaderBlankRoundTrip(n: string, b: string, d: string, rest: string)
    requires '\n' !in n && (n == [] || (!IsSpace(n[0]) && !IsSpace(n[|n| - 1])))
    requires '\n' !in b && IsBlank(b)
    requires '\n' !in d && NotBlank(d)
    requires rest == [] || rest[0] == '\n'
    ensures NameOf("# /" + n + "\n" + b + "\n" + d + rest) == n
    ensures DescriptionOf("# /" + n + "\n" + b + "\n" + d + rest) == d
  {
    var first := HeaderLineFree(n);
    var tail := TwoLeadingLines(b, d, rest);
    assert "# /" + n + "\n" + b + "\n" + d + rest == first + "\n" + (b + "\n" + d + rest);
    LinesCons(first, b + "\n" + d + rest);
    NameOfFirstLine(n);
    BlankLineSkipped(first, b, d, tail);
  }

  /** Among lines `first`, `b`, `d`, ... with only `b` blank, the second non-blank line is `d`. */
  lemma BlankLineSkipped(first: string, b: string, d: string, tail: seq<string>)
    requires NotBlank(first) && !NotBlank(b) && NotBlank(d)
    ensures |Filter([first] + ([b, d] + tail), NotBlank)| >= 2 && Filter([first] + ([b, d] + tail), NotBlank)[1] == d
  {
    FilterCons(d, tail, NotBlank);
    FilterCons(b, [d] + tail, NotBlank);
    assert [b, d] + tail == [b] + ([d] + tail);
    FilterCons(first, [b, d] + tail, NotBlank);
  }

  lemma HeaderLineFree(n: string) returns (first: string)
    requires '\n' !in n
    ensures first == "# /" + n && '\n' !in first && NotBlank(first)
  {
    first := "# /" + n;
    assert forall k :: 3 <= k < |first| ==> first[k] == n[k - 3];
    assert !IsSpace(first[0]);
  }

  /** The second non-blank line of lines `first`, `d`, ... with both non-blank is `d`. */
  lemma HeaderDescription(first: string, d: string, tail: seq<string>)
    requires NotBlank(first) && NotBlank(d)
    ensures |Filter([first, d] + tail, NotBlank)| >= 2 && Filter([first, d] + tail, NotBlank)[1] == d
  {
    FilterCons(d, tail, NotBlank);
    FilterCons(first, [d] + tail, NotBlank);
    assert [first, d] + tail == [first] + ([d] + tail);
  }

  /** The first line `# /<n>` yields the name `n` when `n` has no surrounding whitespace. */
  lemma NameOfFirstLine(n: string)
    requires n == [] || (!IsSpace(n[0]) && !IsSpace(n[|n| - 1]))
    ensures Trim(StripCommandPrefix("# /" + n)) == n
  {
    var first := "# /" + n;
    assert SkipSpace(first, 1) == 2;
    assert CommandPrefixEnd(first) == Some(3);
    assert first[3..] == n;
    TrimTrimmed(n);
  }

  /** Every section the server reader extracts, the portal reader extracts too. */
  lemma PortalParsesServerSections(id: string, text: string, category: Option<string>)
    ensures var server := Parse(id, text, None, false);
            var portal := Parse(id, text, category, true);
            && (server.purpose.Some? ==> portal.purpose.Some?)
            && (server.usage.Some? ==> portal.usage.Some?)
            && (server.speed.Some? ==> portal.speed.Some?)
            && (server.whenToUse.Some? ==> portal.whenToUse.Some?)
  {
    if SectionValue(text, Purpose, false).Some? { PortalFindsServerSections(text, Purpose); }
    if SectionValue(text, Usage, false).Some? { PortalFindsServerSections(text, Usage); }
    if SectionValue(text, Speed, false).Some? { PortalFindsServerSections(text, Speed); }
    if SectionValue(text, WhenToUse, false).Some? { PortalFindsServerSections(text, WhenToUse); }
  }

  predicate HashOnlyAtStart(s: string) {
    forall k :: 1 <= k < |s| ==> s[k] != '#'
  }

  lemma HashOnlyAtStartAppend(a: string, b: string)
    requires |a| >= 1 && HashOnlyAtStart(a) && '#' !in b
    ensures HashOnlyAtStart(a + b)
  {
    forall k | 1 <= k < |a + b| ensures (a + b)[k] != '#' {
      if k >= |a| { assert (a + b)[k] == b[k - |a|]; }
    }
  }

  lemma HeaderHashFree(n: string, d: string)
    requires '#' !in n && '#' !in d
    ensures NoDoubleHash("# /" + n + "\n" + d + "\n\n")
  {
    assert HashOnlyAtStart("# /");
    HashOnlyAtStartAppend("# /", n);
    HashOnlyAtStartAppend("# /" + n, "\n");
    HashOnlyAtStartAppend("# /" + n + "\n", d);
    HashOnlyAtStartAppend("# /" + n + "\n" + d, "\n\n");
  }

  /**
   * A whole rendered command document read back: header line `# /<n>`, the
   * description line `d`, a blank line and a usage section with `u`.
   */
  lemma RenderedCommandRoundTrip(n: string, d: string, u: string, ignoreCase: bool)
    requires '\n' !in n && '#' !in n && (n == [] || (!IsSpace(n[0]) && !IsSpace(n[|n| - 1])))
    requires '\n' !in d && '#' !in d && NotBlank(d)
    requires u != [] && '`' !in u
    ensures var c := Parse(n, "# /" + n + "\n" + d + "\n\n" + "## Usage\n`" + u + "`\n", None, ignoreCase);
            && c.name == n && c.title == "/" + n && c.description == d && c.usage == Some(Trim(u))
  {
    var text := "# /" + n + "\n" + d + "\n\n" + "## Usage\n`" + u + "`\n";
    RenderedHeader(n, d, u);
    RenderedUsage(n, d, u, ignoreCase);
    var c := Parse(n, text, None, ignoreCase);
    assert c.name == NameOf(text) && c.description == DescriptionOf(text);
    assert c.usage == SectionValue(text, Usage, ignoreCase);
  }

  /** The header of a rendered command document gives back its name and description. */
  lemma RenderedHeader(n: string, d: string, u: string)
    requires '\n' !in n && (n == [] || (!IsSpace(n[0]) && !IsSpace(n[|n| - 1])))
    requires '\n' !in d && NotBlank(d)
    ensures var text := "# /" + n + "\n" + d + "\n\n" + "## Usage\n`" + u + "`\n";
            NameOf(text) == n && DescriptionOf(text) == d
  {
    var rest := "\n\n## Usage\n`" + u + "`\n";
    assert "# /" + n + "\n" + d + "\n\n" + "## Usage\n`" + u + "`\n" == "# /" + n + "\n" + d + rest;
    HeaderRoundTrip(n, d, rest);
  }

  /** The usage section of a rendered command document gives back its trimmed usage. */
  lemma RenderedUsage(n: string, d: string, u: string, ignoreCase: bool)
    requires '#' !in n && '#' !in d
    requires u != [] && '`' !in u
    ensures var text := "# /" + n + "\n" + d + "\n\n" + "## Usage\n`" + u + "`\n";
            SectionValue(text, Usage, ignoreCase) == Some(Trim(u))
  {
    var pre := "# /" + n + "\n" + d + "\n\n";
    HeaderHashFree(n, d);
    assert pre + "## Usage\n`" + u + "`\n" == pre + "## Usage\n`" + u + "`" + "\n";
    UsageRoundTrip(pre, u, "\n", ignoreCase);
  }

  /** The example's name has no line feed or `#` and no surrounding space. */
  lemma ExampleNameWellFormed()
    ensures '\n' !in "cleanup-unused-code" && '#' !in "cleanup-unused-code"
    ensures !IsSpace("cleanup-unused-code"[0]) && !IsSpace("cleanup-unused-code"[18])
  {
  }

  /** The example's description is a single non-blank line without `#`. */
  lemma ExampleDescriptionWellFormed()
    ensures '\n' !in "Remove dead code." && '#' !in "Remove dead code." && NotBlank("Remove dead code.")
  {
    assert !IsSpace("Remove dead code."[0]);
  }

  /** The example's usage has no backtick and no surrounding space. */
  lemma ExampleUsageWellFormed()
    ensures '`' !in "/cleanup-unused-code --dry-run"
    ensures !IsSpace("/cleanup-unused-code --dry-run"[0]) && !IsSpace("/cleanup-unused-code --dry-run"[29])
  {
  }

  /** The worked example: a document for `/cleanup-unused-code` with a usage section. */
  lemma ParseExample()
    ensures var c := Parse("cleanup-unused-code",
                           "# /" + "cleanup-unused-code" + "\n" + "Remove dead code." + "\n\n"
                           + "## Usage\n`" + "/cleanup-unused-code --dry-run" + "`\n",
                           None, false);
            && c.name == "cleanup-unused-code"
            && c.title == "/" + "cleanup-unused-code"
            && c.description == "Remove dead code."
            && c.usage == Some("/cleanup-unused-code --dry-run")
  {
    ExampleNameWellFormed();
    ExampleDescriptionWellFormed();
    ExampleUsageWellFormed();
    RenderedCommandRoundTrip("cleanup-unused-code", "Remove dead code.", "/cleanup-unused-code --dry-run", false);
    TrimTrimmed("/cleanup-unused-code --dry-run");
  }
}
