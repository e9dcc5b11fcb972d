/**
 * The server-side command reader: the listing that reads every `.md` file of
 * the commands directory and sorts the result by name, and the lookup of one
 * command by its slug. The directory is an input: `files` is what listing the
 * directory returns, `dir` maps each readable file name to its text after
 * front matter (a name missing from `dir` is a file whose read throws).
 */
module ServerCommands {
  import opened Wrappers
  import opened Text
  import opened Seqs
  import opened CommandParser

  /** The `file.endsWith('.md')` test of the listing loop. */
  predicate IsMarkdown(file: string) {
    EndsWith(file, ".md")
  }

  /** A markdown file's id: its name without the `.md` suffix. */
  function IdOfFile(file: string): (id: string)
    requires IsMarkdown(file)
    ensures id + ".md" == file
  {
    file[..|file| - 3]
  }

  /** `pat` occurs in `s` at position `k`. */
  predicate OccursAt(s: string, pat: string, k: nat) {
    k <= |s| && pat <= s[k..]
  }

  /** `k` is the first position where `pat` occurs in `s`. */
  predicate FirstOccurrence(s: string, pat: string, k: nat) {
    OccursAt(s, pat, k) && forall j: nat :: j < k ==> !OccursAt(s, pat, j)
  }

  /** The first position at or after `i` where `pat` occurs in `s`. */
  function IndexOf(s: string, pat: string, i: nat): (r: Option<nat>)
    requires i <= |s|
    ensures r.Some? ==> i <= r.value <= |s| && OccursAt(s, pat, r.value)
    ensures r.Some? ==> forall k: nat :: i <= k < r.value ==> !OccursAt(s, pat, k)
    ensures r.None? ==> forall k: nat :: i <= k <= |s| ==> !OccursAt(s, pat, k)
    decreases |s| - i
  {
    if pat <= s[i..] then Some(i)
    else if i == |s| then None
    else IndexOf(s, pat, i + 1)
  }

  /** Searching from the start finds exactly the first occurrence. */
  lemma IndexOfFirst(s: string, pat: string)
    ensures forall k: nat :: FirstOccurrence(s, pat, k) <==> IndexOf(s, pat, 0) == Some(k)
    ensures IndexOf(s, pat, 0).None? <==> forall k: nat :: k <= |s| ==> !OccursAt(s, pat, k)
  {
    var r := IndexOf(s, pat, 0);
    forall k: nat ensures FirstOccurrence(s, pat, k) <==> r == Some(k) {
      if FirstOccurrence(s, pat, k) {
        assert r.Some?;
        assert !(r.value < k);
        assert !(k < r.value);
      }
    }
  }

  /** `s.replace(pat, rep)` with a string pattern: only the first occurrence is replaced. */
  function ReplaceFirst(s: string, pat: string, rep: string): (r: string)
    ensures (forall k: nat :: k <= |s| ==> !OccursAt(s, pat, k)) ==> r == s
    ensures forall k: nat :: FirstOccurrence(s, pat, k) ==> r == s[..k] + rep + s[k + |pat|..]
  {
    IndexOfFirst(s, pat);
    match IndexOf(s, pat, 0)
    case None => s
    case Some(k) => s[..k] + rep + s[k + |pat|..]
  }

  /** The id the listing gives a file as written: `file.replace('.md', '')`, the name less its first `.md`. */
  function IdOfFileAsWritten(file: string): (id: string)
    ensures (forall k: nat :: k <= |file| ==> !OccursAt(file, ".md", k)) ==> id == file
    ensures forall k: nat :: FirstOccurrence(file, ".md", k) ==> id == file[..k] + file[k + 3..]
  {
    ReplaceFirst(file, ".md", "")
  }

  /** `.md` does not occur in `file` before its last three characters. */
  predicate OnlySuffix(file: string) {
    forall k: nat :: k < |file| - 3 ==> !OccursAt(file, ".md", k)
  }

  /** When `.md` occurs in a markdown file's name only as its suffix, the written id is the intended one. */
  lemma AsWrittenIdAgrees(file: string)
    requires IsMarkdown(file)
    requires OnlySuffix(file)
    ensures IdOfFileAsWritten(file) == IdOfFile(file)
  {
    var n := |file| - 3;
    assert OccursAt(file, ".md", n);
    assert FirstOccurrence(file, ".md", n);
    assert file[..n] + "" + file[n + 3..] == file[..n];
  }

  /** `getCommandBySlug`: read `<slug>.md` and parse it, or null when the read fails. */
  function LookupCommand(dir: map<string, string>, slug: string): (r: Option<Command>)
    ensures r.Some? <==> slug + ".md" in dir
    ensures r.Some? ==> r.value.id == slug && r.value.content == dir[slug + ".md"] && r.value.category.None?
  {
    var path := slug + ".md";
    if path in dir then Some(Parse(slug, dir[path], None, false)) else None
  }

  /** Which id a listed file gets: the source's `replace('.md', '')`, or the intended suffix removal. */
  datatype IdRule = AsWritten | Intended

  /** The id a markdown file is listed under by `rule`. */
  function EntryId(rule: IdRule, file: string): string
    requires IsMarkdown(file)
  {
    match rule
    case AsWritten => IdOfFileAsWritten(file)
    case Intended => IdOfFile(file)
  }

  /** The entry the listing builds for one readable markdown file. */
  function ReadCommand(dir: map<string, string>, file: string, rule: IdRule): (c: Command)
    requires IsMarkdown(file) && file in dir
    ensures c.id == EntryId(rule, file) && c.content == dir[file] && c.category.None?
  {
    Parse(EntryId(rule, file), dir[file], None, false)
  }

  /** Every markdown file of the listing can be read. */
  predicate AllReadable(files: seq<string>, dir: map<string, string>) {
    forall f :: f in files && IsMarkdown(f) ==> f in dir
  }

  /** One entry per markdown file, in directory order, before sorting: what the push loop accumulates. */
  function Entries(files: seq<string>, dir: map<string, string>, rule: IdRule): (r: seq<Command>)
    requires AllReadable(files, dir)
    decreases |files|
  {
    if |files| == 0 then []
    else
      var n := |files| - 1;
      assert forall f :: f in files[..n] ==> f in files;
      Entries(files[..n], dir, rule) + (if IsMarkdown(files[n]) then [ReadCommand(dir, files[n], rule)] else [])
  }

  /** One more step of the listing loop. */
  lemma EntriesStep(files: seq<string>, i: nat, dir: map<string, string>, rule: IdRule)
    requires i < |files| && AllReadable(files[..i], dir)
    requires IsMarkdown(files[i]) ==> files[i] in dir
    ensures AllReadable(files[..i + 1], dir)
    ensures Entries(files[..i + 1], dir, rule)
            == Entries(files[..i], dir, rule) + (if IsMarkdown(files[i]) then [ReadCommand(dir, files[i], rule)] else [])
  {
    assert files[..i + 1] == files[..i] + [files[i]];
    assert files[..i + 1][..i] == files[..i];
  }

  /** There are as many entries as markdown files. */
  lemma {:induction false} EntriesCount(files: seq<string>, dir: map<string, string>, rule: IdRule)
    requires AllReadable(files, dir)
    ensures |Entries(files, dir, rule)| == |Filter(files, IsMarkdown)|
    decreases |files|
  {
    if |files| > 0 {
      var n := |files| - 1;
      assert files == files[..n] + [files[n]];
      assert forall f :: f in files[..n] ==> f in files;
      EntriesCount(files[..n], dir, rule);
      FilterSnoc(files[..n], files[n], IsMarkdown);
    }
  }

  /** Every entry is the parse of some markdown file of the directory. */
  lemma {:induction false} EntriesFrom(files: seq<string>, dir: map<string, string>, rule: IdRule, c: Command)
    requires AllReadable(files, dir) && c in Entries(files, dir, rule)
    ensures exists f :: f in files && IsMarkdown(f) && f in dir && c == ReadCommand(dir, f, rule)
    decreases |files|
  {
    var n := |files| - 1;
    assert forall f :: f in files[..n] ==> f in files;
    if c in Entries(files[..n], dir, rule) {
      EntriesFrom(files[..n], dir, rule, c);
    } else {
      assert files[n] in files;
    }
  }

  /** Every markdown file of the directory contributes its entry. */
  lemma {:induction false} EntriesInclude(files: seq<string>, dir: map<string, string>, rule: IdRule, f: string)
    requires AllReadable(files, dir) && f in files && IsMarkdown(f)
    ensures ReadCommand(dir, f, rule) in Entries(files, dir, rule)
    decreases |files|
  {
    var n := |files| - 1;
    EntriesLast(files, dir, rule);
    if f != files[n] {
      assert files == files[..n] + [files[n]];
      assert f in files[..n];
      EntriesInclude(files[..n], dir, rule, f);
    }
  }

  /** The entries of a non-empty listing: those of all but the last file, then the last file's entry. */
  lemma EntriesLast(files: seq<string>, dir: map<string, string>, rule: IdRule)
    requires AllReadable(files, dir) && |files| > 0
    ensures AllReadable(files[..|files| - 1], dir)
    ensures Entries(files, dir, rule) == Entries(files[..|files| - 1], dir, rule)
              + (if IsMarkdown(files[|files| - 1]) then [ReadCommand(dir, files[|files| - 1], rule)] else [])
  {
    assert forall f :: f in files[..|files| - 1] ==> f in files;
  }


  /** The sort key of the listing. */
  function Name(c: Command): string {
    c.name
  }

  /** The listing sorted by name, with ids given by `rule`. */
  function Listing(files: seq<string>, dir: map<string, string>, rule: IdRule): seq<Command>
    requires AllReadable(files, dir)
  {
    SortBy(Entries(files, dir, rule), Name)
  }

  /**
   * `getAllCommands` as written: walk the directory listing, parse every
   * `.md` file and push its entry under the id `file.replace('.md', '')`,
   * then sort by name. A read that throws rejects the whole call, modelled
   * as `None`.
   */
  method ListCommands(files: seq<string>, dir: map<string, string>) returns (r: Option<seq<Command>>)
    ensures r.None? <==> !AllReadable(files, dir)
    ensures r.Some? ==> r.value == Listing(files, dir, AsWritten)
  {
    var commands: seq<Command> := [];
    var i := 0;
    while i < |files|
      invariant 0 <= i <= |files|
      invariant AllReadable(files[..i], dir)
      invariant commands == Entries(files[..i], dir, AsWritten)
    {
      var file := files[i];
      if IsMarkdown(file) && file !in dir {
        assert file in files;
        return None;
      }
      EntriesStep(files, i, dir, AsWritten);
      if IsMarkdown(file) {
        commands := commands + [ReadCommand(dir, file, AsWritten)];
      }
      i := i + 1;
    }
    assert files[..i] == files;
    assert commands == Entries(files, dir, AsWritten);
    r := Some(SortBy(commands, Name));
  }

  /** The listing, as written or corrected, is sorted by name and has one entry per markdown file. */
  lemma ListingSortedAndComplete(files: seq<string>, dir: map<string, string>, rule: IdRule)
    requires AllReadable(files, dir)
    ensures SortedBy(Listing(files, dir, rule), Name)
    ensures |Listing(files, dir, rule)| == |Filter(files, IsMarkdown)|
  {
    var entries := Entries(files, dir, rule);
    var listing := SortBy(entries, Name);
    assert |listing| == |multiset(listing)| == |multiset(entries)| == |entries|;
    EntriesCount(files, dir, rule);
  }

  /** Commands with the same name keep the directory order of their files. */
  lemma ListingKeepsDirectoryOrder(files: seq<string>, dir: map<string, string>, rule: IdRule, name: string)
    requires AllReadable(files, dir)
    ensures Filter(Listing(files, dir, rule), KeyIs(Name, name)) == Filter(Entries(files, dir, rule), KeyIs(Name, name))
  {
    SortByStable(Entries(files, dir, rule), Name, name);
  }

  /** In the corrected listing, every listed command is exactly what looking up its id returns. */
  lemma ListingResolves(files: seq<string>, dir: map<string, string>, c: Command)
    requires AllReadable(files, dir)
    requires c in Listing(files, dir, Intended)
    ensures LookupCommand(dir, c.id) == Some(c)
  {
    SortByMembers(Entries(files, dir, Intended), Name, c);
    EntriesFrom(files, dir, Intended, c);
  }

  /** In the corrected listing, every markdown file of the directory has an entry whose id plus `.md` is its name. */
  lemma ListingCovers(files: seq<string>, dir: map<string, string>, f: string)
    requires AllReadable(files, dir)
    requires f in files && IsMarkdown(f)
    ensures exists c :: c in Listing(files, dir, Intended) && c.id + ".md" == f
  {
    var c := ReadCommand(dir, f, Intended);
    EntriesInclude(files, dir, Intended, f);
    SortByMembers(Entries(files, dir, Intended), Name, c);
  }

  /** Two markdown files never share an intended id, so the corrected listing's ids are distinct when file names are. */
  lemma IdOfFileInjective(f: string, g: string)
    requires IsMarkdown(f) && IsMarkdown(g) && IdOfFile(f) == IdOfFile(g)
    ensures f == g
  {
    assert f == IdOfFile(f) + ".md";
  }

  /** When no file name holds `.md` before its suffix, the listing as written is the corrected listing. */
  lemma {:induction false} EntriesAgree(files: seq<string>, dir: map<string, string>)
    requires AllReadable(files, dir)
    requires forall f :: f in files && IsMarkdown(f) ==> OnlySuffix(f)
    ensures Entries(files, dir, AsWritten) == Entries(files, dir, Intended)
    decreases |files|
  {
    if |files| > 0 {
      var n := |files| - 1;
      assert forall f :: f in files[..n] ==> f in files;
      EntriesAgree(files[..n], dir);
      if IsMarkdown(files[n]) {
        assert files[n] in files;
        AsWrittenIdAgrees(files[n]);
        assert ReadCommand(dir, files[n], AsWritten) == ReadCommand(dir, files[n], Intended);
      }
    }
  }

  /**
   * The file name `x.mdfoo.md` is listed under the id `xfoo.md` as written,
   * and looking that id up reads `xfoo.md.md`, so the listed command cannot be
   * opened; the intended id `x.mdfoo` finds it.
   */
  lemma AsWrittenIdNotFound()
    ensures IsMarkdown("x.mdfoo.md")
    ensures IdOfFileAsWritten("x.mdfoo.md") == "xfoo.md"
    ensures LookupCommand(map["x.mdfoo.md" := ""], IdOfFileAsWritten("x.mdfoo.md")).None?
    ensures LookupCommand(map["x.mdfoo.md" := ""], IdOfFile("x.mdfoo.md")).Some?
  {
    ExampleAsWrittenId();
    assert "xfoo.md" + ".md" != "x.mdfoo.md" by { assert ("xfoo.md" + ".md")[1] != "x.mdfoo.md"[1]; }
  }

  lemma ExampleAsWrittenId()
    ensures IdOfFileAsWritten("x.mdfoo.md") == "xfoo.md"
  {
    var s := "x.mdfoo.md";
    FirstOccurrenceAt1(s, 'x');
    assert s[..1] + s[4..] == "xfoo.md";
  }

  /** In a name that starts with one character other than `.` and then `.md`, the first `.md` is at position 1. */
  lemma FirstOccurrenceAt1(s: string, a: char)
    requires |s| >= 4 && s[0] == a && a != '.' && s[1..4] == ".md"
    ensures FirstOccurrence(s, ".md", 1)
  {
    assert s[0..][0] != ".md"[0];
    assert s[1..][..3] == ".md";
  }

  /** In a name that starts with two characters other than `.` and then `.md`, the first `.md` is at position 2. */
  lemma FirstOccurrenceAt2(s: string, a: char, b: char)
    requires |s| >= 5 && s[0] == a && s[1] == b && a != '.' && b != '.' && s[2..5] == ".md"
    ensures FirstOccurrence(s, ".md", 2)
  {
    assert s[0..][0] != ".md"[0];
    assert s[1..][0] != ".md"[0];
    assert s[2..][..3] == ".md";
  }

  /** The listing as written holds a command that looking up its own id cannot find. */
  lemma AsWrittenListingUnresolvable()
    ensures var dir := map["x.mdfoo.md" := ""];
            AllReadable(["x.mdfoo.md"], dir)
            && exists c :: c in Listing(["x.mdfoo.md"], dir, AsWritten) && LookupCommand(dir, c.id).None?
  {
    var dir := map["x.mdfoo.md" := ""];
    var files := ["x.mdfoo.md"];
    AsWrittenIdNotFound();
    assert files[..0] == [];
    var c := ReadCommand(dir, files[0], AsWritten);
    assert Entries(files, dir, AsWritten) == [c];
    SortByMembers([c], Name, c);
    assert c in Listing(files, dir, AsWritten);
  }

  /** As written, two markdown files can share an id: `x.mdy.md` and `xy.md.md` are both listed as `xy.md`. */
  lemma AsWrittenIdsCollide()
    ensures IsMarkdown("x.mdy.md") && IsMarkdown("xy.md.md")
    ensures IdOfFileAsWritten("x.mdy.md") == "xy.md" == IdOfFileAsWritten("xy.md.md")
  {
    var f, g := "x.mdy.md", "xy.md.md";
    FirstOccurrenceAt1(f, 'x');
    assert f[..1] + f[4..] == "xy.md";
    FirstOccurrenceAt2(g, 'x', 'y');
    assert g[..2] + g[5..] == "xy.md";
  }
}
