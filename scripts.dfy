/**
 * The web portal's script reader. For each script slug of `scripts/index.json`
 * it probes `<slug>.ps1` and then `<slug>.sh`, settles the platform and file
 * name (falling back to the index's platform lists when no content was
 * loaded), labels the script with its index category and takes a
 * description from the first qualifying comment among the first ten lines.
 * The listing keeps scripts whose files are missing; the lookup by slug does
 * not.
 */
module Scripts {
  import opened Wrappers
  import opened Text
  import opened Seqs
  import opened Categories
  import opened PortalCommands

  datatype Platform = Windows | Unix | Both

  /** The string the source stores in `platform`. */
  function PlatformName(p: Platform): string {
    match p
    case Windows => "windows"
    case Unix => "unix"
    case Both => "both"
  }

  /** `ScriptMetadata`; `usage` and `prerequisites` are never set by the reader and are not modelled. */
  datatype Script = Script(
    id: string,
    name: string,
    title: string,
    description: string,
    platform: Platform,
    category: string,
    filename: string,
    content: string)

  /**
   * The parts of `scripts/index.json` the reader uses: the categories (with
   * their `scripts` lists) and `platforms.windows.scripts` and
   * `platforms.unix.scripts`; an absent list is empty.
   */
  datatype ScriptIndex = ScriptIndex(categories: seq<Group>, windows: seq<string>, unix: seq<string>)

  /** The path a script file is fetched from. */
  function ScriptPath(file: string): string {
    "/scripts/" + file
  }

  // ---------------------------------------------------------------------
  // Description scan
  // ---------------------------------------------------------------------

  /** The end of the run of `#` that starts at `i`. */
  function SkipHashes(s: string, i: nat): (j: nat)
    requires i <= |s|
    ensures i <= j <= |s| && (j == |s| || s[j] != '#')
    ensures forall k :: i <= k < j ==> s[k] == '#'
    decreases |s| - i
  {
    if i == |s| || s[i] != '#' then i else SkipHashes(s, i + 1)
  }

  /**
   * `line[..a]` is a non-empty run of `#` that cannot be extended and
   * `line[a..j]` the whitespace run after it: what `^#+\s*` matches.
   */
  predicate HashMarker(line: string, a: nat, j: nat) {
    && 1 <= a <= j <= |line|
    && (forall k :: 0 <= k < a ==> line[k] == '#')
    && (a == |line| || line[a] != '#')
    && (forall k :: a <= k < j ==> IsSpace(line[k]))
    && (j == |line| || !IsSpace(line[j]))
  }

  /** Removing a leading run of `#` and the whitespace after it, as the comment-marker `replace` does. */
  function StripHashes(line: string): (r: string)
    ensures line != [] && line[0] == '#' ==> exists a: nat, j: nat :: HashMarker(line, a, j) && r == line[j..]
    ensures (line == [] || line[0] != '#') ==> r == line
  {
    if line != [] && line[0] == '#' then
      var a := SkipHashes(line, 0);
      var j := SkipSpace(line, a);
      assert HashMarker(line, a, j);
      line[j..]
    else line
  }

  /** The marker `^#+\s*` matches in one way only. */
  lemma HashMarkerUnique(line: string, a: nat, j: nat, b: nat, k: nat)
    requires HashMarker(line, a, j) && HashMarker(line, b, k)
    ensures a == b && j == k
  {
  }

  /** The text a comment line offers as a description. */
  function CommentText(raw: string): string {
    Trim(StripHashes(Trim(raw)))
  }

  /**
   * The test the scan applies to a line: trimmed, it is a `#` comment that
   * mentions none of `Usage:`, `Prerequisites:` and `param(`, and its text is
   * longer than ten characters and does not mention "script" in any case.
   */
  predicate IsDescriptionLine(raw: string) {
    IsPlainComment(Trim(raw)) && IsDescriptive(CommentText(raw))
  }

  /** A trimmed line that is a `#` comment and not a usage, prerequisites or parameter line. */
  predicate IsPlainComment(line: string) {
    && StartsWith(line, "#")
    && !Contains(line, "Usage:")
    && !Contains(line, "Prerequisites:")
    && !Contains(line, "param(")
  }

  /** Comment text long enough, and not about "script" in any letter case. */
  predicate IsDescriptive(text: string) {
    |text| > 10 && !Contains(Lower(text), "script")
  }

  /** The number of lines the scan looks at: `Math.min(10, lines.length)`. */
  function ScanLimit(lines: seq<string>): (n: nat)
    ensures n <= 10 && n <= |lines|
    ensures n == 10 || n == |lines|
  {
    if |lines| < 10 then |lines| else 10
  }

  /** The default description. */
  function DefaultDescription(slug: string): string {
    "Script: " + slug
  }

  /**
   * The description a script gets: the text of the first qualifying line
   * among the first ten lines of non-empty content, else `Script: <slug>`.
   */
  function ScriptDescription(slug: string, content: string): (description: string)
    ensures content == [] ==> description == DefaultDescription(slug)
  {
    if content == [] then DefaultDescription(slug)
    else
      var lines := Lines(content);
      match FirstWhere(lines, IsDescriptionLine, 0, ScanLimit(lines))
      case Some(i) => CommentText(lines[i])
      case None => DefaultDescription(slug)
  }

  /**
   * The description scan both readers run: walk the first ten lines of
   * non-empty content, take the first qualifying comment and `break`; an
   * empty result becomes `Script: <slug>`.
   */
  method DescribeScript(slug: string, content: string) returns (description: string)
    ensures description == ScriptDescription(slug, content)
  {
    description := "";
    if content != [] {
      var lines := Lines(content);
      var n := if 10 < |lines| then 10 else |lines|;
      var i := 0;
      while i < n
        invariant 0 <= i <= n && n == ScanLimit(lines)
        invariant description == ""
        invariant FirstWhere(lines, IsDescriptionLine, 0, n) == FirstWhere(lines, IsDescriptionLine, i, n)
      {
        if IsDescriptionLine(lines[i]) {
          description := CommentText(lines[i]);
          break;
        }
        i := i + 1;
      }
    }
    if description == "" {
      description := DefaultDescription(slug);
    }
  }

  /** A qualifying description never mentions "script", so it is never the default text. */
  lemma DefaultMentionsScript(slug: string)
    ensures Contains(Lower(DefaultDescription(slug)), "script")
  {
    var d := Lower(DefaultDescription(slug));
    assert d[..6] == "script";
    assert "script" <= d;
  }

  /** The description is the text of the first qualifying line among the first ten. */
  lemma DescriptionFromFirstLine(slug: string, content: string, i: nat)
    requires content != [] && i < ScanLimit(Lines(content))
    requires IsDescriptionLine(Lines(content)[i])
    requires forall k :: 0 <= k < i ==> !IsDescriptionLine(Lines(content)[k])
    ensures ScriptDescription(slug, content) == CommentText(Lines(content)[i])
  {
    var lines := Lines(content);
    FirstWhereIs(lines, IsDescriptionLine, ScanLimit(lines), i);
  }

  /** A found description is never the default text, which mentions "script". */
  lemma FoundDescriptionNotDefault(slug: string, content: string, i: nat)
    requires content != [] && i < ScanLimit(Lines(content))
    requires IsDescriptionLine(Lines(content)[i])
    ensures ScriptDescription(slug, content) != DefaultDescription(slug)
  {
    var lines := Lines(content);
    var r := FirstWhere(lines, IsDescriptionLine, 0, ScanLimit(lines));
    var text := CommentText(lines[r.value]);
    assert IsDescriptive(text);
    DefaultMentionsScript(slug);
  }

  /** The description is the default exactly when no line among the first ten qualifies. */
  lemma DescriptionDefaultIff(slug: string, content: string)
    ensures ScriptDescription(slug, content) == DefaultDescription(slug)
            <==> content == [] || forall i :: 0 <= i < ScanLimit(Lines(content)) ==> !IsDescriptionLine(Lines(content)[i])
  {
    if content != [] && exists i :: 0 <= i < ScanLimit(Lines(content)) && IsDescriptionLine(Lines(content)[i]) {
      var i :| 0 <= i < ScanLimit(Lines(content)) && IsDescriptionLine(Lines(content)[i]);
      FoundDescriptionNotDefault(slug, content, i);
    }
  }

  /** Lines after the tenth never matter: two contents that agree on their first ten lines get the same description. */
  lemma DescriptionUsesFirstTenLines(slug: string, c1: string, c2: string)
    requires c1 != [] && c2 != []
    requires ScanLimit(Lines(c1)) == ScanLimit(Lines(c2))
    requires Lines(c1)[..ScanLimit(Lines(c1))] == Lines(c2)[..ScanLimit(Lines(c2))]
    ensures ScriptDescription(slug, c1) == ScriptDescription(slug, c2)
  {
    var l1, l2 := Lines(c1), Lines(c2);
    var n := ScanLimit(l1);
    assert forall k :: 0 <= k < n ==> l1[k] == l1[..n][k] == l2[..n][k] == l2[k];
    FirstWhereAgree(l1, l2, IsDescriptionLine, 0, n);
  }

  // ---------------------------------------------------------------------
  // Probing for the script file
  // ---------------------------------------------------------------------

  /** What probing `<slug>.ps1` and then `<slug>.sh` finds. */
  datatype Probe = Found(platform: Platform, filename: string, content: string) | Missing | Failed

  /** The file name that goes with a platform: `.ps1` for Windows, `.sh` for Unix, the bare slug otherwise. */
  function PlatformFile(slug: string, p: Platform): string {
    match p
    case Windows => slug + ".ps1"
    case Unix => slug + ".sh"
    case Both => slug
  }

  /**
   * The probe: an ok `.ps1` response wins; otherwise an ok `.sh` response;
   * both not ok is a missing file; a rejected fetch is a failure.
   */
  function ProbeScript(fetch: string -> Response, slug: string): (r: Probe)
    ensures r.Found? ==> r.platform != Both && r.filename == PlatformFile(slug, r.platform)
    ensures fetch(ScriptPath(slug + ".ps1")).Ok? ==> r == Found(Windows, slug + ".ps1", fetch(ScriptPath(slug + ".ps1")).body)
    ensures fetch(ScriptPath(slug + ".ps1")).NotOk? && fetch(ScriptPath(slug + ".sh")).Ok? ==>
              r == Found(Unix, slug + ".sh", fetch(ScriptPath(slug + ".sh")).body)
    ensures r.Failed? <==> fetch(ScriptPath(slug + ".ps1")).Thrown?
                           || (fetch(ScriptPath(slug + ".ps1")).NotOk? && fetch(ScriptPath(slug + ".sh")).Thrown?)
    ensures r.Missing? <==> fetch(ScriptPath(slug + ".ps1")).NotOk? && fetch(ScriptPath(slug + ".sh")).NotOk?
  {
    match fetch(ScriptPath(slug + ".ps1"))
    case Ok(body) => Found(Windows, slug + ".ps1", body)
    case Thrown => Failed
    case NotOk =>
      match fetch(ScriptPath(slug + ".sh"))
      case Ok(body) => Found(Unix, slug + ".sh", body)
      case Thrown => Failed
      case NotOk => Missing
  }

  /** The platform the index lists a slug under: the Windows list first, then the Unix list. */
  function IndexPlatform(index: ScriptIndex, slug: string): (r: Option<Platform>)
    ensures r == Some(Windows) <==> slug in index.windows
    ensures r == Some(Unix) <==> slug !in index.windows && slug in index.unix
    ensures r != Some(Both)
  {
    if slug in index.windows then Some(Windows)
    else if slug in index.unix then Some(Unix)
    else None
  }

  // ---------------------------------------------------------------------
  // Listing
  // ---------------------------------------------------------------------

  /**
   * What the listing makes of one slug: a failed probe drops it; otherwise,
   * when no content was loaded (the file is missing or empty), the index's
   * platform lists override the probe's platform; the file name follows the
   * platform.
   */
  function ListedScript(index: ScriptIndex, fetch: string -> Response, slug: string): (r: Option<Script>)
    ensures r.None? <==> ProbeScript(fetch, slug).Failed?
    ensures r.Some? ==> r.value.id == slug && r.value.name == slug && r.value.title == slug
    ensures r.Some? ==> r.value.filename == PlatformFile(slug, r.value.platform)
    ensures r.Some? ==> r.value.category == CategoryOf(index.categories, slug)
    ensures r.Some? ==> r.value.description == ScriptDescription(slug, r.value.content)
    ensures r.Some? ==> r.value.content == (if ProbeScript(fetch, slug).Found? then ProbeScript(fetch, slug).content else [])
    ensures r.Some? && r.value.content != [] ==> r.value.platform == ProbeScript(fetch, slug).platform
    ensures r.Some? && r.value.content == [] ==>
              r.value.platform == IndexPlatform(index, slug).GetOr(
                if ProbeScript(fetch, slug).Found? then ProbeScript(fetch, slug).platform else Both)
  {
    var probe := ProbeScript(fetch, slug);
    if probe.Failed? then None
    else
      var found := if probe.Found? then probe.platform else Both;
      var content := if probe.Found? then probe.content else "";
      var platform := if content == [] then IndexPlatform(index, slug).GetOr(found) else found;
      Some(Script(slug, slug, slug, ScriptDescription(slug, content), platform,
                  CategoryOf(index.categories, slug), PlatformFile(slug, platform), content))
  }

  /**
   * The per-slug callback of `getAllScripts`, with its `let` variables:
   * content, file name and platform start empty and `both`, the probes set
   * them, and empty content defers to the index's platform lists.
   */
  method LoadListedScript(index: ScriptIndex, fetch: string -> Response, slug: string) returns (r: Option<Script>)
    ensures r == ListedScript(index, fetch, slug)
  {
    var content := "";
    var filename := "";
    var platform := Both;
    var ps1 := fetch(ScriptPath(slug + ".ps1"));
    if ps1.Thrown? {
      return None;
    }
    if ps1.Ok? {
      content := ps1.body;
      filename := slug + ".ps1";
      platform := Windows;
    } else {
      var sh := fetch(ScriptPath(slug + ".sh"));
      if sh.Thrown? {
        return None;
      }
      if sh.Ok? {
        content := sh.body;
        filename := slug + ".sh";
        platform := Unix;
      }
    }
    if content == "" {
      if slug in index.windows {
        platform := Windows;
        filename := slug + ".ps1";
      } else if slug in index.unix {
        platform := Unix;
        filename := slug + ".sh";
      }
    }
    var category := FindCategory(index.categories, slug);
    var description := DescribeScript(slug, content);
    r := Some(Script(slug, slug, slug, description, platform, category,
                     if filename == "" then slug else filename, content));
  }

  function ListedLoader(index: ScriptIndex, fetch: string -> Response): string -> Option<Script> {
    slug => ListedScript(index, fetch, slug)
  }

  /** What `getAllScripts` returns; an index that cannot be loaded gives the empty list. */
  function ScriptListing(index: Option<ScriptIndex>, fetch: string -> Response): seq<Script> {
    match index
    case None => []
    case Some(ix) => Present(Map(AllMembers(ix.categories), ListedLoader(ix, fetch)))
  }

  /**
   * `getAllScripts`: collect the slugs of every index category, load each
   * (the `Promise.all` fan-out as a loop in slug order), then push the
   * non-null results into `validScripts`.
   */
  method AllScripts(index: Option<ScriptIndex>, fetch: string -> Response) returns (validScripts: seq<Script>)
    ensures validScripts == ScriptListing(index, fetch)
  {
    if index.None? {
      return [];
    }
    var ix := index.value;
    var slugs := CollectMembers(ix.categories);
    var scripts := LoadAll(ix, fetch, slugs);
    validScripts := KeepLoaded(scripts);
  }

  /** The `Promise.all` fan-out over the slugs, as a loop in slug order. */
  method LoadAll(ix: ScriptIndex, fetch: string -> Response, slugs: seq<string>) returns (scripts: seq<Option<Script>>)
    ensures scripts == Map(slugs, ListedLoader(ix, fetch))
  {
    scripts := [];
    for i := 0 to |slugs|
      invariant scripts == Map(slugs[..i], ListedLoader(ix, fetch))
    {
      var script := LoadListedScript(ix, fetch, slugs[i]);
      MapStep(slugs, i, ListedLoader(ix, fetch));
      scripts := scripts + [script];
    }
    assert slugs[..|slugs|] == slugs;
  }

  /** The loop that pushes every non-null result into `validScripts`. */
  method KeepLoaded(scripts: seq<Option<Script>>) returns (validScripts: seq<Script>)
    ensures validScripts == Present(scripts)
  {
    validScripts := [];
    for i := 0 to |scripts|
      invariant validScripts == Present(scripts[..i])
    {
      assert scripts[..i + 1] == scripts[..i] + [scripts[i]];
      PresentSnoc(scripts[..i], scripts[i]);
      if scripts[i].Some? {
        validScripts := validScripts + [scripts[i].value];
      }
    }
    assert scripts[..|scripts|] == scripts;
  }

  function ScriptId(s: Script): string {
    s.id
  }

  /** Whether probing a slug does not end in a rejected fetch. */
  function ProbeSucceeds(fetch: string -> Response): string -> bool {
    slug => !ProbeScript(fetch, slug).Failed?
  }

  /**
   * The listed ids are the slugs of the index, in index order, less those
   * whose probe was rejected: a missing file does not drop its script.
   */
  lemma ScriptListingIds(ix: ScriptIndex, fetch: string -> Response)
    ensures Map(ScriptListing(Some(ix), fetch), ScriptId) == Filter(AllMembers(ix.categories), ProbeSucceeds(fetch))
  {
    var load := ListedLoader(ix, fetch);
    forall x ensures ProbeSucceeds(fetch)(x) <==> load(x).Some? {
    }
    forall x | load(x).Some? ensures ScriptId(load(x).value) == x {
    }
    PresentMapKeys(AllMembers(ix.categories), load, ScriptId, ProbeSucceeds(fetch));
  }

  /** Every listed script's file name matches its platform, and its id, name and title are its slug. */
  lemma ListedScriptShape(ix: ScriptIndex, fetch: string -> Response, s: Script)
    requires s in ScriptListing(Some(ix), fetch)
    ensures s.id == s.name == s.title
    ensures s.id in AllMembers(ix.categories)
    ensures s.filename == PlatformFile(s.id, s.platform)
    ensures s.category == CategoryOf(ix.categories, s.id)
  {
    PresentMapFrom(AllMembers(ix.categories), ListedLoader(ix, fetch), s);
    var slug :| slug in AllMembers(ix.categories) && ListedLoader(ix, fetch)(slug) == Some(s);
    assert ListedScript(ix, fetch, slug) == Some(s);
  }

  /** A script whose `.ps1` loads with content is listed for Windows under `<slug>.ps1`. */
  lemma ListedWindowsWhenPs1Loads(ix: ScriptIndex, fetch: string -> Response, slug: string)
    requires fetch(ScriptPath(slug + ".ps1")).Ok? && fetch(ScriptPath(slug + ".ps1")).body != []
    ensures ListedScript(ix, fetch, slug).Some?
    ensures ListedScript(ix, fetch, slug).value.platform == Windows
    ensures ListedScript(ix, fetch, slug).value.filename == slug + ".ps1"
  {
  }

  /** A script with neither file is still listed, with empty content and the platform the index gives. */
  lemma ListedWhenMissing(ix: ScriptIndex, fetch: string -> Response, slug: string)
    requires ProbeScript(fetch, slug).Missing?
    ensures ListedScript(ix, fetch, slug).Some?
    ensures ListedScript(ix, fetch, slug).value.content == []
    ensures ListedScript(ix, fetch, slug).value.platform == IndexPlatform(ix, slug).GetOr(Both)
    ensures ListedScript(ix, fetch, slug).value.description == DefaultDescription(slug)
  {
  }

  // ---------------------------------------------------------------------
  // Lookup
  // ---------------------------------------------------------------------

  /** What `getScriptBySlug` returns: null unless a probe finds the file; the platform is the found file's. */
  function LookedUpScript(index: Option<ScriptIndex>, fetch: string -> Response, slug: string): (r: Option<Script>)
    ensures r.Some? <==> ProbeScript(fetch, slug).Found?
    ensures r.Some? ==> r.value.id == slug && r.value.name == slug && r.value.title == slug
    ensures r.Some? ==> r.value.platform != Both && r.value.filename == PlatformFile(slug, r.value.platform)
    ensures r.Some? && index.None? ==> r.value.category == Fallback
    ensures r.Some? && index.Some? ==> r.value.category == CategoryOf(index.value.categories, slug)
    ensures r.Some? ==> && r.value.platform == ProbeScript(fetch, slug).platform
                        && r.value.filename == ProbeScript(fetch, slug).filename
                        && r.value.content == ProbeScript(fetch, slug).content
                        && r.value.description == ScriptDescription(slug, r.value.content)
  {
    match ProbeScript(fetch, slug)
    case Found(platform, filename, content) =>
      var category := if index.None? then Fallback else CategoryOf(index.value.categories, slug);
      Some(Script(slug, slug, slug, ScriptDescription(slug, content), platform, category, filename, content))
    case _ => None
  }

  /**
   * `getScriptBySlug`: category and platform start as `Other` and `both` and
   * come from the index when it loads; then the probes run, and the found
   * file's platform replaces the index's; with neither file the result is
   * null.
   */
  method LookupScript(index: Option<ScriptIndex>, fetch: string -> Response, slug: string) returns (r: Option<Script>)
    ensures r == LookedUpScript(index, fetch, slug)
  {
    var category := Fallback;
    var platform := Both;
    if index.Some? {
      category := FindCategory(index.value.categories, slug);
      if slug in index.value.windows {
        platform := Windows;
      } else if slug in index.value.unix {
        platform := Unix;
      }
    }
    var content := "";
    var filename := "";
    var ps1 := fetch(ScriptPath(slug + ".ps1"));
    if ps1.Thrown? {
      return None;
    }
    if ps1.Ok? {
      content := ps1.body;
      filename := slug + ".ps1";
      platform := Windows;
    } else {
      var sh := fetch(ScriptPath(slug + ".sh"));
      if !sh.Ok? {
        return None;
      }
      content := sh.body;
      filename := slug + ".sh";
      platform := Unix;
    }
    var description := DescribeScript(slug, content);
    r := Some(Script(slug, slug, slug, description, platform, category,
                     if filename == "" then slug else filename, content));
  }

  /** The lookup's platform and file name never depend on the index. */
  lemma LookupIgnoresIndexPlatform(i1: Option<ScriptIndex>, i2: Option<ScriptIndex>, fetch: string -> Response, slug: string)
    ensures LookedUpScript(i1, fetch, slug).Some? <==> LookedUpScript(i2, fetch, slug).Some?
    ensures LookedUpScript(i1, fetch, slug).Some? ==>
              LookedUpScript(i1, fetch, slug).value.platform == LookedUpScript(i2, fetch, slug).value.platform
              && LookedUpScript(i1, fetch, slug).value.filename == LookedUpScript(i2, fetch, slug).value.filename
  {
  }

  /** For a script file found with content, the listing and the lookup build the same script. */
  lemma ListingAgreesWithLookup(ix: ScriptIndex, fetch: string -> Response, slug: string)
    requires ProbeScript(fetch, slug).Found? && ProbeScript(fetch, slug).content != []
    ensures ListedScript(ix, fetch, slug) == LookedUpScript(Some(ix), fetch, slug)
  {
  }

  /** A script with neither file is listed but cannot be looked up. */
  lemma MissingListedNotFound(ix: ScriptIndex, fetch: string -> Response, slug: string)
    requires ProbeScript(fetch, slug).Missing?
    ensures ListedScript(ix, fetch, slug).Some?
    ensures LookedUpScript(Some(ix), fetch, slug).None?
  {
  }
}
