/**
 * The scripts page: the search, category and platform filters over the
 * loaded scripts, and the list of categories offered by the category
 * selector. A selector holding `null` (or the empty string) means "no
 * filter".
 */
module ScriptFilter {
  import opened Wrappers
  import opened Text
  import opened Seqs
  import opened Scripts

  /** `haystack.toLowerCase().includes(query.toLowerCase())`. */
  predicate ContainsIgnoringCase(haystack: string, query: string) {
    Contains(Lower(haystack), Lower(query))
  }

  /** The search box: an empty query matches; otherwise name, description, file name or category must contain it. */
  predicate MatchesSearch(s: Script, query: string) {
    || query == ""
    || ContainsIgnoringCase(s.name, query)
    || ContainsIgnoringCase(s.description, query)
    || ContainsIgnoringCase(s.filename, query)
    || ContainsIgnoringCase(s.category, query)
  }

  /** The category selector: nothing selected matches; otherwise the category must be the selected one. */
  predicate MatchesCategory(s: Script, selected: Option<string>) {
    selected.None? || selected.value == "" || s.category == selected.value
  }

  /** The platform selector: nothing selected matches; `windows`, `unix` and `both` match that platform only. */
  predicate MatchesPlatform(s: Script, selected: Option<string>) {
    || selected.None?
    || selected.value == ""
    || (selected.value == "windows" && s.platform == Windows)
    || (selected.value == "unix" && s.platform == Unix)
    || (selected.value == "both" && s.platform == Both)
  }

  function ScriptTest(query: string, category: Option<string>, platform: Option<string>): Script -> bool {
    s => MatchesSearch(s, query) && MatchesCategory(s, category) && MatchesPlatform(s, platform)
  }

  /** `filteredScripts`. */
  function FilterScripts(scripts: seq<Script>, query: string, category: Option<string>, platform: Option<string>): (r: seq<Script>)
    ensures IsSubsequence(r, scripts)
    ensures forall s :: s in r <==> (s in scripts && MatchesSearch(s, query)
                                    && MatchesCategory(s, category) && MatchesPlatform(s, platform))
  {
    FilterIsSubsequence(scripts, ScriptTest(query, category, platform));
    Filter(scripts, ScriptTest(query, category, platform))
  }

  /** With no query and no selection every script is shown, in order. */
  lemma NoFilterShowsAll(scripts: seq<Script>)
    ensures FilterScripts(scripts, "", None, None) == scripts
  {
    FilterAll(scripts, ScriptTest("", None, None));
  }

  /** A platform selection matches exactly the scripts whose platform has that name. */
  lemma PlatformSelection(s: Script, selected: string)
    requires selected != ""
    ensures MatchesPlatform(s, Some(selected)) <==> selected == PlatformName(s.platform)
  {
  }

  /** The search ignores letter case in the query. */
  lemma SearchIgnoresQueryCase(s: Script, query: string)
    ensures MatchesSearch(s, query) <==> MatchesSearch(s, Lower(query))
  {
    LowerIdempotent(query);
  }

  function CategoryOfScript(s: Script): string {
    s.category
  }

  predicate NonEmpty(x: string) {
    x != ""
  }

  /** `Array.from(new Set(scripts.map(s => s.category).filter(Boolean)))`. */
  function ScriptCategories(scripts: seq<Script>): seq<string> {
    Distinct(Filter(Map(scripts, CategoryOfScript), NonEmpty))
  }

  /**
   * The category list names every non-empty category of the scripts once,
   * and nothing else, in order of first appearance.
   */
  lemma ScriptCategoriesSpec(scripts: seq<Script>)
    ensures NoDuplicates(ScriptCategories(scripts))
    ensures forall c :: c in ScriptCategories(scripts) <==> c != "" && exists s :: s in scripts && s.category == c
    ensures var cats := Filter(Map(scripts, CategoryOfScript), NonEmpty);
            forall i, j :: 0 <= i < j < |ScriptCategories(scripts)| ==>
              && ScriptCategories(scripts)[i] in cats && ScriptCategories(scripts)[j] in cats
              && FirstIndex(cats, ScriptCategories(scripts)[i]) < FirstIndex(cats, ScriptCategories(scripts)[j])
  {
    var all := Map(scripts, CategoryOfScript);
    DistinctSpec(Filter(all, NonEmpty));
    forall c ensures c in all <==> exists s :: s in scripts && s.category == c {
      if c in all {
        var i :| 0 <= i < |all| && all[i] == c;
        assert scripts[i] in scripts;
      }
      if exists s :: s in scripts && s.category == c {
        var s :| s in scripts && s.category == c;
        var i :| 0 <= i < |scripts| && scripts[i] == s;
        assert all[i] == c;
      }
    }
  }
}
