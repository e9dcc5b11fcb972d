/**
 * The command library page: the category selector's entries, the search and
 * category filter over the commands, and the grouping of the filtered
 * commands by category. Categories here always come from the classifier
 * table, not from the commands' own `category` field.
 */
module Library {
  import opened Wrappers
  import opened Text
  import opened Seqs
  import opened Categories
  import opened CommandParser

  /** The category the page shows for a command: `getCategoryForCommand(command.id)`. */
  function Label(c: Command): string {
    Classify(c.id)
  }

  /** The selector value that means every category. */
  const All: string := "all"

  /** `['all', ...Array.from(new Set(labels)).sort()]`. */
  function LibraryCategories(commands: seq<Command>): seq<string> {
    [All] + SortBy(Distinct(Map(commands, Label)), Same)
  }

  /** Every label the classifier gives is a category name of the table or `Other`. */
  lemma ClassifyRange(id: string)
    ensures Classify(id) == Fallback || exists k :: 0 <= k < |CommandTable| && Classify(id) == CommandTable[k].name
  {
    match FirstGroupFrom(CommandTable, id, 0)
    case Some(k) =>
    case None =>
  }

  /** No category name of the table is `all`. */
  lemma TableNamesNotAll()
    ensures forall k :: 0 <= k < |CommandTable| ==> CommandTable[k].name != All
  {
    assert forall k :: 0 <= k < |CommandTable| ==> |CommandTable[k].name| > 3;
  }

  /** No label is `all`, so the sentinel never collides with a category. */
  lemma LabelIsNotAll(id: string)
    ensures Classify(id) != All
  {
    ClassifyRange(id);
    TableNamesNotAll();
  }

  /**
   * The selector lists `all` first and then each label of the commands once,
   * sorted, and nothing else.
   */
  lemma LibraryCategoriesSpec(commands: seq<Command>)
    ensures LibraryCategories(commands)[0] == All
    ensures SortedBy(LibraryCategories(commands)[1..], Same)
    ensures NoDuplicates(LibraryCategories(commands))
    ensures forall x :: x in LibraryCategories(commands)[1..] <==> exists c :: c in commands && Label(c) == x
  {
    forall c | c in commands ensures Label(c) != All {
      LabelIsNotAll(c.id);
    }
    SelectorList(commands, Label, All);
  }

  /** `text?.toLowerCase().includes(query.toLowerCase())`. */
  predicate ContainsIgnoringCase(text: string, query: string) {
    Contains(Lower(text), Lower(query))
  }

  /** The search box: name, description, purpose (when present) or label; the title is not searched. */
  predicate MatchesSearch(c: Command, query: string) {
    || query == ""
    || ContainsIgnoringCase(c.name, query)
    || ContainsIgnoringCase(c.description, query)
    || (c.purpose.Some? && ContainsIgnoringCase(c.purpose.value, query))
    || ContainsIgnoringCase(Label(c), query)
  }

  /** The category selector: `all`, or the command's label. */
  predicate MatchesCategory(c: Command, selected: string) {
    selected == All || Label(c) == selected
  }

  function CommandTest(query: string, selected: string): Command -> bool {
    c => MatchesSearch(c, query) && MatchesCategory(c, selected)
  }

  /** `filteredCommands`. */
  function FilterCommands(commands: seq<Command>, query: string, selected: string): (r: seq<Command>)
    ensures IsSubsequence(r, commands)
    ensures forall c :: c in r <==> (c in commands && MatchesSearch(c, query) && MatchesCategory(c, selected))
  {
    FilterIsSubsequence(commands, CommandTest(query, selected));
    Filter(commands, CommandTest(query, selected))
  }

  /** With no query and `all` selected every command is shown, in order. */
  lemma NoFilterShowsAll(commands: seq<Command>)
    ensures FilterCommands(commands, "", All) == commands
  {
    FilterAll(commands, CommandTest("", All));
  }

  /** Changing a command's title never changes whether it matches. */
  lemma TitleNotSearched(c: Command, title: string, query: string, selected: string)
    ensures CommandTest(query, selected)(c) == CommandTest(query, selected)(c.(title := title))
  {
  }

  /**
   * `groupedCommands`: walk the filtered commands, create the group of a
   * label the first time it is seen and push the command onto its group.
   * `keys` is the insertion order of the groups' keys.
   */
  method GroupByCategory(filtered: seq<Command>) returns (keys: seq<string>, groups: map<string, seq<Command>>)
    ensures keys == Distinct(Map(filtered, Label))
    ensures forall k :: k in groups <==> k in keys
    ensures forall k :: k in groups ==> groups[k] == Filter(filtered, KeyIs(Label, k))
  {
    keys := [];
    groups := map[];
    for i := 0 to |filtered|
      invariant Grouped(filtered[..i], Label, keys, groups)
    {
      var command := filtered[i];
      var category := CategoryForCommand(command.id);
      assert category == Label(command);
      GroupedStep(filtered, i, Label, keys, groups);
      if category !in groups {
        groups := groups[category := []];
        keys := keys + [category];
      }
      groups := groups[category := groups[category] + [command]];
    }
    assert filtered[..|filtered|] == filtered;
  }

  /** The groups partition the filtered commands: their sizes add up to the number of filtered commands. */
  lemma GroupsCoverFiltered(filtered: seq<Command>)
    ensures GroupSizes(filtered, Label, Distinct(Map(filtered, Label))) == |filtered|
  {
    GroupsPartition(filtered, Label);
  }

  /** A filtered command is in exactly the group of its label. */
  lemma CommandInItsGroupOnly(filtered: seq<Command>, c: Command, k: string)
    requires c in filtered
    ensures c in Filter(filtered, KeyIs(Label, k)) <==> Label(c) == k
  {
  }

  /** Group keys appear in order of their first command in the filtered list. */
  lemma GroupKeysInFirstAppearanceOrder(filtered: seq<Command>)
    ensures var keys := Distinct(Map(filtered, Label));
            forall i, j :: 0 <= i < j < |keys| ==>
              && keys[i] in Map(filtered, Label) && keys[j] in Map(filtered, Label)
              && FirstIndex(Map(filtered, Label), keys[i]) < FirstIndex(Map(filtered, Label), keys[j])
  {
    DistinctSpec(Map(filtered, Label));
  }
}
