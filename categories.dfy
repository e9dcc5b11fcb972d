/**
 * Category membership: the table the command classifier hard-codes and the
 * `categories` part of the `index.json` documents the web portal fetches. Both
 * are a list of labelled groups scanned in order, first match wins, with
 * `Other` as the fallback label.
 */
module Categories {
  import opened Wrappers

  /**
   * One category: its display label and its members. For an index category
   * whose `commands` (or `scripts`) list is absent the members are empty,
   * which the source treats identically (`?.includes` is falsy and nothing is
   * pushed).
   */
  datatype Group = Group(name: string, members: seq<string>)

  const Fallback: string := "Other"

  /** The position of the first group listing `id`, scanning from `i`. */
  function FirstGroupFrom(groups: seq<Group>, id: string, i: nat): (r: Option<nat>)
    requires i <= |groups|
    ensures r.Some? ==> i <= r.value < |groups| && id in groups[r.value].members
    ensures r.Some? ==> forall k :: i <= k < r.value ==> id !in groups[k].members
    ensures r.None? ==> forall k :: i <= k < |groups| ==> id !in groups[k].members
    decreases |groups| - i
  {
    if i == |groups| then None
    else if id in groups[i].members then Some(i)
    else FirstGroupFrom(groups, id, i + 1)
  }

  /**
   * The label of the first group listing `id`, or `Other`. This is the
   * meaning of the lookup loops in both command readers and the script reader.
   */
  function CategoryOf(groups: seq<Group>, id: string): (category: string)
    ensures (forall k :: 0 <= k < |groups| ==> id !in groups[k].members) ==> category == Fallback
    ensures forall k :: 0 <= k < |groups| && id in groups[k].members
                        && (forall j :: 0 <= j < k ==> id !in groups[j].members)
                        ==> category == groups[k].name
  {
    match FirstGroupFrom(groups, id, 0)
    case Some(k) => groups[k].name
    case None => Fallback
  }

  /** No identifier is listed under two groups. */
  predicate MembersDisjoint(groups: seq<Group>) {
    forall i, j, x :: 0 <= i < j < |groups| && x in groups[i].members ==> x !in groups[j].members
  }

  /** When groups are disjoint, an identifier's category is the one group that lists it. */
  lemma LabelOfUniqueMember(groups: seq<Group>, k: nat, id: string)
    requires MembersDisjoint(groups)
    requires k < |groups| && id in groups[k].members
    ensures CategoryOf(groups, id) == groups[k].name
  {
    assert forall j :: 0 <= j < k ==> id !in groups[j].members;
  }

  /**
   * The category loop of the web portal's readers: start from `Other`, take
   * the label of the first group whose list includes `id`, then `break`.
   */
  method FindCategory(groups: seq<Group>, id: string) returns (category: string)
    ensures category == CategoryOf(groups, id)
  {
    category := Fallback;
    var i := 0;
    while i < |groups|
      invariant 0 <= i <= |groups|
      invariant forall k :: 0 <= k < i ==> id !in groups[k].members
      invariant category == Fallback
    {
      if id in groups[i].members {
        category := groups[i].name;
        break;
      }
      i := i + 1;
    }
  }

  /** Every group's members, concatenated in group order. */
  function AllMembers(groups: seq<Group>): (ids: seq<string>)
    decreases |groups|
  {
    if |groups| == 0 then [] else groups[0].members + AllMembers(groups[1..])
  }

  /** An identifier is collected exactly when some group lists it, that is, when it has a group. */
  lemma {:induction false} AllMembersSpec(groups: seq<Group>, id: string)
    ensures id in AllMembers(groups) <==> exists k :: 0 <= k < |groups| && id in groups[k].members
    ensures id in AllMembers(groups) <==> FirstGroupFrom(groups, id, 0).Some?
    decreases |groups|
  {
    if |groups| > 0 {
      AllMembersSpec(groups[1..], id);
      assert forall k :: 1 <= k < |groups| ==> groups[k] == groups[1..][k - 1];
      if exists k :: 1 <= k < |groups| && id in groups[k].members {
        var k :| 1 <= k < |groups| && id in groups[k].members;
        assert id in groups[1..][k - 1].members;
      }
    }
  }

  /**
   * The slug collection of `getAllCommands` and `getAllScripts`: for each
   * index category, push all of its listed slugs.
   */
  method CollectMembers(groups: seq<Group>) returns (ids: seq<string>)
    ensures ids == AllMembers(groups)
  {
    ids := [];
    var i := 0;
    while i < |groups|
      invariant 0 <= i <= |groups|
      invariant ids + AllMembers(groups[i..]) == AllMembers(groups)
    {
      assert groups[i..][1..] == groups[i + 1..];
      ids := ids + groups[i].members;
      i := i + 1;
    }
  }

  /** The classifier table hard-coded in both `getCategoryForCommand` functions. */
  const CommandTable: seq<Group> := [
    Group("Code Quality & Cleanup", ["cleanup-unused-code", "fix-import-paths", "fix-spacing-layout", "refactor-cleanup"]),
    Group("UI Component Fixes", ["fix-filter-bar", "fix-data-table", "fix-form-fields", "implement-view-modes", "standardize-status-badges"]),
    Group("Testing & Debugging", ["test-page-quick", "test-feature-pages", "test-pages", "debug-failing-page"]),
    Group("Development Workflows", ["standardize-page", "pre-commit-checklist", "daily-cleanup", "pr-ready"]),
    Group("Discovery & Help", ["find-command", "suggest-command"]),
    Group("Design System", ["design-token-check"]),
    Group("Utilities", ["command-usage-report"])
  ]

  /** `getCategoryForCommand` as a value, for the expressions that call it. */
  function Classify(id: string): string {
    CategoryOf(CommandTable, id)
  }

  /** The table lists no command id under two categories. */
  lemma CommandTableDisjoint()
    ensures MembersDisjoint(CommandTable)
  {
    NoLaterGroupLists0();
    NoLaterGroupLists1();
    NoLaterGroupLists2();
    NoLaterGroupLists3();
    NoLaterGroupLists4();
    NoLaterGroupLists5();
  }

  /** No id of the table's group 0 is listed by a later group. */
  lemma NoLaterGroupLists0()
    ensures forall j, x :: 0 < j < |CommandTable| && x in CommandTable[0].members ==> x !in CommandTable[j].members
  {
  }

  /** No id of the table's group 1 is listed by a later group. */
  lemma NoLaterGroupLists1()
    ensures forall j, x :: 1 < j < |CommandTable| && x in CommandTable[1].members ==> x !in CommandTable[j].members
  {
  }

  /** No id of the table's group 2 is listed by a later group. */
  lemma NoLaterGroupLists2()
    ensures forall j, x :: 2 < j < |CommandTable| && x in CommandTable[2].members ==> x !in CommandTable[j].members
  {
  }

  /** No id of the table's group 3 is listed by a later group. */
  lemma NoLaterGroupLists3()
    ensures forall j, x :: 3 < j < |CommandTable| && x in CommandTable[3].members ==> x !in CommandTable[j].members
  {
  }

  /** No id of the table's group 4 is listed by a later group. */
  lemma NoLaterGroupLists4()
    ensures forall j, x :: 4 < j < |CommandTable| && x in CommandTable[4].members ==> x !in CommandTable[j].members
  {
  }

  /** No id of the table's group 5 is listed by a later group. */
  lemma NoLaterGroupLists5()
    ensures forall j, x :: 5 < j < |CommandTable| && x in CommandTable[5].members ==> x !in CommandTable[j].members
  {
  }

  /** Each listed command id is classified under the one category that lists it. */
  lemma ClassifyListed(k: nat, id: string)
    requires k < |CommandTable| && id in CommandTable[k].members
    ensures Classify(id) == CommandTable[k].name
  {
    CommandTableDisjoint();
    LabelOfUniqueMember(CommandTable, k, id);
  }

  /** Every id the table does not list is classified `Other`. */
  lemma ClassifyUnlisted(id: string)
    requires id !in AllMembers(CommandTable)
    ensures Classify(id) == Fallback
  {
    AllMembersSpec(CommandTable, id);
  }

  /**
   * `getCategoryForCommand`: scan the table in order and return the first
   * category whose list includes the id, else `Other`.
   */
  method CategoryForCommand(id: string) returns (category: string)
    ensures category == Classify(id)
  {
    category := FindCategory(CommandTable, id);
  }
}
