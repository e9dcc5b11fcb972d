/**
 * The web portal's command reader. It fetches `index.json`, collects the
 * command slugs of every index category, fetches `/commands/<slug>.md` for
 * each and parses it with case-insensitive section headings, labelling each
 * command with the first index category listing it.
 *
 * The network is an input: `fetch` maps a path to the outcome of fetching it,
 * and the index is `None` when its fetch is not ok, throws, or its JSON has no
 * usable `categories`.
 */
module PortalCommands {
  import opened Wrappers
  import opened Seqs
  import opened Categories
  import opened CommandParser

  /** The outcome of one `fetch`: a body with an ok status, a response that is not ok, or a rejection. */
  datatype Response = Ok(body: string) | NotOk | Thrown

  /** The path a command's document is fetched from. */
  function DocPath(slug: string): string {
    "/commands/" + slug + ".md"
  }

  /**
   * A command built from the response to its document fetch: parsed with the
   * `i` flag and labelled `category` when the response is ok, null otherwise.
   */
  function CommandFromResponse(slug: string, category: string, response: Response): (r: Option<Command>)
    ensures r.Some? <==> response.Ok?
    ensures r.Some? ==> r.value.id == slug && r.value.content == response.body
                        && r.value.category == Some(category)
  {
    match response
    case Ok(text) => Some(Parse(slug, text, Some(category), true))
    case _ => None
  }

  /** What the listing does for one slug. */
  function LoadedCommand(groups: seq<Group>, fetch: string -> Response, slug: string): Option<Command> {
    CommandFromResponse(slug, CategoryOf(groups, slug), fetch(DocPath(slug)))
  }

  /**
   * The per-slug callback of `getAllCommands`: fetch the document, give up
   * with null when the response is not ok or the fetch throws, otherwise
   * parse it and find its category with the index loop.
   */
  method LoadCommand(groups: seq<Group>, fetch: string -> Response, slug: string) returns (r: Option<Command>)
    ensures r == LoadedCommand(groups, fetch, slug)
    ensures r.Some? <==> fetch(DocPath(slug)).Ok?
    ensures r.Some? ==> r.value.category == Some(CategoryOf(groups, slug))
  {
    var response := fetch(DocPath(slug));
    if !response.Ok? {
      return None;
    }
    var text := response.body;
    var category := FindCategory(groups, slug);
    r := Some(Parse(slug, text, Some(category), true));
  }

  /** The per-slug callback as a function value. */
  function Loader(groups: seq<Group>, fetch: string -> Response): string -> Option<Command> {
    slug => LoadedCommand(groups, fetch, slug)
  }

  /** What `getAllCommands` returns for an index and the documents the server holds. */
  function Listing(index: Option<seq<Group>>, fetch: string -> Response): seq<Command> {
    match index
    case None => []
    case Some(groups) => Present(Map(AllMembers(groups), Loader(groups, fetch)))
  }

  /**
   * `getAllCommands`: collect the slugs, map each to its loaded command (the
   * `Promise.all` fan-out is modelled as a loop in slug order), and drop the
   * nulls. An unavailable index yields the empty list.
   */
  method AllCommands(index: Option<seq<Group>>, fetch: string -> Response) returns (commands: seq<Command>)
    ensures commands == Listing(index, fetch)
  {
    if index.None? {
      return [];
    }
    var groups := index.value;
    var slugs := CollectMembers(groups);
    var results: seq<Option<Command>> := [];
    for i := 0 to |slugs|
      invariant results == Map(slugs[..i], Loader(groups, fetch))
    {
      var loaded := LoadCommand(groups, fetch, slugs[i]);
      MapStep(slugs, i, Loader(groups, fetch));
      results := results + [loaded];
    }
    assert slugs[..|slugs|] == slugs;
    commands := Present(results);
  }

  function IdOf(c: Command): string {
    c.id
  }

  /** Whether a slug's document can be fetched. */
  predicate Fetchable(fetch: string -> Response, slug: string) {
    fetch(DocPath(slug)).Ok?
  }

  function FetchableIn(fetch: string -> Response): string -> bool {
    slug => Fetchable(fetch, slug)
  }

  /**
   * The listed ids are exactly the fetchable slugs of the index, in index
   * order: a failed fetch drops its slug and nothing is re-sorted.
   */
  lemma ListingIds(groups: seq<Group>, fetch: string -> Response)
    ensures Map(Listing(Some(groups), fetch), IdOf) == Filter(AllMembers(groups), FetchableIn(fetch))
  {
    var load := Loader(groups, fetch);
    forall x ensures FetchableIn(fetch)(x) <==> load(x).Some? {
    }
    forall x | load(x).Some? ensures IdOf(load(x).value) == x {
    }
    PresentMapKeys(AllMembers(groups), load, IdOf, FetchableIn(fetch));
  }

  /** Every listed command carries its index category and its document unchanged. */
  lemma ListingEntry(groups: seq<Group>, fetch: string -> Response, c: Command)
    requires c in Listing(Some(groups), fetch)
    ensures Some(c) == LoadedCommand(groups, fetch, c.id)
    ensures c.category == Some(CategoryOf(groups, c.id))
    ensures fetch(DocPath(c.id)).Ok? && c.content == fetch(DocPath(c.id)).body
    ensures c.title == "/" + c.name
  {
    PresentMapFrom(AllMembers(groups), Loader(groups, fetch), c);
    var slug :| slug in AllMembers(groups) && Loader(groups, fetch)(slug) == Some(c);
    assert LoadedCommand(groups, fetch, slug) == Some(c);
  }

  /** The category `getCommandBySlug` settles on: `Other` unless the index loads. */
  function IndexCategory(index: Option<seq<Group>>, slug: string): (category: string)
    ensures index.None? ==> category == Fallback
    ensures index.Some? ==> category == CategoryOf(index.value, slug)
  {
    match index
    case None => Fallback
    case Some(groups) => CategoryOf(groups, slug)
  }

  /**
   * `getCommandBySlug`: look the category up when the index is available,
   * then fetch and parse the document, or return null when that fetch is not
   * ok or throws.
   */
  method LookupCommand(index: Option<seq<Group>>, fetch: string -> Response, slug: string) returns (r: Option<Command>)
    ensures r == CommandFromResponse(slug, IndexCategory(index, slug), fetch(DocPath(slug)))
    ensures r.Some? <==> Fetchable(fetch, slug)
    ensures r.Some? && index.None? ==> r.value.category == Some(Fallback)
  {
    var category := Fallback;
    if index.Some? {
      category := FindCategory(index.value, slug);
    }
    var response := fetch(DocPath(slug));
    if !response.Ok? {
      return None;
    }
    var text := response.body;
    r := Some(Parse(slug, text, Some(category), true));
  }

  /** Looking a listed command up by its id yields that same command. */
  lemma ListedCommandsResolve(groups: seq<Group>, fetch: string -> Response, c: Command)
    requires c in Listing(Some(groups), fetch)
    ensures CommandFromResponse(c.id, IndexCategory(Some(groups), c.id), fetch(DocPath(c.id))) == Some(c)
  {
    ListingEntry(groups, fetch, c);
  }
}
