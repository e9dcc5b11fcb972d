# command-library core in Dafny

A model of the command library website's data layer. It covers:

- the server reader of slash-command markdown documents (`app/lib/commands.ts`): listing the `.md` files sorted by name, looking one up by slug, and the static category table;
- the web portal's reader of the same documents (`app/web-portal/src/utils/commands.ts`): slugs collected from `index.json`, a category lookup through the index, case-insensitive section headings and failed fetches dropped;
- the portal's script resolver (`app/web-portal/src/utils/scripts.ts`): the `.ps1`/`.sh` probes, the fallback to the index platform lists, the comment-description scan, the category lookup, and list mode versus lookup mode;
- the scripts page filters and category list (`app/web-portal/src/pages/Scripts.tsx`);
- the command library page (`app/app/library/LibraryClient.tsx`): its category selector entries, its search and category filter, and the grouping of the filtered commands by category.

The files are:

- `wrappers.dfy`: `Option`.
- `text.dfy`: the JavaScript string operations the code relies on:
  - `trim` and the `\s` whitespace set;
  - `split('\n')`;
  - `toLowerCase` on ASCII;
  - `startsWith`, `endsWith` and `includes`;
  - code-point string order.
- `seqs.dfy`: `filter`, `map`, null-dropping, `new Set` insertion order, stable sort and grouping, each with its laws.
- `categories.dfy`: the category lookup loops, both the static table of `getCategoryForCommand` and the reverse lookup through an index.
- `sections.dfy`: the four section patterns `##\s*<Heading>\s*\n(...)`. They are modelled character by character with the leftmost-match and greedy-backtracking choices of a JavaScript regular expression, with and without the `i` flag.
- `command_parser.dfy`: the document parser shared by both readers: name, title, description and sections.
- `server_commands.dfy`, `portal_commands.dfy`, `scripts.dfy`, `script_filter.dfy`, `library.dfy`: one module per core file.

I/O is an input.

- Listing the commands directory gives `files`.
- Reading a file gives `dir[file]`, the text after front matter. A name missing from `dir` is a read that throws.
- A `fetch` is a function from path to `Response`: `Ok(body)`, `NotOk` for a response whose `ok` is false, or `Thrown` for a rejected promise.
- An `index.json` that cannot be loaded or used is `None`.

## Model

| member | source | states |
|---|---|---|
| Text.Trim | app/lib/commands.ts:32 | `trim` removes surrounding whitespace: the result is empty exactly when the input is blank, and otherwise starts and ends with a non-space |
| Text.TrimSlice | app/lib/commands.ts:32 | the trimmed string is the slice of the input between a blank prefix and a blank suffix |
| Text.TrimTrimmed | app/lib/commands.ts:49-52 | trimming a string that has no surrounding whitespace returns it unchanged |
| Text.Lines | app/lib/commands.ts:31 | `split('\n')` gives at least one piece, and no piece holds a line feed |
| Text.JoinLines | app/lib/commands.ts:31 | joining the pieces of `split('\n')` with line feeds gives back the original text |
| Text.LinesJoin | app/lib/commands.ts:35 | splitting text joined from line-feed-free pieces gives back those pieces |
| Text.LinesCons | app/lib/commands.ts:31 | a first line without a line feed becomes the first piece of the split |
| Text.LinesSingle | app/lib/commands.ts:31 | text without a line feed splits into the one piece it is |
| Text.Lower | app/web-portal/src/pages/Scripts.tsx:28 | `toLowerCase` keeps the length |
| Text.LowerIdempotent | app/web-portal/src/pages/Scripts.tsx:28 | lowering twice is the same as lowering once |
| Text.ContainsAt | app/web-portal/src/pages/Scripts.tsx:28 | `includes` holds exactly when the query occurs at some position |
| Text.StrLeTotal | app/lib/commands.ts:58 | the order used to sort names is total |
| Text.StrLeTrans | app/lib/commands.ts:58 | the order used to sort names is transitive |
| Text.StrLeAntisymmetric | app/lib/commands.ts:58 | the order used to sort names is antisymmetric |
| Seqs.Filter | app/web-portal/src/pages/Scripts.tsx:25-41 | `filter` keeps exactly the elements that pass, never adds any, and never makes the list longer |
| Seqs.FilterNth | app/lib/commands.ts:35-36 | the `m`-th element kept by `filter` sits at an input position preceded by exactly `m` kept elements |
| Seqs.FirstAt | app/lib/commands.ts:39-42 | the least position in a range where a test holds, or none when it holds nowhere in the range |
| Seqs.FilterIsSubsequence | app/app/library/LibraryClient.tsx:22-35 | a filtered list keeps the relative order of the input |
| Seqs.SortBy | app/lib/commands.ts:58 | the sort result is sorted by the key and is a permutation of its input |
| Seqs.SortByMembers | app/lib/commands.ts:58 | sorting neither adds nor drops an element |
| Seqs.InsertByStable | app/lib/commands.ts:58 | inserting one element into a sorted list adds it after the elements of its key, so those keep their order |
| Seqs.SortByStable | app/lib/commands.ts:58 | the sort is stable: the elements with any one key appear in the result in their input order |
| Seqs.DistinctSpec | app/web-portal/src/pages/Scripts.tsx:44 | `Array.from(new Set(...))` has no duplicates and holds exactly the input's values, in order of first appearance |
| Seqs.SortedDistinct | app/app/library/LibraryClient.tsx:18-19 | the values of a set, sorted, are sorted, duplicate-free, and exactly the input's values |
| Seqs.SelectorList | app/app/library/LibraryClient.tsx:18-19 | a sentinel followed by the sorted distinct keys starts with the sentinel, has no duplicates, is sorted after it, and lists exactly the keys that occur |
| Seqs.PresentMapKeys | app/web-portal/src/utils/commands.ts:87-88 | mapping a loader over keys and dropping the nulls keeps, in order, exactly the keys whose load succeeds |
| Seqs.GroupedStep | app/app/library/LibraryClient.tsx:39-45 | creating a missing group and then pushing onto it keeps the grouping invariant: keys in order of first appearance, and each group holding exactly its elements in order |
| Seqs.GroupsPartition | app/app/library/LibraryClient.tsx:37-47 | the group sizes add up to the number of grouped elements |
| Categories.FirstGroupFrom | app/web-portal/src/utils/commands.ts:62-67 | the found group lists the id and no earlier group does; none is found only when no group lists it |
| Categories.CategoryOf | app/web-portal/src/utils/commands.ts:61-67 | the category is `Other` when no group lists the id, and otherwise the name of the first group listing it |
| Categories.LabelOfUniqueMember | app/lib/commands.ts:94-110 | with disjoint groups, the category of a listed id is the one group that lists it |
| Categories.FindCategory | app/web-portal/src/utils/commands.ts:61-67 | the loop with its `break` computes the first-listing-group category |
| Categories.AllMembersSpec | app/web-portal/src/utils/commands.ts:29-33 | an id is collected exactly when some index category lists it |
| Categories.CollectMembers | app/web-portal/src/utils/commands.ts:29-33 | the push loop collects every category's members, concatenated in index order |
| Categories.CommandTableDisjoint | app/lib/commands.ts:94-102 | no command id is listed under two categories of the static table |
| Categories.ClassifyListed | app/lib/commands.ts:104-108 | a listed id is classified under the category that lists it |
| Categories.ClassifyUnlisted | app/lib/commands.ts:110 | an id that the table does not list is classified `Other` |
| Categories.CategoryForCommand | app/lib/commands.ts:93-111 | the loop with early return computes the static classification; the portal's copy at app/web-portal/src/utils/commands.ts:149-167 has the same table and loop |
| Sections.LastLineBreak | app/lib/commands.ts:39 | the greedy `\s*` gives back characters until `\n(` matches, and the last line feed that works is chosen |
| Sections.NextBacktick | app/lib/commands.ts:40 | the first backtick at or after a position |
| Sections.UsageCapture | app/lib/commands.ts:40 | the usage capture is non-empty and holds no backtick |
| Sections.LineCapture | app/lib/commands.ts:39 | a line capture is non-empty and holds no line feed |
| Sections.CaptureAt | app/lib/commands.ts:39-42 | a match starts with `##` and its capture has the shape that the pattern's group allows |
| Sections.FirstMatch | app/lib/commands.ts:39-42 | `match` reports the leftmost start position that has a capture |
| Sections.SectionValue | app/lib/commands.ts:49-52 | a section is absent exactly when its pattern matches nowhere; when present, its value is trimmed and line-free (backtick-free for usage) |
| Sections.CaseSensitiveMatchAlsoInsensitive | app/web-portal/src/utils/commands.ts:55-58 | a case-sensitive match is also a case-insensitive match, with the same capture |
| Sections.PortalFindsServerSections | app/web-portal/src/utils/commands.ts:55-58 | when the server's pattern finds a section, the portal's `i` pattern finds it too |
| Sections.NoMatchBefore | app/lib/commands.ts:39-42 | no match starts inside a prefix that holds no `##` |
| Sections.HeadingMatches | app/lib/commands.ts:39-42 | `## <Heading>` matches the heading part of the pattern |
| Sections.CaptureAfterHeading | app/lib/commands.ts:39-42 | once the heading matches, the capture is what follows the heading |
| Sections.LineCaptureOf | app/lib/commands.ts:39 | a line feed followed by a non-blank line captures exactly that line |
| Sections.UsageCaptureOf | app/lib/commands.ts:40 | a line feed, then a backtick-delimited span, captures exactly the span's inner text |
| Sections.FirstMatchIs | app/lib/commands.ts:39-42 | the leftmost position with a capture is where `match` reports the match |
| Sections.SectionValueAt | app/lib/commands.ts:49-52 | when the leftmost capture is at a given position, the section value is that capture trimmed |
| Sections.LineCaptureAtHeading | app/lib/commands.ts:39 | `## <Heading>`, a line feed and a non-blank line capture exactly that line |
| Sections.LineSectionRoundTrip | app/lib/commands.ts:39-52 | a document with `## <Heading>` and then a value line yields that value, trimmed, for purpose, speed and when-to-use |
| Sections.LineSectionIn | app/lib/commands.ts:39-52 | any text laid out as a `##`-free prefix, `## <Heading>` and a value line yields that value, trimmed |
| Sections.UsageRoundTrip | app/lib/commands.ts:40-50 | a document with `## Usage` and then a backtick span yields the span's inner text, trimmed |
| Sections.UsageLayout | app/lib/commands.ts:40 | where the heading, the line feed and the backtick span sit in a rendered usage section |
| Sections.UsageSectionIn | app/lib/commands.ts:40-50 | any text laid out as a `##`-free prefix, `## Usage` and a backtick span yields the span, trimmed |
| CommandParser.CommandPrefixEnd | app/lib/commands.ts:32 | `/^#\s*\//` matches exactly when the line is `#`, whitespace only, then `/`; the reported end is where that match ends, and nothing is reported exactly when the pattern matches at no length |
| CommandParser.CommandPrefixUnique | app/lib/commands.ts:32 | the prefix pattern matches a line in at most one way |
| CommandParser.StripCommandPrefix | app/lib/commands.ts:32 | where the prefix matches `line[..k]` the result is `line[k..]`; where it matches nowhere the line is unchanged |
| CommandParser.FirstLine | app/lib/commands.ts:31 | `split('\n')[0]` is the prefix of the text that holds no line feed and ends at the first line feed or at the end |
| CommandParser.NameOf | app/lib/commands.ts:31-32 | the name is the first line (everything before the first line feed, even when blank), with the `# /` prefix removed where it matches, then trimmed; so it holds no line feed and no surrounding whitespace |
| CommandParser.DescriptionOf | app/lib/commands.ts:35-36 | the description is empty exactly when fewer than two lines are non-blank; otherwise it is, raw, the line preceded by exactly one non-blank line: the second non-blank line |
| CommandParser.Parse | app/lib/commands.ts:44-54 | the parsed entry has the given id and category, the content unchanged, and the title `/` + name |
| CommandParser.TwoLeadingLines | app/lib/commands.ts:35 | a document that starts with two line-feed-free lines splits into those two lines, then the rest |
| CommandParser.HeaderLineFree | app/lib/commands.ts:31 | a `# /<name>` header line holds no line feed and is not blank |
| CommandParser.HeaderDescription | app/lib/commands.ts:35-36 | when the first two lines are non-blank, the second non-blank line is the second line |
| CommandParser.NameOfFirstLine | app/lib/commands.ts:31-32 | the header `# /<name>` yields `name` when the name has no surrounding whitespace |
| CommandParser.HeaderRoundTrip | app/lib/commands.ts:31-36 | a document `# /<name>`, then a description line, yields that name and that description |
| CommandParser.HeaderBlankRoundTrip | app/lib/commands.ts:31-36 | the usual layout `# /<name>`, a blank line, then a description line yields that name and that description |
| CommandParser.BlankLineSkipped | app/lib/commands.ts:35-36 | a blank line between the header and the description is dropped by the filter, so the description is still the second non-blank line |
| CommandParser.PortalParsesServerSections | app/web-portal/src/utils/commands.ts:55-58 | every section the server reader extracts, the portal reader extracts too |
| CommandParser.HashOnlyAtStartAppend | app/lib/commands.ts:39-42 | appending `#`-free text to a line with `#` only at its start keeps that property |
| CommandParser.HeaderHashFree | app/lib/commands.ts:39-42 | a header and description free of `#` hold no `##` that a section pattern could match |
| CommandParser.RenderedCommandRoundTrip | app/lib/commands.ts:31-54 | a rendered command document (header, description, usage section) parses back to its name, title, description and usage |
| CommandParser.RenderedHeader | app/lib/commands.ts:31-36 | the header of a rendered command document gives back its name and description |
| CommandParser.RenderedUsage | app/lib/commands.ts:40-50 | the usage section of a rendered command document gives back its usage, trimmed |
| CommandParser.ParseExample | app/web-portal/src/utils/commands.ts:46-58 | the worked example parses to the name `cleanup-unused-code`, its title, description and usage |
| ServerCommands.IdOfFile | app/lib/commands.ts:45 | a markdown file's id plus `.md` is the file name |
| ServerCommands.IndexOf | app/lib/commands.ts:45 | the first position at or after the start where the pattern occurs, or none when it occurs nowhere there |
| ServerCommands.IndexOfFirst | app/lib/commands.ts:45 | a search from the start returns exactly the first occurrence, and none exactly when the pattern occurs nowhere |
| ServerCommands.ReplaceFirst | app/lib/commands.ts:45 | `replace` with a string pattern: at the first occurrence `k`, the result is `s[..k] + rep + s[k + n..]` for a pattern of length `n`; with no occurrence, `s` unchanged |
| ServerCommands.IdOfFileAsWritten | app/lib/commands.ts:45 | the id as written is the file name with its first `.md` cut out, or the whole name when `.md` does not occur |
| ServerCommands.AsWrittenIdAgrees | app/lib/commands.ts:45 | when `.md` occurs only as the suffix, the id as written equals the intended id |
| ServerCommands.AsWrittenIdNotFound | app/lib/commands.ts:45 | the file `x.mdfoo.md` gets the id `xfoo.md` as written, and looking that id up fails; the intended id finds the file |
| ServerCommands.LookupCommand | app/lib/commands.ts:61-91 | the lookup is null exactly when `<slug>.md` cannot be read; otherwise it has id `slug` and the file's content |
| ServerCommands.ReadCommand | app/lib/commands.ts:26-54 | a listed file's entry has the id its rule gives, the file's content and no category |
| ServerCommands.EntriesStep | app/lib/commands.ts:24-56 | one loop step pushes an entry for a markdown file and nothing for any other file |
| ServerCommands.EntriesCount | app/lib/commands.ts:24-25 | there is one entry per `.md` file |
| ServerCommands.EntriesFrom | app/lib/commands.ts:24-54 | every entry is the parse of some readable markdown file |
| ServerCommands.EntriesInclude | app/lib/commands.ts:24-54 | every markdown file contributes its entry |
| ServerCommands.ListCommands | app/lib/commands.ts:20-59 | the listing fails exactly when some `.md` file cannot be read; otherwise it is the entries, with ids as written by `replace('.md', '')`, sorted by name |
| ServerCommands.ListingSortedAndComplete | app/lib/commands.ts:24-25 | the listing, as written or corrected, is sorted ascending by name and has one entry per `.md` file |
| ServerCommands.ListingKeepsDirectoryOrder | app/lib/commands.ts:58 | commands with the same name appear in the listing in the directory order of their files |
| ServerCommands.ListingResolves | app/lib/commands.ts:61-91 | in the corrected listing (ids without the `.md` suffix), looking up a listed command's id returns that very command |
| ServerCommands.ListingCovers | app/lib/commands.ts:24-54 | in the corrected listing, every `.md` file of the directory has an entry whose id plus `.md` is the file name |
| ServerCommands.IdOfFileInjective | app/lib/commands.ts:45 | two markdown files never share an intended id |
| ServerCommands.EntriesAgree | app/lib/commands.ts:45 | when no file name holds `.md` before its suffix, the entries as written are the corrected entries |
| ServerCommands.AsWrittenListingUnresolvable | app/lib/commands.ts:45 | the listing as written, for a directory holding `x.mdfoo.md`, holds a command whose id cannot be looked up |
| ServerCommands.AsWrittenIdsCollide | app/lib/commands.ts:45 | as written, `x.mdy.md` and `xy.md.md` are both listed under the id `xy.md` |
| PortalCommands.CommandFromResponse | app/web-portal/src/utils/commands.ts:38-80 | a command is built exactly when the fetch is ok; it carries the slug, the fetched text unchanged and the category |
| PortalCommands.LoadCommand | app/web-portal/src/utils/commands.ts:36-85 | the per-slug callback is null exactly when the document fetch is not ok or throws; otherwise it carries the index category |
| PortalCommands.AllCommands | app/web-portal/src/utils/commands.ts:16-93 | the listing is the per-slug results, in slug order, with the nulls dropped; it is empty when the index is unavailable |
| PortalCommands.ListingIds | app/web-portal/src/utils/commands.ts:87-88 | the listed ids are exactly the fetchable slugs of the index, in index order, not re-sorted |
| PortalCommands.ListingEntry | app/web-portal/src/utils/commands.ts:60-80 | every listed command carries its index category, the fetched text unchanged, and the title `/` + name |
| PortalCommands.IndexCategory | app/web-portal/src/utils/commands.ts:98-112 | the lookup's category is `Other` when the index is unavailable, and the index category otherwise |
| PortalCommands.LookupCommand | app/web-portal/src/utils/commands.ts:95-147 | the lookup is null exactly when the document fetch fails; without an index the category is `Other` |
| PortalCommands.ListedCommandsResolve | app/web-portal/src/utils/commands.ts:95-147 | looking up a listed command's id returns that very command |
| Scripts.SkipHashes | app/web-portal/src/utils/scripts.ts:84 | `#+` consumes the whole run of `#` |
| Scripts.StripHashes | app/web-portal/src/utils/scripts.ts:84 | `replace(/^#+\s*/, '')` on a line starting with `#` leaves `line[j..]`, where `line[..j]` is the whole run of `#` followed by the whole whitespace run after it; any other line is unchanged |
| Scripts.HashMarkerUnique | app/web-portal/src/utils/scripts.ts:84 | the marker `^#+\s*` matches a line in one way only |
| Scripts.ScanLimit | app/web-portal/src/utils/scripts.ts:81 | the scan looks at `min(10, lines.length)` lines |
| Scripts.ScriptDescription | app/web-portal/src/utils/scripts.ts:78-97 | empty content gives `Script: <slug>` |
| Scripts.DescribeScript | app/web-portal/src/utils/scripts.ts:77-91 | the bounded scan loop with its `break` computes the description |
| Scripts.DefaultMentionsScript | app/web-portal/src/utils/scripts.ts:85-97 | the default text contains `script` in lower case, which a found description never does |
| Scripts.DescriptionFromFirstLine | app/web-portal/src/utils/scripts.ts:81-88 | the description is the comment text of the first qualifying line among the first ten |
| Scripts.FoundDescriptionNotDefault | app/web-portal/src/utils/scripts.ts:85-97 | once a line qualifies, the description is not the default |
| Scripts.DescriptionDefaultIff | app/web-portal/src/utils/scripts.ts:78-97 | the description is `Script: <slug>` exactly when the content is empty or no line among the first ten qualifies |
| Scripts.DescriptionUsesFirstTenLines | app/web-portal/src/utils/scripts.ts:81 | lines after the tenth never change the description |
| Scripts.ProbeScript | app/web-portal/src/utils/scripts.ts:43-55 | an ok `.ps1` gives Windows, `<slug>.ps1` and its body; a not-ok `.ps1` and an ok `.sh` give Unix, `<slug>.sh` and its body; the probe fails exactly when `.ps1` throws or `.sh` throws after a not-ok `.ps1`; neither file exactly when both are not ok |
| Scripts.IndexPlatform | app/web-portal/src/utils/scripts.ts:58-66 | the index's Windows list is consulted before its Unix list, and the index never gives `both` |
| Scripts.ListedScript | app/web-portal/src/utils/scripts.ts:36-107 | a list-mode entry is null exactly when a probe throws; its id, name and title are the slug; its content is the found file's, or empty; with content its platform is the found file's, without content the index platform overrides it (`both` when neither gives one); its file name matches its platform; it carries the index category and the scanned description |
| Scripts.LoadListedScript | app/web-portal/src/utils/scripts.ts:36-107 | the per-slug callback, with its mutated `let` variables, computes the list-mode entry |
| Scripts.AllScripts | app/web-portal/src/utils/scripts.ts:16-121 | the listing is the per-slug entries, in slug order, with the nulls dropped by the push loop; it is empty when the index is unavailable |
| Scripts.LoadAll | app/web-portal/src/utils/scripts.ts:36-108 | the fan-out loads every slug, in slug order, giving the per-slug entry or null |
| Scripts.KeepLoaded | app/web-portal/src/utils/scripts.ts:109-114 | the push loop keeps exactly the non-null results, in order |
| Scripts.ScriptListingIds | app/web-portal/src/utils/scripts.ts:109-116 | the listed ids are exactly the index slugs whose probes do not throw, in index order |
| Scripts.ListedScriptShape | app/web-portal/src/utils/scripts.ts:93-101 | every listed script's id, name and title are equal; its id is an index slug; its file name matches its platform; its category is the index category |
| Scripts.ListedWindowsWhenPs1Loads | app/web-portal/src/utils/scripts.ts:43-48 | a `.ps1` that loads with content is listed for Windows as `<slug>.ps1` |
| Scripts.ListedWhenMissing | app/web-portal/src/utils/scripts.ts:57-66 | a script with neither file is still listed: empty content, the index platform (`both` when unlisted), and the default description |
| Scripts.LookedUpScript | app/web-portal/src/utils/scripts.ts:123-201 | a lookup is found exactly when a file is found; its platform, file name and content are that file's, never `both`; the category is the index category, or `Other` without an index; the description is scanned from the content |
| Scripts.LookupScript | app/web-portal/src/utils/scripts.ts:123-201 | the lookup, with its mutated variables, computes the lookup-mode result |
| Scripts.LookupIgnoresIndexPlatform | app/web-portal/src/utils/scripts.ts:141-165 | the lookup's platform and file name never depend on the index, because a found file overrides the index platform |
| Scripts.ListingAgreesWithLookup | app/web-portal/src/utils/scripts.ts:36-201 | for a file found with content, the list mode and the lookup mode build the same script |
| Scripts.MissingListedNotFound | app/web-portal/src/utils/scripts.ts:58-66 | a script with neither file is listed, but looking it up returns null |
| ScriptFilter.FilterScripts | app/web-portal/src/pages/Scripts.tsx:25-41 | the filtered scripts are an order-preserving subsequence holding exactly the scripts that match the search, the category and the platform |
| ScriptFilter.NoFilterShowsAll | app/web-portal/src/pages/Scripts.tsx:27-35 | an empty query and no selection show every script, in order |
| ScriptFilter.PlatformSelection | app/web-portal/src/pages/Scripts.tsx:35-38 | a platform selection matches exactly the scripts whose platform has that name, so any other value matches nothing |
| ScriptFilter.SearchIgnoresQueryCase | app/web-portal/src/pages/Scripts.tsx:28-31 | the search ignores letter case in the query |
| ScriptFilter.ScriptCategoriesSpec | app/web-portal/src/pages/Scripts.tsx:44 | the category list names every non-empty category once, and nothing else, in order of first appearance |
| Library.LabelIsNotAll | app/app/library/LibraryClient.tsx:19 | no classifier label is `all` |
| Library.ClassifyRange | app/lib/commands.ts:104-110 | every label is `Other` or a category name of the table |
| Library.TableNamesNotAll | app/lib/commands.ts:94-102 | no category name of the static table is `all` |
| Library.LibraryCategoriesSpec | app/app/library/LibraryClient.tsx:17-20 | the selector lists `all` first, then each label of the commands exactly once, sorted, and nothing else |
| Library.FilterCommands | app/app/library/LibraryClient.tsx:22-35 | the filtered commands are an order-preserving subsequence holding exactly the commands that match the search and the category |
| Library.NoFilterShowsAll | app/app/library/LibraryClient.tsx:24-31 | an empty query with `all` selected shows every command, in order |
| Library.TitleNotSearched | app/app/library/LibraryClient.tsx:24-28 | changing a command's title never changes whether it matches |
| Library.GroupByCategory | app/app/library/LibraryClient.tsx:37-47 | the group keys are the filtered labels in order of first appearance, and each group holds exactly the filtered commands with that label, in filtered order |
| Library.GroupsCoverFiltered | app/app/library/LibraryClient.tsx:37-47 | the group sizes add up to the number of filtered commands |
| Library.CommandInItsGroupOnly | app/app/library/LibraryClient.tsx:40-44 | a filtered command is in the group of its label and in no other group |
| Library.GroupKeysInFirstAppearanceOrder | app/app/library/LibraryClient.tsx:39-44 | group keys appear in order of their first command in the filtered list |

## Left out

- Front-matter stripping by `gray-matter` (app/lib/commands.ts:28, 65): it is a foreign library whose `data` is never used. The model takes the content after front matter as the input.
- `localeCompare` and Unicode `toLowerCase`. The model uses code-point lexicographic order and ASCII lower-casing. JavaScript string lengths count UTF-16 units; the model counts characters.
- `path.join` normalisation: the model reads `<slug>.md` verbatim.
- `Promise.all`, `async`/`await` and console logging. The per-slug fan-out is modelled as a loop in slug order, which is the order `Promise.all` returns its results in.
- JSON parsing of `index.json`:
  - an index whose fetch or parse fails, or whose `categories` cannot be enumerated, is `None`;
  - a category without a `commands` or `scripts` list is a group with no members;
  - a category whose `name` is missing is not modelled.
- `fetch` is a pure function of the path, so two fetches of the same path give the same response.
- `usage` and `prerequisites` of a script are never set by the code and are not modelled.
- In `getScriptBySlug`, the platform read from the index (app/web-portal/src/utils/scripts.ts:141-145) is always overwritten or the lookup returns null. The model computes it and `Scripts.LookupIgnoresIndexPlatform` proves it has no effect.
- The portal's `getCategoryForCommand` (app/web-portal/src/utils/commands.ts:149-167) is the same table and loop as the server's, so it is modelled once, by `Categories.CategoryForCommand`.
- React state, rendering, routing and the UI colour and label helpers.
- ServerCommands.ListingResolves, ServerCommands.ListingCovers and ServerCommands.IdOfFileInjective are proved for the corrected listing only; `ServerCommands.ListCommands` follows the source and gives the ids as written, for which they fail (see Findings). `ServerCommands.EntriesAgree` shows that the two listings coincide whenever no file name holds `.md` before its suffix.

## Findings

| source | as written | input that shows it | evidently intended | confidence | as-written member | corrected member |
|---|---|---|---|---|---|---|
| app/lib/commands.ts:45 | the listing's id is `file.replace('.md', '')`, which removes the FIRST `.md` of the file name | the file `x.mdfoo.md` is listed with id `xfoo.md`; looking `xfoo.md` up reads `xfoo.md.md`, which does not exist | the id is the file name without its `.md` suffix, so every listed command can be looked up | not executed | ServerCommands.AsWrittenListingUnresolvable | ServerCommands.ListingResolves |
| app/lib/commands.ts:45 | the same `replace` can give two files one id | `x.mdy.md` and `xy.md.md` are both listed as `xy.md` | distinct markdown files get distinct ids | not executed | ServerCommands.AsWrittenIdsCollide | ServerCommands.IdOfFileInjective |
