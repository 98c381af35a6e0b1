# WikiViewer core, modelled in Dafny

WikiViewer is an Electron desktop viewer for Azure DevOps style markdown
wikis. This project models the parts of it that decide what a page turns
into and where its links go:

- the **macro preprocessor** (`processAzureDevOpsSyntax`, module `Macros`):
  `[[_TOC_]]` and `[[_TOSP_]]` markers, `[[Page]]` and `[[Page|Text]]` wiki
  links, `@mentions`, `#123` work items, `[[attachment:f]]`, `::: mermaid`
  blocks and the emoji shortcode table. Each `content.replace` is a
  left-to-right scan that either matches the rule's regular expression at an
  index or copies one character.
- the **table of contents** (`generateTOC`, module `Toc`) and the heading-id
  slug rule of the anchor plugin.
- the **table of sub-pages** (`generateTOSP`, module `Subpages`).
- **links and images** (module `Links`):
  - the `link_open` override that classifies links as external, anchor or
    internal;
  - the image path resolution;
  - the `.md` fallback for link targets;
  - the broken-link pass;
  - the click dispatcher.
- the **file system rules** of the main process (module `FileSystem`):
  - the markdown file test;
  - the file tree, with its filter, ordering and index detection;
  - the name search;
  - `resolvePath`.

  These rest on a model of POSIX `path` (module `Paths`) and a stable
  insertion sort (module `Sorting`).
- the **search box** (module `SearchView`):
  - the debounced input handler;
  - the result panel, with its cap of 20 and the highlighting;
  - the keyboard focus cycling;
  - the click on a result.

The file system is a parameter:

- the directory listing is a `Listing` tree, or `None` where reading fails;
- existence is a set of paths;
- the reply of the main process to `search-files` is a value.

The clock that `Date.now()` reads is a function from the diagram counter to
a number. Imperative code is modelled by methods with loops, each proved
against a specification function:

- `GenerateToc`, `GenerateTosp` and `AppendItems`;
- `GetFileTree` and `SearchFiles`;
- `ProcessAzureDevOpsSyntax`;
- `LinkToken.LinkOpen`, `Viewer.CheckBrokenLinks` and `CheckLink`;
- `BuildItems`, and the `SearchBox` class, whose methods update its fields.

Behaviour of the code that the model makes visible:

- The emoji values and the attachment and search icons are the code points
  the source file actually holds. The UTF-8 bytes of each emoji were decoded
  as Windows-1252, so `:smile:` becomes `U+00F0 U+0178 U+02DC U+201E` rather
  than one emoji.
- `[[attachment:f]]` never reaches the attachment rule on its own. The
  wiki-link rule runs first and turns it into a link to the page
  `attachment:f` (`AttachmentTakenByWikiRule`). The attachment rule fires
  only where the wiki rule leaves a macro in place or writes one back:
  - a macro nested inside a `[[_..._]]` marker, which the wiki rule copies
    unchanged (`NestedAttachmentFires`);
  - a wiki-link target that starts with `[[attachment:`. In
    `[[[[attachment:f]]]]` the page name is `[[attachment:f`, so the link's
    file part reads `[[attachment:f.md)` and is followed by the trailing
    `]]`. The attachment rule then replaces `[[attachment:f.md)]]` with a
    link to the attachment `f.md)` (`RebuiltAttachmentFires`).
- A heading without an id is linked from the table of contents as
  `#heading-<index>`, but that id is written only into a detached copy of the
  HTML (markdown-renderer.js:236, 253). The table is then substituted into
  the unchanged HTML (markdown-renderer.js:340), so no element on the page
  carries that id. `FallbackIdsDistinct` is about these ids.
- A link `other.md#section` to a section of another page behaves in two ways:
  - the broken-link pass checks only `other.md`, so it is not marked broken;
  - a click resolves the whole href, fragment included, and reports the file
    missing (`OtherPageSectionNotFound`).
- A resolved image URL has four slashes (`file:////wiki/a.png`), because
  `file:///` is put before a path that is already absolute (`ImageResolved`).
- The table of contents opens one `<ul>` per skipped level when a heading
  jumps several levels down, and closes all open lists at the end
  (`TocBalanced`).
- The table of sub-pages leaves out only `index.md` and `index.markdown`.
  `readme.md` is listed.
- Clearing the search box while a search is pending does cancel that search.
  Emptying the input after a click on a result fires no `input` event, so a
  search that is pending then stays pending.
- The keyboard listener sits on the input, so the arrow keys always move the
  focus from the input to the first or the last result (`KeysFromInput`). The
  modular cycling of `focusNextResult`/`focusPreviousResult` is modelled and
  proved (`NextPrevInverse`, `DownsCycle`), but that listener never reaches it.

## Model

| member | source | states |
|---|---|---|
| Text.IndexOf | src/renderer/search.js:174 | `indexOf`: -1 exactly when the pattern does not occur, else the first index at which it occurs |
| Text.TrimStrips | src/renderer/search.js:45 | `trim` removes exactly the leading and the trailing whitespace run: the result is an infix `s[a..b]` with only whitespace before `a` and from `b` on, and it neither starts nor ends with whitespace |
| Text.TrimEmptyIffBlank | src/main/fileSystem.js:101 | a string trims to `''` exactly when all its characters are whitespace |
| Text.Split | src/renderer/markdown-renderer.js:183 | `split` on one character: at least one piece, the pieces joined by the separator give back the string, and no piece holds the separator |
| Text.HyphenateRun | src/renderer/markdown-renderer.js:184 | a maximal whitespace run between two texts becomes one `-`, and the texts on either side are hyphenated in place |
| Text.HyphenateAppend | src/renderer/markdown-renderer.js:184 | after a text that does not end with whitespace, the result of a concatenation is the two results one after the other |
| Text.ReplaceChar | src/renderer/markdown-renderer.js:315 | a global one-character replace changes exactly the occurrences of that character, position by position |
| Text.NatToStringInjective | src/renderer/search.js:105 | different numbers print as different decimal strings (via the parse-back round trip `NatToStringRoundTrip`) |
| Text.NatToStringRoundTrip | src/renderer/search.js:105 | the decimal digits of `n` read back as `n` |
| Sorting.SortBy | src/renderer/markdown-renderer.js:309 | the in-place sort gives a permutation of its input, sorted by the key |
| Paths.NormalizeSteps | src/main/fileSystem.js:175 | each next segment: an empty one and `.` are dropped, `..` removes the last segment kept so far (the root stays the root), and a name is kept after the others |
| Paths.Extname | src/main/fileSystem.js:10 | `path.extname` is empty or a suffix of the name that starts with a dot, holds no other dot and has something before it; it is empty exactly for `..` and for a name with no dot after its first character |
| Paths.Stem | src/renderer/markdown-renderer.js:314 | `path.basename(f, path.extname(f))`: stem followed by extension gives back the name |
| Paths.SegmentsOfPath | src/main/fileSystem.js:175 | printing plain segments as a path and splitting it again gives back the segments |
| FileSystem.MarkdownByExtname | src/main/fileSystem.js:9-12 | `isMarkdownFile` holds exactly when the lower-cased `extname` is `.md` or `.markdown` |
| FileSystem.IndexChild | src/main/fileSystem.js:35-41 | `children.find`: none exactly when no child is an index or readme file, else the path of the first one |
| FileSystem.GetFileTree | src/main/fileSystem.js:15-75 | the loop that pushes one node per kept entry, followed by the sort, builds `Tree` (empty for an unreadable directory) |
| FileSystem.EntryNode | src/main/fileSystem.js:22-59 | the loop body builds the node of one entry, recursing into a kept directory |
| FileSystem.NodeForKept | src/main/fileSystem.js:26-59 | an entry gives a node exactly when it is a directory not hidden and not `node_modules`, or a markdown file; the node carries its name, full path and relative path |
| FileSystem.TreeIsKeptEntries | src/main/fileSystem.js:22-60 | a readable directory's tree holds exactly the nodes of its kept entries, each as often as pushed |
| FileSystem.TreeOrder | src/main/fileSystem.js:63-68 | directories come before files, and each group is in case-insensitive name order |
| FileSystem.DirIndex | src/main/fileSystem.js:34-50 | `hasIndex` holds exactly when a child file is named index or readme (`.md`/`.markdown`, in any case), and `indexPath` is the path of the first such child |
| FileSystem.SearchFiles | src/main/fileSystem.js:99-151 | the loop over the entries collects the hits of `SearchIn`, and nothing for a blank query |
| FileSystem.SearchEntry | src/main/fileSystem.js:109-144 | the loop body collects one entry's hits: its own if its name matches, then for a directory the hits inside it |
| FileSystem.SearchIsFilteredWalk | src/main/fileSystem.js:109-144 | the search is the matching entries of the walk, in walk order: a matching directory comes before its descendants, and directories are searched whether or not they match |
| FileSystem.SearchSoundComplete | src/main/fileSystem.js:99-151 | every hit matches the lower-cased query and was visited, and every visited entry that matches is a hit |
| FileSystem.BlankQueryFindsNothing | src/main/fileSystem.js:101 | an empty or whitespace-only query finds nothing |
| FileSystem.ResolvedIsNormal | src/main/fileSystem.js:173-177 | a resolved path is absolute and has no empty, `.` or `..` segment |
| FileSystem.AbsoluteIgnoresBase | src/main/fileSystem.js:173-177 | an absolute reference resolves the same against any document |
| FileSystem.PlainNameInBaseDir | src/main/fileSystem.js:173-177 | a plain name lands in the directory of the base document |
| FileSystem.ResolveIdempotent | src/main/fileSystem.js:173-177 | resolving a resolved path again changes nothing, whatever the base |
| FileSystem.ParentDirLink | src/main/fileSystem.js:173-177 | `../name` lands in the parent of the base document's directory, or in the root when that directory is the root |
| Macros.ProcessAzureDevOpsSyntax | src/renderer/markdown-renderer.js:162-232 | the replace chain computes the seven macro rules in source order, then one rule per shortcode, each on the output of the previous one |
| Macros.MacroRulesApplied | src/renderer/markdown-renderer.js:164-214 | the macro phase is TOC, TOSP, wiki link, mention, work item, attachment, mermaid, nested in that order |
| Macros.ShortcodeReplaced | src/renderer/markdown-renderer.js:217-229 | the shortcode loop turns one shortcode of the table into its value and changes nothing else, in a text with no other `:` |
| Macros.ShortcodeInPreprocessor | src/renderer/markdown-renderer.js:162-232 | the whole preprocessor does the same to such a text when it holds no macro in the sense of `PlainTextUnchanged` |
| Macros.RunEnd | src/renderer/markdown-renderer.js:195 | a greedy `[..]+` run ends at the first character outside the class |
| Macros.BracketMatch | src/renderer/markdown-renderer.js:174 | `([^\]]+)\]\]` captures a non-empty text without `]` that is followed by `]]` |
| Macros.MatchAt | src/renderer/markdown-renderer.js:164-211 | a match at an index always consumes at least one character, so the scan makes progress |
| Macros.InertUnchanged | src/renderer/markdown-renderer.js:164-229 | a global replace with nothing to match returns its input |
| Macros.FirstMatch | src/renderer/markdown-renderer.js:164-229 | with the first match at `p`, the output is the text before it, its replacement as the first of the call, then the scan of the rest |
| Macros.PlainTextUnchanged | src/renderer/markdown-renderer.js:162-232 | text with no `[[` that a `]]` follows, no `@word`, no `#digit`, no `:::` opening a `mermaid` fence and no shortcode comes out unchanged; a lone `[[` or `]]`, a `::: video` container or a lone `:::` may appear |
| Macros.TocMarker | src/renderer/markdown-renderer.js:164-166 | `[[_TOC_]]` in any letter case becomes the TOC placeholder |
| Macros.TospMarker | src/renderer/markdown-renderer.js:169-171 | `[[_TOSP_]]` in any letter case becomes the TOSP placeholder |
| Macros.WikiMatchIff | src/renderer/markdown-renderer.js:174 | a wiki-link match is exactly `[[`, a non-empty name without `]`, and `]]` |
| Macros.WikiMacro | src/renderer/markdown-renderer.js:174-191 | a lone `[[name]]` is replaced by the callback's value for its name |
| Macros.SpecialMarkerKept | src/renderer/markdown-renderer.js:176-178 | `[[_name_]]` is left as it is |
| Macros.PageLink | src/renderer/markdown-renderer.js:186-191 | `[[Target]]` becomes `[trimmed target](target with whitespace runs as - .md)` |
| Macros.DisplayPageLink | src/renderer/markdown-renderer.js:182-191 | a wiki link with a pipe becomes `[trimmed text](target with whitespace runs as - .md)`, the text being what follows the first pipe up to any second pipe; whatever follows a second pipe is dropped |
| Macros.WikiTargetShape | src/renderer/markdown-renderer.js:174-191 | a wiki link's file holds no whitespace and ends in `.md` |
| Macros.MentionMatchIff | src/renderer/markdown-renderer.js:195-197 | a mention match is `@` and the longest run of word characters after it |
| Macros.WorkItemMatchIff | src/renderer/markdown-renderer.js:200-202 | a work-item match is `#` and the longest run of digits after it |
| Macros.MermaidIdsDistinct | src/renderer/markdown-renderer.js:212 | diagrams with different counters get different ids, whatever the clock reads |
| Macros.IdEndsWithCounter | src/renderer/markdown-renderer.js:212 | a diagram id ends with `-` and the counter's digits |
| Macros.MermaidBlock | src/renderer/markdown-renderer.js:211-214 | `:::`, optional whitespace, `mermaid` in any letter case, optional whitespace, a line feed, a body without `:::` and the closing `:::` become one diagram div holding the trimmed body, with the first id of the call |
| Macros.OneFenceKept | src/renderer/markdown-renderer.js:211-214 | a text whose only `:::` is at one index, whatever follows it (any spacing, any letter case of `mermaid`, any text before it), comes out of the diagram rule unchanged: a fence that is never closed stays literal text |
| Macros.UnterminatedMermaidKept | src/renderer/markdown-renderer.js:211 | the instance `:::mermaid` and a line feed at the start of the text, followed by text without `:::`, stays literal |
| Macros.NoDoubleCloseInert | src/renderer/markdown-renderer.js:205 | neither bracket rule matches text without `]]` |
| Macros.AttachmentTakenByWikiRule | src/renderer/markdown-renderer.js:174-207 | `[[attachment:f]]`, for any `f` without `]` or pipe, becomes the page link `[trimmed target](target with whitespace runs as - .md)` for the target `attachment:f`, and the attachment rule then has nothing to match |
| Macros.NestedAttachmentFires | src/renderer/markdown-renderer.js:174-207 | in `[[_[[attachment:f]]` with `f` ending in `_` the wiki rule changes nothing and the attachment rule replaces the inner macro |
| Macros.RebuiltAttachmentFires | src/renderer/markdown-renderer.js:174-207 | in `[[[[attachment:f]]]]`, for `f` without brackets, pipe or whitespace, the wiki rule links the page `[[attachment:f` and keeps the last `]]`, and the attachment rule then replaces `[[attachment:f.md)]]` in the result with an attachment link for `f.md)` |
| Toc.GenerateToc | src/renderer/markdown-renderer.js:235-279 | the loops of `generateTOC` build `Toc(headings)`: `''` without headings, else the nav with one entry per heading and the nesting tags |
| Toc.AddHeading | src/renderer/markdown-renderer.js:247-268 | the callback's two `while` loops bring the depth to the heading's level and append the adjusting tags, then the entry |
| Toc.CloseLists | src/renderer/markdown-renderer.js:271-274 | the closing loop appends one `</ul>` per level above the first |
| Toc.TocText | src/renderer/markdown-renderer.js:244-277 | the table is what was written for the headings, the closing `</ul>`s, then `</ul></nav>` |
| Toc.TocBalanced | src/renderer/markdown-renderer.js:244-277 | every `<ul>` of the table is closed |
| Toc.EntryAtItsLevel | src/renderer/markdown-renderer.js:259-267 | each heading's entry sits at list depth equal to its level and links its text to its anchor id |
| Toc.TocEntries | src/renderer/markdown-renderer.js:247-268 | the table lists every heading once, in document order |
| Toc.FallbackIdsDistinct | src/renderer/markdown-renderer.js:250 | two headings without ids never get the same `heading-<index>` id in the table, although no element of the page carries it |
| Toc.KeepSlugCharsFilter | src/renderer/markdown-renderer.js:50 | `replace(/[^\w\s-]/g, '')` is the order-preserving filter: one character is kept exactly when it is a word character, whitespace or `-`, and a concatenation gives the concatenation of the results |
| Toc.SlugChars | src/renderer/markdown-renderer.js:50 | a slug holds only lower-case letters, digits, `_` and `-` |
| Toc.SlugifyIdempotent | src/renderer/markdown-renderer.js:50 | slugifying a slug changes nothing |
| Subpages.KeepIsSourceTest | src/renderer/markdown-renderer.js:296-301 | the filter is the lower-cased extension test, not the current file, and not index.md/index.markdown in any case |
| Subpages.SubpagesExactly | src/renderer/markdown-renderer.js:296-301 | the filtered list holds exactly the names that pass the filter |
| Subpages.ListingIsSortedKept | src/renderer/markdown-renderer.js:296-309 | the listed pages are exactly the kept names, each as often as in the directory, in case-insensitive order |
| Subpages.DisplayNameOfStem | src/renderer/markdown-renderer.js:314-315 | a display name is the stem with every `-` turned into a space and nothing else changed |
| Subpages.GenerateTosp | src/renderer/markdown-renderer.js:282-325 | the filter, sort and `forEach` build `Tosp`; there are messages for a missing path, an empty listing and a read error |
| Subpages.AppendItems | src/renderer/markdown-renderer.js:313-317 | the `forEach` appends every page's item, in order |
| Subpages.NoPathNotAvailable | src/renderer/markdown-renderer.js:283-285 | without a current file the result is the "not available" message, whatever the directory holds |
| Subpages.NoSubpagesIff | src/renderer/markdown-renderer.js:303-305 | the "no subpages" message appears exactly when no name in the directory is kept |
| Subpages.ItemAt | src/renderer/markdown-renderer.js:313-317 | each page's item starts where the items before it end, and before any later page's item |
| Subpages.EveryKeptPageListed | src/renderer/markdown-renderer.js:311-318 | every kept page appears in the table as a link to the file, labelled with its display name |
| Links.AttrIndex | src/renderer/markdown-renderer.js:96 | `attrIndex`: the first attribute with the name, or -1 when there is none |
| Links.KindIff | src/renderer/markdown-renderer.js:102-116 | a link is external exactly for `http://`/`https://`, an anchor exactly for a leading `#`, internal otherwise, and the empty href is internal |
| Links.ClassNamesDistinct | src/renderer/markdown-renderer.js:106-112 | each kind of link has its own class |
| Links.LinkToken.LinkOpen | src/renderer/markdown-renderer.js:94-120 | the override's pushes and href rewrite turn the token's attributes into `Opened(old attrs)` |
| Links.OpenedWithoutHref | src/renderer/markdown-renderer.js:98 | a token without an href keeps its attributes |
| Links.OpenedLink | src/renderer/markdown-renderer.js:98-117 | earlier attributes are kept, except that an internal link's href becomes `javascript:void(0)`; exactly one class is added, the one of its kind; only internal links get a `data-href`, holding the original href |
| Links.OpenedElement | src/renderer/markdown-renderer.js:94-120 | the element a link token becomes (the first of repeated attributes counting) has the class of its kind, the href (replaced if internal) and, for internal links only, the original href as `data-href` |
| Links.ImageKept | src/renderer/markdown-renderer.js:139-159 | web and `data:` sources, and every source of a document without a path, are left alone |
| Links.ImageResolved | src/renderer/markdown-renderer.js:151-155 | any other source becomes a `file:////` URL without a backslash |
| Links.ImageSameDirectory | src/renderer/markdown-renderer.js:151-155 | two documents in the same directory see the same image |
| Links.ImageAbsolute | src/renderer/markdown-renderer.js:151-155 | an absolute image path does not depend on the document |
| Links.TargetIff | src/renderer/markdown-renderer.js:452-464 | a target is found exactly when the path exists, or has no `.md`/`.markdown` ending and the path plus `.md` exists; what is found exists |
| Links.AddClass | src/renderer/markdown-renderer.js:526 | `classList.add` keeps every class and adds the new one |
| Links.CheckLink | src/renderer/markdown-renderer.js:504-528 | the loop body marks one link exactly as `Checked` says |
| Links.Viewer.CheckBrokenLinks | src/renderer/markdown-renderer.js:500-530 | every internal link of the page is updated in place as `Checked` says; the links and their order are unchanged |
| Links.CheckedMarks | src/renderer/markdown-renderer.js:525-528 | a broken link gets the class `broken-link` and the title `File not found: <href>`; no class is lost; the href never changes; any other link is unchanged |
| Links.LoadsOnlyExisting | src/renderer/markdown-renderer.js:413-494 | a click loads only a file that exists |
| Links.ClickAgreesWithCheck | src/renderer/markdown-renderer.js:447-472 | for a non-empty href without `#`, a click reports the file missing exactly when the pass marks the link broken |
| Links.ClickOnRenderedLink | src/renderer/markdown-renderer.js:431-489 | a rendered external link opens its href, an anchor link scrolls to the href without `#`, and an internal link follows its original href |
| Links.ResolveName | src/main/fileSystem.js:173-177 | a plain name resolves to the document's directory followed by the name |
| Links.OtherPageSectionNotFound | src/renderer/markdown-renderer.js:436-472 | `file#section` for another existing page is not marked broken, yet a click on it reports the file missing |
| SearchView.HighlightUnchangedIff | src/renderer/search.js:173-185 | the text comes back unchanged exactly when the query does not occur in it, ignoring case |
| SearchView.HighlightMarksFirst | src/renderer/search.js:173-185 | otherwise the first case-insensitive occurrence, `query.length` long, is wrapped in `<mark>`; taking the tags out gives the text back |
| SearchView.UnmarkMarked | src/renderer/search.js:180-184 | a marked text has `<mark>` at the index and `</mark>` after the marked text, and unmarking it gives the text back |
| SearchView.DisplayNoResultsIff | src/renderer/search.js:84-88 | "No results found" appears exactly when there are no results |
| SearchView.DisplayShowsFirst | src/renderer/search.js:93-99 | the first min(N, 20) results are shown in order, each with the folder icon exactly for a directory, its highlighted name and its relative path |
| SearchView.DisplayMoreInfoIff | src/renderer/search.js:102-107 | "Showing 20 of N results" appears exactly when N > 20, with N the number of results |
| SearchView.MoreInfoInjective | src/renderer/search.js:105 | different result counts give different "Showing" lines |
| SearchView.ItemsOf | src/renderer/search.js:96-99 | one item per result, in order |
| SearchView.BuildItems | src/renderer/search.js:96-99 | the `forEach` appends one item per shown result, in order |
| SearchView.FocusWithoutItems | src/renderer/search.js:192 | with no items neither key moves the focus |
| SearchView.FocusFromOutside | src/renderer/search.js:194-195 | from outside the list, down focuses item 0 and up item n-1 |
| SearchView.FocusInRange | src/renderer/search.js:188-217 | with items, both keys land on an item of the list |
| SearchView.NextPrevInverse | src/renderer/search.js:197-215 | down then up, or up then down, returns to the same item |
| SearchView.DownsCycle | src/renderer/search.js:197-199 | `k` presses of down move the focus `k` items on, modulo the number of items |
| SearchView.KeysFromInput | src/renderer/search.js:29-40 | from the input the arrow keys focus the first or the last item |
| SearchView.ResultActionOpens | src/renderer/search.js:145-159 | a file result opens itself; a directory result opens its `index.md` exactly when that exists, and is otherwise expanded in the tree |
| SearchView.SearchBox.constructor | src/renderer/search.js:9 | nothing is pending, the results are hidden and empty |
| SearchView.SearchBox.HandleInput | src/renderer/search.js:44-61 | the pending search is cancelled; a blank query hides the results and schedules nothing, any other schedules one search for the trimmed query |
| SearchView.SearchBox.RunPending | src/renderer/search.js:58-60 | the timer runs the pending search once and leaves nothing pending |
| SearchView.SearchBox.PerformSearch | src/renderer/search.js:64-78 | with no wiki root nothing changes; a failed call shows the error message; otherwise the results are displayed |
| SearchView.SearchBox.DisplaySearchResults | src/renderer/search.js:81-111 | the panel shows `Display(results, query)` and is visible |
| SearchView.SearchBox.FocusNextResult | src/renderer/search.js:188-201 | the focus becomes `NextFocus` of the old focus with the panel's item count; nothing else changes |
| SearchView.SearchBox.FocusPreviousResult | src/renderer/search.js:204-217 | the focus becomes `PrevFocus` of the old focus; nothing else changes |
| SearchView.SearchBox.KeyDown | src/renderer/search.js:29-40 | Escape hides the results and blurs the input; the arrows move the focus into the list |
| SearchView.SearchBox.FocusInput | src/renderer/search.js:15-19 | focusing the input shows the results again when its value is not blank |
| SearchView.SearchBox.ClickOutside | src/renderer/search.js:22-26 | a click outside the input and the results hides the results |
| SearchView.SearchBox.ClickResult | src/renderer/search.js:141-167 | a click on a result, or Enter on it, hides the results, empties the input and opens the result |

## Left out

- The markdown-it compiler and its plugins (highlight.js, KaTeX, task lists, the anchor plugin's de-duplication of ids, the emoji plugin) are foreign libraries. Only the slug rule passed to the anchor plugin is modelled.
- Filling the TOC and TOSP placeholders into the rendered HTML. `GenerateToc` works on the headings as values. The fallback id it assigns to a heading without one never reaches the page, because it is written into a detached copy of the HTML.
- Mermaid rendering, `renderMarkdown`, `makeTaskListsInteractive`, the cloning of the viewer, `scrollIntoView`, `alert`, `shell.openExternal`: DOM and Electron calls. The click dispatcher returns what it would do (`Scroll`, `Load`, `NotFound`, `OpenExternal`).
- Asynchrony: the `await`s of IPC calls, the race between overlapping renders or searches, and the 300 ms debounce delay. Everything is sequential, and the firing of the debounce timer is the method `RunPending`.
- `readFile`, `fileExists` and `watchFiles` are real I/O. `fs.access` is a set of existing paths, `fs.readdir` a `Listing` value. `getFileTree` and `searchFiles` return `[]` for an unreadable directory, which is modelled as `Unreadable`.
- `Macros.PlainTextUnchanged`: a `:::` followed by `mermaid` is excluded even when no `:::` after it closes a diagram. For the diagram rule alone that case is covered by `OneFenceKept`.
- `Sorting.SortBy`: `localeCompare` with base sensitivity is modelled as comparison of the ASCII-lower-cased names. The in-place `Array.prototype.sort` is modelled on values, and its stability is not stated.
- `Text.Lower`: `toLowerCase` is modelled on ASCII letters only. Unicode case mapping, which can change the length of a string, is not modelled. The same holds for the `\w` and `\s` classes of the regular expressions.
- `Paths`: only POSIX paths are modelled. There are no Windows drive letters or backslash separators, and `process.cwd()` is taken to be `/` for a relative base.
- `Links.Viewer.CheckBrokenLinks`: the links are values in a sequence field of the page. Aliasing between DOM elements is not modelled. A link with no `data-href` attribute is not modelled either; there the source throws and stops the pass.
- `Links.InternalClick`: `querySelector` throwing on an anchor part that is not a valid CSS selector is not modelled. Neither is a scroll whose target does not exist, which does nothing.
- `SearchView.SearchBox.PerformSearch`: the main process's `search-files` handler turns its own errors into `[]`. The reply `None` stands only for a failure of the IPC call itself.
- `SearchView.SearchBox.KeyDown`: it requires the focus to be on the input, because the listener runs only then. `blur` is modelled as moving the focus elsewhere.
- `SearchView.SearchBox.constructor`: the results element starts hidden. This is the page's initial markup, and `index.html` is not part of this model.
- `FileSystem.SearchFiles`: `path.relative` is modelled by carrying the relative path down the walk, and `path.join` by `FullPath`, which inserts one `/`.
- The `expandFolderInTree` helper of `search.js`, the file tree view, the settings, the breadcrumbs and the theme: UI glue with nothing to state beyond which folder is expanded, which `ResultAction` returns.
