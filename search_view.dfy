/**
 * The search box of the renderer: the debounced input handler, the result
 * panel (at most twenty results, each with its name highlighted), and the
 * keyboard focus that cycles through the results. The main process's reply to
 * `search-files` is a parameter (`None` when the call itself fails), and so is
 * the set of existing paths a click on a directory result consults.
 */
module SearchView {
  import opened Wrappers
  import opened Text
  import opened FileSystem

  // ---------------------------------------------------------------------------
  // Highlighting

  /** The query occurs at `i` in `text`, ignoring case. */
  predicate MatchesAt(text: string, query: string, i: nat) {
    StartsAt(Lower(text), Lower(query), i)
  }

  /** `text` with the `n` characters from `i` wrapped in `<mark>`. */
  function Marked(text: string, i: nat, n: nat): string
    requires i + n <= |text|
  {
    text[..i] + "<mark>" + text[i..i + n] + "</mark>" + text[i + n..]
  }

  /** `highlightMatch(text, query)`: the first case-insensitive occurrence of the query is marked. */
  function HighlightMatch(text: string, query: string): string {
    var index := IndexOf(Lower(text), Lower(query));
    if index == -1 then text else Marked(text, index, |query|)
  }

  /** The two tags of a marked text taken out again, for a mark of `n` characters at `i`. */
  function Unmark(s: string, i: nat, n: nat): string
    requires i + n + 13 <= |s|
  {
    s[..i] + s[i + 6..i + 6 + n] + s[i + 13 + n..]
  }

  /** A mark sits at `i`: `<mark>`, the marked text, `</mark>`; taking the tags out gives the text back. */
  lemma UnmarkMarked(text: string, i: nat, n: nat)
    requires i + n <= |text|
    ensures |Marked(text, i, n)| == |text| + 13
    ensures StartsAt(Marked(text, i, n), "<mark>", i)
    ensures StartsAt(Marked(text, i, n), "</mark>", i + 6 + n)
    ensures Marked(text, i, n)[i + 6..i + 6 + n] == text[i..i + n]
    ensures Unmark(Marked(text, i, n), i, n) == text
  {
    var m := Marked(text, i, n);
    assert m[..i] == text[..i];
    assert m[i..i + 6] == "<mark>";
    assert m[i + 6..i + 6 + n] == text[i..i + n];
    assert m[i + 6 + n..i + 13 + n] == "</mark>";
    assert m[i + 13 + n..] == text[i + n..];
    assert text == text[..i] + text[i..i + n] + text[i + n..];
  }

  /** The text is returned unchanged exactly when the query does not occur in it, ignoring case. */
  lemma HighlightUnchangedIff(text: string, query: string)
    ensures HighlightMatch(text, query) == text <==> !Contains(Lower(text), Lower(query))
  {
    var index := IndexOf(Lower(text), Lower(query));
    if index != -1 {
      UnmarkMarked(text, index, |query|);
    }
  }

  /**
   * When the query occurs, the first occurrence (ignoring case) is marked, the
   * marked characters are the text's own, and taking the tags out gives the
   * text back.
   */
  lemma HighlightMarksFirst(text: string, query: string)
    requires Contains(Lower(text), Lower(query))
    ensures exists i: nat :: (MatchesAt(text, query, i) && i + |query| <= |text| &&
      (forall j: nat :: j < i ==> !MatchesAt(text, query, j)) &&
      HighlightMatch(text, query) == Marked(text, i, |query|) &&
      Unmark(HighlightMatch(text, query), i, |query|) == text &&
      Lower(HighlightMatch(text, query)[i + 6..i + 6 + |query|]) == Lower(query))
  {
    var i: nat := IndexOf(Lower(text), Lower(query));
    MarkIsMatch(text, query, i);
    assert HighlightMatch(text, query) == Marked(text, i, |query|);
  }

  /** Marking an occurrence keeps the text between the tags, and that text matches the query. */
  lemma MarkIsMatch(text: string, query: string, i: nat)
    requires MatchesAt(text, query, i)
    ensures i + |query| <= |text|
    ensures Unmark(Marked(text, i, |query|), i, |query|) == text
    ensures Lower(Marked(text, i, |query|)[i + 6..i + 6 + |query|]) == Lower(query)
  {
    UnmarkMarked(text, i, |query|);
    assert Lower(text)[i..i + |query|] == Lower(text[i..i + |query|]);
  }

  // ---------------------------------------------------------------------------
  // The result panel

  const FolderIcon := "\U{00F0}\U{0178}\U{201C}"
  const FileIcon := "\U{00F0}\U{0178}\U{201C}\U{201E}"

  /** Results shown at most. */
  const Limit := 20

  /** One `search-result-item`: its icon, its highlighted name, its relative path, and the hit it opens. */
  datatype ResultItem = ResultItem(icon: string, nameHtml: string, relativePath: string, result: SearchResult)

  /** What the results element holds. */
  datatype Panel =
    | Blank
    | NoResults
    | SearchError
    | Results(items: seq<ResultItem>, moreInfo: Option<string>)

  /** `createSearchResultItem(result, query)`. */
  function ItemOf(r: SearchResult, query: string): ResultItem {
    ResultItem(if r.isDirectory then FolderIcon else FileIcon, HighlightMatch(r.name, query), r.relativePath, r)
  }

  /** The items of `rs`, in order. */
  function ItemsOf(rs: seq<SearchResult>, query: string): (r: seq<ResultItem>)
    ensures |r| == |rs|
    ensures forall i :: 0 <= i < |rs| ==> r[i] == ItemOf(rs[i], query)
  {
    seq(|rs|, i requires 0 <= i < |rs| => ItemOf(rs[i], query))
  }

  /** The `search-more-info` line. */
  function MoreInfo(n: nat): string {
    "Showing 20 of " + NatToString(n) + " results"
  }

  /** What `displaySearchResults(results, query)` puts into the results element. */
  function Display(rs: seq<SearchResult>, query: string): Panel {
    if |rs| == 0 then NoResults
    else
      var shown := if |rs| <= Limit then rs else rs[..Limit];
      Results(ItemsOf(shown, query), if |rs| > Limit then Some(MoreInfo(|rs|)) else None)
  }

  /** The "No results found" message appears exactly when there are no results. */
  lemma DisplayNoResultsIff(rs: seq<SearchResult>, query: string)
    ensures Display(rs, query) == NoResults <==> rs == []
    ensures rs != [] ==> Display(rs, query).Results?
  {
  }

  /**
   * A non-empty reply shows its first min(N, 20) results, in order, each with
   * the folder icon exactly when it is a directory and its name highlighted.
   */
  lemma DisplayShowsFirst(rs: seq<SearchResult>, query: string)
    requires rs != []
    ensures var p := Display(rs, query);
      p.Results? &&
      |p.items| == (if |rs| <= Limit then |rs| else Limit) &&
      forall i :: 0 <= i < |p.items| ==>
        p.items[i].result == rs[i] &&
        (p.items[i].icon == FolderIcon <==> rs[i].isDirectory) &&
        p.items[i].nameHtml == HighlightMatch(rs[i].name, query) &&
        p.items[i].relativePath == rs[i].relativePath
  {
    assert FolderIcon != FileIcon by {
      assert |FolderIcon| != |FileIcon|;
    }
  }

  /** The "Showing 20 of N results" line appears exactly when there are more than 20 results. */
  lemma DisplayMoreInfoIff(rs: seq<SearchResult>, query: string)
    requires rs != []
    ensures Display(rs, query).moreInfo.Some? <==> |rs| > Limit
    ensures Display(rs, query).moreInfo.Some? ==> Display(rs, query).moreInfo.value == MoreInfo(|rs|)
  {
  }

  /** The line tells the number of results: different numbers give different lines. */
  lemma MoreInfoInjective(m: nat, n: nat)
    requires m != n
    ensures MoreInfo(m) != MoreInfo(n)
  {
    NatToStringInjective(m, n);
    var a, b := MoreInfo(m), MoreInfo(n);
    assert a[14..|a| - 8] == NatToString(m);
    assert b[14..|b| - 8] == NatToString(n);
  }

  /** The `forEach` of `displaySearchResults`: one item per shown result, appended in order. */
  method BuildItems(rs: seq<SearchResult>, query: string) returns (items: seq<ResultItem>)
    ensures items == ItemsOf(rs, query)
  {
    items := [];
    for i := 0 to |rs|
      invariant |items| == i
      invariant forall j :: 0 <= j < i ==> items[j] == ItemOf(rs[j], query)
    {
      items := items + [ItemOf(rs[i], query)];
    }
  }

  // ---------------------------------------------------------------------------
  // Keyboard focus

  /** Where the focus is: the search input, the result item at `index`, or elsewhere. */
  datatype Focus = OnInput | OnItem(index: nat) | Elsewhere

  /** The number of `search-result-item` elements in the panel. */
  function ItemCount(p: Panel): nat {
    if p.Results? then |p.items| else 0
  }

  /** `focusNextResult` with `n` items. */
  function NextFocus(f: Focus, n: nat): Focus {
    if n == 0 then f
    else if !f.OnItem? then OnItem(0)
    else OnItem((f.index + 1) % n)
  }

  /** `focusPreviousResult` with `n` items. */
  function PrevFocus(f: Focus, n: nat): Focus {
    if n == 0 then f
    else if !f.OnItem? then OnItem(n - 1)
    else OnItem((f.index - 1 + n) % n)
  }

  /** With no items, neither key moves the focus. */
  lemma FocusWithoutItems(f: Focus)
    ensures NextFocus(f, 0) == f && PrevFocus(f, 0) == f
  {
  }

  /** From outside the list, down focuses the first item and up the last. */
  lemma FocusFromOutside(f: Focus, n: nat)
    requires n > 0 && !f.OnItem?
    ensures NextFocus(f, n) == OnItem(0) && PrevFocus(f, n) == OnItem(n - 1)
  {
  }

  /** With items, both keys land on an item of the list. */
  lemma FocusInRange(f: Focus, n: nat)
    requires n > 0
    ensures NextFocus(f, n).OnItem? && NextFocus(f, n).index < n
    ensures PrevFocus(f, n).OnItem? && PrevFocus(f, n).index < n
  {
  }

  /** Down then up, or up then down, returns to the same item. */
  lemma NextPrevInverse(i: nat, n: nat)
    requires i < n
    ensures PrevFocus(NextFocus(OnItem(i), n), n) == OnItem(i)
    ensures NextFocus(PrevFocus(OnItem(i), n), n) == OnItem(i)
  {
    if i + 1 < n {
      ModSmall(i + 1, n);
      ModPlusN(i, n);
    } else {
      ModSelf(n);
      ModSmall(n - 1, n);
    }
    if i > 0 {
      ModPlusN(i - 1, n);
      ModSmall(i, n);
    } else {
      ModSmall(n - 1, n);
      ModSelf(n);
    }
  }

  /** The focus after `k` presses of the down key. */
  function Downs(f: Focus, n: nat, k: nat): Focus {
    if k == 0 then f else NextFocus(Downs(f, n, k - 1), n)
  }

  /** The down key cycles: `k` presses move the focus `k` items on, modulo the number of items. */
  lemma {:induction false} DownsCycle(i: nat, n: nat, k: nat)
    requires i < n
    ensures Downs(OnItem(i), n, k) == OnItem((i + k) % n)
  {
    if k > 0 {
      DownsCycle(i, n, k - 1);
      ModSucc(i + k - 1, n);
    }
  }

  lemma ModSucc(a: nat, n: nat)
    requires n > 0
    ensures (a % n + 1) % n == (a + 1) % n
  {
    var q, r := a / n, a % n;
    if r + 1 < n {
      ModUnique(a + 1, n, q, r + 1);
      ModSmall(r + 1, n);
    } else {
      assert (q + 1) * n == q * n + n;
      ModUnique(a + 1, n, q + 1, 0);
      ModSelf(n);
    }
  }

  lemma ModSmall(a: int, n: int)
    requires 0 <= a < n
    ensures a % n == a
  {
  }

  lemma ModSelf(n: int)
    requires n > 0
    ensures n % n == 0
  {
  }

  lemma ModPlusN(a: int, n: int)
    requires 0 <= a < n
    ensures (a + n) % n == a
  {
  }

  lemma MulAtLeast(d: int, n: int)
    requires d >= 1 && n > 0
    ensures d * n >= n
  {
  }

  /** Euclidean remainder: `r` is the remainder of `a = q * n + r` whenever `0 <= r < n`. */
  lemma ModUnique(a: int, n: int, q: int, r: int)
    requires n > 0 && a == q * n + r && 0 <= r < n
    ensures a % n == r
  {
    var q0, r0 := a / n, a % n;
    assert a == q0 * n + r0;
    assert (q - q0) * n == r0 - r;
    if q > q0 {
      MulAtLeast(q - q0, n);
    } else if q < q0 {
      MulAtLeast(q0 - q, n);
    }
  }

  // ---------------------------------------------------------------------------
  // Clicking a result

  /** What a click (or Enter) on a result opens. */
  datatype Open = OpenFile(path: string) | ExpandFolder(path: string)

  /** A file opens; a directory opens its `index.md` when that exists, and is expanded in the tree otherwise. */
  function ResultAction(r: SearchResult, existing: set<string>): Open {
    if !r.isDirectory then OpenFile(r.path)
    else if FullPath(r.path, "index.md") in existing then OpenFile(FullPath(r.path, "index.md"))
    else ExpandFolder(r.path)
  }

  /** A directory result opens a file only when its index exists; a file result always opens itself. */
  lemma ResultActionOpens(r: SearchResult, existing: set<string>)
    ensures !r.isDirectory ==> ResultAction(r, existing) == OpenFile(r.path)
    ensures r.isDirectory ==>
      (ResultAction(r, existing).OpenFile? <==> FullPath(r.path, "index.md") in existing)
    ensures r.isDirectory && ResultAction(r, existing).OpenFile? ==> ResultAction(r, existing).path in existing
    ensures ResultAction(r, existing).ExpandFolder? ==> ResultAction(r, existing).path == r.path
  {
  }

  // ---------------------------------------------------------------------------
  // The search box

  /** The keys the search input handles. */
  datatype Key = Escape | ArrowDown | ArrowUp | OtherKey

  /** Removing the element that holds the focus moves the focus to the page body. */
  function Cleared(f: Focus): Focus {
    if f.OnItem? then Elsewhere else f
  }

  /**
   * The state `search.js` keeps: the input's value, the query of the search
   * the debounce timer will run (`None` when no timer is pending), whether the
   * results element is hidden, what it holds, and where the focus is.
   */
  class SearchBox {
    var inputValue: string
    var pending: Option<string>
    var hidden: bool
    var panel: Panel
    var focus: Focus

    /** A focused item is one of the panel's items. */
    predicate Valid()
      reads this
    {
      focus.OnItem? ==> focus.index < ItemCount(panel)
    }

    constructor()
      ensures inputValue == "" && pending == None && hidden && panel == Blank && focus == Elsewhere
      ensures Valid()
    {
      inputValue := "";
      pending := None;
      hidden := true;
      panel := Blank;
      focus := Elsewhere;
    }

    /**
     * `handleSearchInput` for the new value of the input: the pending search is
     * cancelled; a blank query hides the results and schedules nothing, any
     * other schedules one search for the trimmed query.
     */
    method HandleInput(value: string)
      requires Valid()
      modifies this
      ensures Valid()
      ensures inputValue == value
      ensures Trim(value) == "" ==> pending == None && hidden
      ensures Trim(value) != "" ==> pending == Some(Trim(value)) && hidden == old(hidden)
      ensures panel == old(panel) && focus == old(focus)
    {
      inputValue := value;
      var query := Trim(value);
      if pending.Some? {
        pending := None;
      }
      if query == "" {
        hidden := true;
        return;
      }
      pending := Some(query);
    }

    /** The debounce timer fires: the pending search, if any, runs and is no longer pending. */
    method RunPending(root: Option<string>, reply: Option<seq<SearchResult>>)
      requires Valid()
      modifies this
      ensures Valid()
      ensures pending == None && inputValue == old(inputValue)
      ensures old(pending).None? ==> hidden == old(hidden) && panel == old(panel) && focus == old(focus)
      ensures old(pending).Some? ==> Searched(old(pending).value, root, reply, old(hidden), old(panel), old(focus))
    {
      var query := pending;
      pending := None;
      if query.Some? {
        PerformSearch(query.value, root, reply);
      }
    }

    /** The results element after `performSearch(query)`, given what it held before. */
    ghost predicate Searched(query: string, root: Option<string>, reply: Option<seq<SearchResult>>,
      hidden0: bool, panel0: Panel, focus0: Focus)
      reads this
    {
      if root.None? || root.value == "" then hidden == hidden0 && panel == panel0 && focus == focus0
      else if reply.None? then !hidden && panel == SearchError && focus == Cleared(focus0)
      else !hidden && panel == Display(reply.value, query) && focus == Cleared(focus0)
    }

    /**
     * `performSearch(query)`: nothing without a wiki root; an error message when
     * the call to the main process fails; otherwise the reply is displayed.
     */
    method PerformSearch(query: string, root: Option<string>, reply: Option<seq<SearchResult>>)
      requires Valid()
      modifies this
      ensures Valid()
      ensures inputValue == old(inputValue) && pending == old(pending)
      ensures Searched(query, root, reply, old(hidden), old(panel), old(focus))
    {
      if root.None? || root.value == "" {
        return;
      }
      if reply.None? {
        panel := SearchError;
        focus := Cleared(focus);
        hidden := false;
        return;
      }
      DisplaySearchResults(reply.value, query);
    }

    /** `displaySearchResults(results, query)`: the panel shows `Display` and is visible. */
    method DisplaySearchResults(results: seq<SearchResult>, query: string)
      requires Valid()
      modifies this
      ensures Valid()
      ensures panel == Display(results, query) && !hidden && focus == Cleared(old(focus))
      ensures inputValue == old(inputValue) && pending == old(pending)
    {
      focus := Cleared(focus);
      if |results| == 0 {
        panel := NoResults;
        hidden := false;
        return;
      }
      var limited := if |results| <= Limit then results else results[..Limit];
      var items := BuildItems(limited, query);
      var more: Option<string> := None;
      if |results| > Limit {
        more := Some(MoreInfo(|results|));
      }
      panel := Results(items, more);
      hidden := false;
    }

    /** `focusNextResult`. */
    method FocusNextResult()
      requires Valid()
      modifies this
      ensures Valid()
      ensures focus == NextFocus(old(focus), ItemCount(panel))
      ensures inputValue == old(inputValue) && pending == old(pending) && hidden == old(hidden) && panel == old(panel)
    {
      var n := ItemCount(panel);
      if n == 0 {
        return;
      }
      if !focus.OnItem? {
        focus := OnItem(0);
      } else {
        focus := OnItem((focus.index + 1) % n);
      }
    }

    /** `focusPreviousResult`. */
    method FocusPreviousResult()
      requires Valid()
      modifies this
      ensures Valid()
      ensures focus == PrevFocus(old(focus), ItemCount(panel))
      ensures inputValue == old(inputValue) && pending == old(pending) && hidden == old(hidden) && panel == old(panel)
    {
      var n := ItemCount(panel);
      if n == 0 {
        return;
      }
      if !focus.OnItem? {
        focus := OnItem(n - 1);
      } else {
        focus := OnItem((focus.index - 1 + n) % n);
      }
    }

    /**
     * The `keydown` listener of the input, which runs while the input has the
     * focus: Escape hides the results and blurs the input; the arrows move the
     * focus into the list.
     */
    method KeyDown(key: Key)
      requires Valid() && focus == OnInput
      modifies this
      ensures Valid()
      ensures key == Escape ==> hidden && focus == Elsewhere
      ensures key == ArrowDown ==> focus == NextFocus(OnInput, ItemCount(panel)) && hidden == old(hidden)
      ensures key == ArrowUp ==> focus == PrevFocus(OnInput, ItemCount(panel)) && hidden == old(hidden)
      ensures key == OtherKey ==> focus == OnInput && hidden == old(hidden)
      ensures inputValue == old(inputValue) && pending == old(pending) && panel == old(panel)
    {
      match key
      case Escape =>
        hidden := true;
        focus := Elsewhere;
      case ArrowDown =>
        FocusNextResult();
      case ArrowUp =>
        FocusPreviousResult();
      case OtherKey =>
    }

    /** The `focus` listener of the input: a non-blank value shows the results again. */
    method FocusInput()
      requires Valid()
      modifies this
      ensures Valid()
      ensures focus == OnInput
      ensures hidden == (old(hidden) && Trim(inputValue) == "")
      ensures inputValue == old(inputValue) && pending == old(pending) && panel == old(panel)
    {
      focus := OnInput;
      if Trim(inputValue) != "" {
        hidden := false;
      }
    }

    /** The document's `click` listener, for a click outside the input and the results. */
    method ClickOutside()
      requires Valid()
      modifies this
      ensures Valid()
      ensures hidden
      ensures inputValue == old(inputValue) && pending == old(pending) && panel == old(panel) && focus == old(focus)
    {
      hidden := true;
    }

    /**
     * The click handler of a result item: the results are hidden, the input is
     * emptied (which fires no `input` event, so a pending search stays
     * pending), and the result is opened.
     */
    method ClickResult(r: SearchResult, existing: set<string>) returns (action: Open)
      requires Valid()
      modifies this
      ensures Valid()
      ensures action == ResultAction(r, existing)
      ensures hidden && inputValue == ""
      ensures pending == old(pending) && panel == old(panel) && focus == old(focus)
    {
      hidden := true;
      inputValue := "";
      if !r.isDirectory {
        action := OpenFile(r.path);
      } else {
        var indexPath := FullPath(r.path, "index.md");
        if indexPath in existing {
          action := OpenFile(indexPath);
        } else {
          action := ExpandFolder(r.path);
        }
      }
    }
  }

  /** From the input, the down key always focuses the first item and the up key the last. */
  lemma KeysFromInput(n: nat)
    requires n > 0
    ensures NextFocus(OnInput, n) == OnItem(0) && PrevFocus(OnInput, n) == OnItem(n - 1)
  {
  }
}
