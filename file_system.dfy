/**
 * The directory walks of the main process: the markdown-file test, the
 * sidebar tree (`getFileTree`), the name search (`searchFiles`) and the
 * document-relative path resolution (`resolvePath`). The file system is an
 * in-memory tree: each directory is either readable, with its entries in the
 * order `readdir` returns them, or unreadable.
 */
module FileSystem {
  import opened Wrappers
  import opened Text
  import opened Sorting
  import opened Paths

  // ---------------------------------------------------------------------------
  // Markdown files

  /**
   * `isMarkdownFile`: the lower-cased name ends in `.md` or `.markdown` with
   * at least one character before the dot. `MarkdownByExtname` shows this is
   * the source's test on the lower-cased `path.extname`.
   */
  predicate IsMarkdownFile(name: string) {
    (|name| > 3 && EndsWithLower(name, ".md")) || (|name| > 9 && EndsWithLower(name, ".markdown"))
  }

  /**
   * The lower-cased extension is `.md` or `.markdown` exactly for markdown
   * files; so `.md` itself, a dot file without extension, is not one.
   */
  lemma MarkdownByExtname(name: string)
    ensures IsMarkdownFile(name) <==>
      Lower(Extname(name)) == ".md" || Lower(Extname(name)) == ".markdown"
  {
    ExtnameBySuffix(name, ".md");
    ExtnameBySuffix(name, ".markdown");
  }

  /** The lower-cased extension is `ext` exactly when the name ends in `ext`, in any case, after something. */
  lemma ExtnameBySuffix(name: string, ext: string)
    requires 2 <= |ext| && ext[0] == '.' && '.' !in ext[1..]
    ensures (|name| > |ext| && EndsWithLower(name, ext)) <==> Lower(Extname(name)) == ext
  {
    EndsWithLowerIsEndsWith(name, ext);
    if Lower(Extname(name)) == ext {
      ExtIsSuffix(name, ext);
    }
    if |name| > |ext| && EndsWith(Lower(name), ext) {
      SuffixIsExt(name, ext);
    }
  }

  /** A lower-cased extension is a suffix of the lower-cased name, with something before it. */
  lemma ExtIsSuffix(name: string, ext: string)
    requires ext != [] && Lower(Extname(name)) == ext
    ensures |name| > |ext| && EndsWith(Lower(name), ext)
  {
    LowerSuffix(name, |name| - |Extname(name)|);
  }

  /**
   * A dot-led suffix, with no other dot, of the lower-cased name is its
   * lower-cased extension when at least one character comes before it.
   */
  lemma SuffixIsExt(name: string, ext: string)
    requires 2 <= |ext| < |name| && ext[0] == '.' && '.' !in ext[1..]
    requires EndsWith(Lower(name), ext)
    ensures Lower(Extname(name)) == ext
  {
    var k := |name| - |ext|;
    assert Lower(name)[k] == ext[0];
    assert name[k] == '.';
    assert forall j :: k < j < |name| ==> name[j] != '.' by {
      forall j | k < j < |name| ensures name[j] != '.' {
        assert Lower(name)[j] == ext[j - k];
        assert ext[j - k] == ext[1..][j - k - 1];
      }
    }
    assert name[k] in name;
    assert LastDot(name) == Some(k);
    LowerSuffix(name, k);
  }

  // ---------------------------------------------------------------------------
  // The directory tree

  /** A directory entry as `readdir(..., { withFileTypes: true })` reports it. */
  datatype Entry = Dir(name: string, listing: Listing) | File(name: string)

  /** What reading a directory gives: its entries in order, or an error. */
  datatype Listing = Unreadable | Entries(items: seq<Entry>)

  /** One node of the sidebar tree. */
  datatype TreeNode =
    | DirNode(name: string, path: string, relativePath: string, children: seq<TreeNode>,
              hasIndex: bool, indexPath: Option<string>)
    | FileNode(name: string, path: string, relativePath: string)

  /** Directories that both walks skip: hidden ones and `node_modules`. */
  predicate IsSkipped(name: string) {
    StartsWith(name, ".") || name == "node_modules"
  }

  /** The file names that make a directory's landing page, in any case. */
  predicate IsIndexName(name: string) {
    EqualsLower(name, "index.md") || EqualsLower(name, "readme.md") ||
    EqualsLower(name, "index.markdown") || EqualsLower(name, "readme.markdown")
  }

  /** `path.join(dir, name)` for a normalised directory path and an entry name. */
  function FullPath(dir: string, name: string): string {
    if EndsWith(dir, "/") then dir + name else dir + "/" + name
  }

  /** `path.relative(root, path.join(dir, name))`, given the path of `dir` relative to the root. */
  function RelPath(rel: string, name: string): string {
    if rel == "" then name else rel + "/" + name
  }

  /** The sort key of the tree: directories (`0`) before files (`1`), then the lower-cased name. */
  function TreeKey(n: TreeNode): string {
    (if n.DirNode? then "0" else "1") + Lower(n.name)
  }

  /** A file child that makes a landing page. */
  predicate IsIndexFile(n: TreeNode) {
    n.FileNode? && IsIndexName(n.name)
  }

  /** Child `j` is the first landing-page file among `kids`. */
  predicate IsFirstIndex(kids: seq<TreeNode>, j: int) {
    0 <= j < |kids| && IsIndexFile(kids[j]) && forall k :: 0 <= k < j ==> !IsIndexFile(kids[k])
  }

  /** The witness of `IsFirstIndex` for a found path. */
  function FirstIndexOf(kids: seq<TreeNode>, path: string): int
    requires exists j :: IsFirstIndex(kids, j) && path == kids[j].path
  {
    var j :| IsFirstIndex(kids, j) && path == kids[j].path; j
  }

  /** `children.find(...)`: the path of the first child that is an index or readme file. */
  function IndexChild(kids: seq<TreeNode>): (r: Option<string>)
    ensures r.None? <==> forall j :: 0 <= j < |kids| ==> !IsIndexFile(kids[j])
    ensures r.Some? ==> exists j :: IsFirstIndex(kids, j) && r.value == kids[j].path
  {
    if kids == [] then None
    else if IsIndexFile(kids[0]) then Some(kids[0].path)
    else
      var r := IndexChild(kids[1..]);
      assert r.Some? ==> (IsFirstIndex(kids, FirstIndexOf(kids[1..], r.value) + 1) &&
        r.value == kids[FirstIndexOf(kids[1..], r.value) + 1].path) by {
        if r.Some? {
          var j := FirstIndexOf(kids[1..], r.value);
          assert kids[j + 1] == kids[1..][j];
          assert forall k :: 1 <= k < j + 1 ==> kids[k] == kids[1..][k - 1];
        }
      }
      r
  }

  /** `getFileTree(dir)`: the kept entries of a directory, sorted; `[]` for an unreadable one. */
  function Tree(l: Listing, dir: string, rel: string): seq<TreeNode>
    decreases l, if l.Entries? then |l.items| + 1 else 0
  {
    if l.Unreadable? then [] else SortBy(Kept(l, dir, rel, 0), TreeKey)
  }

  /** The nodes built for entries `i..` of a readable directory, in `readdir` order. */
  function Kept(l: Listing, dir: string, rel: string, i: nat): seq<TreeNode>
    requires l.Entries? && i <= |l.items|
    decreases l, |l.items| - i
  {
    if i == |l.items| then []
    else
      assert l.items[i] in l.items;
      Opt(NodeFor(l.items[i], dir, rel)) + Kept(l, dir, rel, i + 1)
  }

  /** The node, if any, as a sequence of at most one element. */
  function Opt(o: Option<TreeNode>): seq<TreeNode> {
    if o.Some? then [o.value] else []
  }

  /** The node one entry contributes: a directory that is not skipped, or a markdown file. */
  function NodeFor(e: Entry, dir: string, rel: string): Option<TreeNode>
    decreases e
  {
    var path := FullPath(dir, e.name);
    var relPath := RelPath(rel, e.name);
    match e
    case Dir(name, sub) =>
      if IsSkipped(name) then None
      else
        var kids := Tree(sub, path, relPath);
        var index := IndexChild(kids);
        Some(DirNode(name, path, relPath, kids, index.Some?, index))
    case File(name) =>
      if IsMarkdownFile(name) then Some(FileNode(name, path, relPath)) else None
  }

  /** `getFileTree`, as the source writes it: a loop that pushes nodes, then an in-place sort. */
  method GetFileTree(l: Listing, dir: string, rel: string) returns (tree: seq<TreeNode>)
    ensures tree == Tree(l, dir, rel)
    decreases l, 1
  {
    if l.Unreadable? {
      return [];
    }
    var entries := l.items;
    tree := [];
    var i := 0;
    while i < |entries|
      invariant 0 <= i <= |entries|
      invariant Kept(l, dir, rel, 0) == tree + Kept(l, dir, rel, i)
    {
      KeptStep(l, dir, rel, i, tree);
      var entry := entries[i];
      assert entry in l.items;
      var node := EntryNode(entry, dir, rel);
      tree := tree + Opt(node);
      i := i + 1;
    }
    assert tree == Kept(l, dir, rel, 0) by {
      assert Kept(l, dir, rel, i) == [];
    }
    tree := SortBy(tree, TreeKey);
  }

  /** The body of the loop of `getFileTree` for one entry: the node it pushes, if any. */
  method EntryNode(entry: Entry, dir: string, rel: string) returns (node: Option<TreeNode>)
    ensures node == NodeFor(entry, dir, rel)
    decreases entry, 0
  {
    var fullPath := FullPath(dir, entry.name);
    var relativePath := RelPath(rel, entry.name);
    node := None;
    if entry.Dir? {
      if !IsSkipped(entry.name) {
        var children := GetFileTree(entry.listing, fullPath, relativePath);
        var indexFile := IndexChild(children);
        node := Some(DirNode(entry.name, fullPath, relativePath, children, indexFile.Some?, indexFile));
      }
    } else if IsMarkdownFile(entry.name) {
      node := Some(FileNode(entry.name, fullPath, relativePath));
    }
  }

  /** One more entry of the loop of `GetFileTree`. */
  lemma KeptStep(l: Listing, dir: string, rel: string, i: nat, before: seq<TreeNode>)
    requires l.Entries? && i < |l.items|
    requires Kept(l, dir, rel, 0) == before + Kept(l, dir, rel, i)
    ensures Kept(l, dir, rel, 0) == (before + Opt(NodeFor(l.items[i], dir, rel))) + Kept(l, dir, rel, i + 1)
  {
  }

  /** The node of a directory that is not skipped. */
  lemma NodeForDir(e: Entry, dir: string, rel: string)
    requires e.Dir? && !IsSkipped(e.name)
    ensures var path := FullPath(dir, e.name);
      var relPath := RelPath(rel, e.name);
      var kids := Tree(e.listing, path, relPath);
      NodeFor(e, dir, rel) == Some(DirNode(e.name, path, relPath, kids, IndexChild(kids).Some?, IndexChild(kids)))
  {
  }

  /** Whether an entry shows up in the tree. */
  predicate KeptEntry(e: Entry) {
    if e.Dir? then !IsSkipped(e.name) else IsMarkdownFile(e.name)
  }

  /** An entry gives a node exactly when it is kept, and that node carries its name and paths. */
  lemma NodeForKept(e: Entry, dir: string, rel: string)
    ensures NodeFor(e, dir, rel).Some? <==> KeptEntry(e)
    ensures NodeFor(e, dir, rel).Some? ==>
      var n := NodeFor(e, dir, rel).value;
      n.name == e.name && n.path == FullPath(dir, e.name) && n.relativePath == RelPath(rel, e.name) &&
      (n.DirNode? <==> e.Dir?)
  {
  }

  /** The nodes of entries `i..` are exactly the nodes of the kept ones among them. */
  lemma {:induction false} KeptMembers(l: Listing, dir: string, rel: string, i: nat)
    requires l.Entries? && i <= |l.items|
    ensures forall n :: n in Kept(l, dir, rel, i) <==>
      exists j :: i <= j < |l.items| && NodeFor(l.items[j], dir, rel) == Some(n)
    decreases |l.items| - i
  {
    if i < |l.items| {
      KeptMembers(l, dir, rel, i + 1);
      KeptHead(l, dir, rel, i);
      forall n ensures n in Kept(l, dir, rel, i) <==>
        exists j :: i <= j < |l.items| && NodeFor(l.items[j], dir, rel) == Some(n)
      {
        if NodeFor(l.items[i], dir, rel) == Some(n) {
          assert i <= i < |l.items| && NodeFor(l.items[i], dir, rel) == Some(n);
        }
        if exists j :: i <= j < |l.items| && NodeFor(l.items[j], dir, rel) == Some(n) {
          var j :| i <= j < |l.items| && NodeFor(l.items[j], dir, rel) == Some(n);
          if j > i {
            assert i + 1 <= j < |l.items| && NodeFor(l.items[j], dir, rel) == Some(n);
          }
        }
      }
    }
  }

  lemma KeptHead(l: Listing, dir: string, rel: string, i: nat)
    requires l.Entries? && i < |l.items|
    ensures forall n :: n in Kept(l, dir, rel, i) <==>
      NodeFor(l.items[i], dir, rel) == Some(n) || n in Kept(l, dir, rel, i + 1)
  {
  }

  /**
   * The tree of a readable directory holds one node for each directory that
   * is not hidden or `node_modules` and one for each markdown file, and no
   * other node.
   */
  lemma {:induction false} TreeIsKeptEntries(l: Listing, dir: string, rel: string)
    requires l.Entries?
    ensures multiset(Tree(l, dir, rel)) == multiset(Kept(l, dir, rel, 0))
    ensures forall n :: n in Tree(l, dir, rel) <==>
      exists j :: 0 <= j < |l.items| && KeptEntry(l.items[j]) && NodeFor(l.items[j], dir, rel) == Some(n)
  {
    KeptMembers(l, dir, rel, 0);
    forall n ensures n in Tree(l, dir, rel) <==> n in Kept(l, dir, rel, 0) {
      assert n in Tree(l, dir, rel) <==> n in multiset(Tree(l, dir, rel));
      assert n in Kept(l, dir, rel, 0) <==> n in multiset(Kept(l, dir, rel, 0));
    }
    forall j | 0 <= j < |l.items| {
      NodeForKept(l.items[j], dir, rel);
    }
  }

  lemma LexLeTaggedDifferent(a: string, b: string)
    ensures !LexLe("1" + a, "0" + b)
  {
    assert ("1" + a)[0] == '1' && ("0" + b)[0] == '0';
  }

  lemma LexLeTaggedSame(c: char, a: string, b: string)
    ensures LexLe([c] + a, [c] + b) <==> LexLe(a, b)
  {
    assert ([c] + a)[1..] == a && ([c] + b)[1..] == b;
  }

  /**
   * Every level of the tree lists all directories before all files, and each
   * group in case-insensitive name order.
   */
  lemma TreeOrder(l: Listing, dir: string, rel: string)
    ensures var t := Tree(l, dir, rel);
      forall i, j :: 0 <= i < j < |t| ==>
        (t[j].DirNode? ==> t[i].DirNode?) &&
        (t[i].DirNode? == t[j].DirNode? ==> LexLe(Lower(t[i].name), Lower(t[j].name)))
  {
    var t := Tree(l, dir, rel);
    forall i, j | 0 <= i < j < |t|
      ensures (t[j].DirNode? ==> t[i].DirNode?) &&
        (t[i].DirNode? == t[j].DirNode? ==> LexLe(Lower(t[i].name), Lower(t[j].name)))
    {
      assert LexLe(TreeKey(t[i]), TreeKey(t[j]));
      if t[i].FileNode? && t[j].DirNode? {
        LexLeTaggedDifferent(Lower(t[i].name), Lower(t[j].name));
      }
      if t[i].DirNode? == t[j].DirNode? {
        LexLeTaggedSame(if t[i].DirNode? then '0' else '1', Lower(t[i].name), Lower(t[j].name));
      }
    }
  }

  /**
   * A directory node has an index exactly when one of its children is a file
   * named `index.md`, `readme.md`, `index.markdown` or `readme.markdown` in
   * any case, and its index path is the path of the first such child.
   */
  lemma DirIndex(e: Entry, dir: string, rel: string)
    requires NodeFor(e, dir, rel).Some? && NodeFor(e, dir, rel).value.DirNode?
    ensures var n := NodeFor(e, dir, rel).value;
      (n.hasIndex <==> exists j :: 0 <= j < |n.children| && IsIndexFile(n.children[j])) &&
      (n.hasIndex <==> n.indexPath.Some?) &&
      (n.hasIndex ==> exists j :: IsFirstIndex(n.children, j) && n.indexPath == Some(n.children[j].path))
  {
  }

  // ---------------------------------------------------------------------------
  // Searching by name

  /** One hit of `searchFiles`. */
  datatype SearchResult = SearchResult(name: string, path: string, relativePath: string, isDirectory: bool)

  /** A hit matches when its lower-cased name contains the lower-cased query. */
  predicate Matches(r: SearchResult, queryLower: string) {
    Contains(Lower(r.name), queryLower)
  }

  /** `searchFiles(dir, query)`: `[]` for an empty or blank query, otherwise the matching hits. */
  function Search(l: Listing, dir: string, query: string): seq<SearchResult> {
    if IsBlank(query) then [] else SearchIn(l, dir, "", Lower(query))
  }

  /** The hits under a directory, for a lower-cased query; none for an unreadable one. */
  function SearchIn(l: Listing, dir: string, rel: string, q: string): seq<SearchResult>
    decreases l, if l.Entries? then |l.items| + 1 else 0
  {
    if l.Unreadable? then [] else SearchFrom(l, dir, rel, q, 0)
  }

  /** The hits of entries `i..`, in `readdir` order. */
  function SearchFrom(l: Listing, dir: string, rel: string, q: string, i: nat): seq<SearchResult>
    requires l.Entries? && i <= |l.items|
    decreases l, |l.items| - i
  {
    if i == |l.items| then []
    else
      assert l.items[i] in l.items;
      EntryHits(l.items[i], dir, rel, q) + SearchFrom(l, dir, rel, q, i + 1)
  }

  /**
   * The hits one entry contributes: none when it is hidden or `node_modules`
   * (files included); for a directory its own hit, if its name matches,
   * followed by the hits of its contents; for a markdown file its own hit, if
   * its name matches.
   */
  function EntryHits(e: Entry, dir: string, rel: string, q: string): seq<SearchResult>
    decreases e
  {
    var path := FullPath(dir, e.name);
    var relPath := RelPath(rel, e.name);
    if IsSkipped(e.name) then []
    else if e.Dir? then OwnHit(e, dir, rel, q) + SearchIn(e.listing, path, relPath, q)
    else if IsMarkdownFile(e.name) then OwnHit(e, dir, rel, q)
    else []
  }

  /** The hit for the entry itself. */
  function HitFor(e: Entry, dir: string, rel: string): SearchResult {
    SearchResult(e.name, FullPath(dir, e.name), RelPath(rel, e.name), e.Dir?)
  }

  /** The hit for the entry itself, when its name matches. */
  function OwnHit(e: Entry, dir: string, rel: string, q: string): seq<SearchResult> {
    if Matches(HitFor(e, dir, rel), q) then [HitFor(e, dir, rel)] else []
  }

  /** `searchFiles`, as the source writes it: a loop over the entries that collects their hits. */
  method SearchFiles(l: Listing, dir: string, rel: string, query: string) returns (results: seq<SearchResult>)
    ensures results == if IsBlank(query) then [] else SearchIn(l, dir, rel, Lower(query))
    decreases l, 1
  {
    // `!query || query.trim() === ''` is IsBlank (see TrimEmptyIffBlank)
    if IsBlank(query) {
      return [];
    }
    var queryLower := Lower(query);
    results := [];
    if l.Unreadable? {
      return [];
    }
    var entries := l.items;
    var i := 0;
    while i < |entries|
      invariant 0 <= i <= |entries|
      invariant SearchFrom(l, dir, rel, queryLower, 0) == results + SearchFrom(l, dir, rel, queryLower, i)
    {
      SearchFromStep(l, dir, rel, queryLower, i, results);
      var entry := entries[i];
      assert entry in l.items;
      var hits := SearchEntry(entry, dir, rel, query);
      results := results + hits;
      i := i + 1;
    }
    assert SearchFrom(l, dir, rel, queryLower, i) == [];
  }

  /** The body of the loop of `searchFiles` for one entry: the hits it pushes, in order. */
  method SearchEntry(entry: Entry, dir: string, rel: string, query: string) returns (hits: seq<SearchResult>)
    requires !IsBlank(query)
    ensures hits == EntryHits(entry, dir, rel, Lower(query))
    decreases entry, 0
  {
    var queryLower := Lower(query);
    var fullPath := FullPath(dir, entry.name);
    var relativePath := RelPath(rel, entry.name);
    hits := [];
    if !IsSkipped(entry.name) {
      if entry.Dir? {
        if Contains(Lower(entry.name), queryLower) {
          hits := hits + [SearchResult(entry.name, fullPath, relativePath, true)];
        }
        var subResults := SearchFiles(entry.listing, fullPath, relativePath, query);
        hits := hits + subResults;
      } else if IsMarkdownFile(entry.name) {
        if Contains(Lower(entry.name), queryLower) {
          hits := hits + [SearchResult(entry.name, fullPath, relativePath, false)];
        }
      }
    }
  }

  /** One more entry of the loop of `SearchFiles`. */
  lemma SearchFromStep(l: Listing, dir: string, rel: string, q: string, i: nat, before: seq<SearchResult>)
    requires l.Entries? && i < |l.items|
    requires SearchFrom(l, dir, rel, q, 0) == before + SearchFrom(l, dir, rel, q, i)
    ensures SearchFrom(l, dir, rel, q, 0) ==
      (before + EntryHits(l.items[i], dir, rel, q)) + SearchFrom(l, dir, rel, q, i + 1)
  {
  }

  /** Every entry the search visits, in visiting order, whatever the query. */
  function Walk(l: Listing, dir: string, rel: string): seq<SearchResult>
    decreases l, if l.Entries? then |l.items| + 1 else 0
  {
    if l.Unreadable? then [] else WalkFrom(l, dir, rel, 0)
  }

  function WalkFrom(l: Listing, dir: string, rel: string, i: nat): seq<SearchResult>
    requires l.Entries? && i <= |l.items|
    decreases l, |l.items| - i
  {
    if i == |l.items| then []
    else
      assert l.items[i] in l.items;
      EntryWalk(l.items[i], dir, rel) + WalkFrom(l, dir, rel, i + 1)
  }

  /** The entries one entry contributes to the walk: itself, then its contents. */
  function EntryWalk(e: Entry, dir: string, rel: string): seq<SearchResult>
    decreases e
  {
    if IsSkipped(e.name) then []
    else if e.Dir? then [HitFor(e, dir, rel)] + Walk(e.listing, FullPath(dir, e.name), RelPath(rel, e.name))
    else if IsMarkdownFile(e.name) then [HitFor(e, dir, rel)]
    else []
  }

  /** The hits of `rs` whose names match. */
  function Filter(rs: seq<SearchResult>, q: string): (r: seq<SearchResult>)
    ensures forall x :: x in r <==> x in rs && Matches(x, q)
  {
    if rs == [] then []
    else (if Matches(rs[0], q) then [rs[0]] else []) + Filter(rs[1..], q)
  }

  lemma {:induction false} FilterAppend(a: seq<SearchResult>, b: seq<SearchResult>, q: string)
    ensures Filter(a + b, q) == Filter(a, q) + Filter(b, q)
    decreases |a|
  {
    if a != [] {
      FilterAppend(a[1..], b, q);
      assert (a + b)[0] == a[0];
      assert (a + b)[1..] == a[1..] + b;
    } else {
      assert a + b == b;
    }
  }

  /**
   * The search keeps, in visiting order, exactly the visited entries whose
   * names match: a matching directory comes before its descendants, and the
   * contents of a directory are searched whether or not its own name matches.
   */
  lemma {:induction false} SearchIsFilteredWalk(l: Listing, dir: string, rel: string, q: string)
    ensures SearchIn(l, dir, rel, q) == Filter(Walk(l, dir, rel), q)
    decreases l, if l.Entries? then |l.items| + 1 else 0
  {
    if l.Entries? {
      SearchFromIsFiltered(l, dir, rel, q, 0);
    }
  }

  lemma {:induction false} SearchFromIsFiltered(l: Listing, dir: string, rel: string, q: string, i: nat)
    requires l.Entries? && i <= |l.items|
    ensures SearchFrom(l, dir, rel, q, i) == Filter(WalkFrom(l, dir, rel, i), q)
    decreases l, |l.items| - i
  {
    if i < |l.items| {
      assert l.items[i] in l.items;
      SearchFromIsFiltered(l, dir, rel, q, i + 1);
      EntryHitsIsFiltered(l.items[i], dir, rel, q);
      FilterAppend(EntryWalk(l.items[i], dir, rel), WalkFrom(l, dir, rel, i + 1), q);
    }
  }

  lemma {:induction false} EntryHitsIsFiltered(e: Entry, dir: string, rel: string, q: string)
    ensures EntryHits(e, dir, rel, q) == Filter(EntryWalk(e, dir, rel), q)
    decreases e
  {
    var hit := HitFor(e, dir, rel);
    assert Filter([hit], q) == OwnHit(e, dir, rel, q) by {
      assert [hit][1..] == [];
    }
    if !IsSkipped(e.name) && e.Dir? {
      var path := FullPath(dir, e.name);
      var relPath := RelPath(rel, e.name);
      SearchIsFilteredWalk(e.listing, path, relPath, q);
      FilterAppend([hit], Walk(e.listing, path, relPath), q);
    }
  }

  /** Every hit matches and was visited; every visited entry that matches is a hit. */
  lemma SearchSoundComplete(l: Listing, dir: string, query: string)
    requires !IsBlank(query)
    ensures forall x :: x in Search(l, dir, query) <==> x in Walk(l, dir, "") && Matches(x, Lower(query))
  {
    SearchIsFilteredWalk(l, dir, "", Lower(query));
  }

  /** A blank query finds nothing, whatever the tree. */
  lemma BlankQueryFindsNothing(l: Listing, dir: string, query: string)
    requires IsBlank(query)
    ensures Search(l, dir, query) == []
  {
  }

  // ---------------------------------------------------------------------------
  // Path resolution

  /** The segments of `path.dirname(base)`: all but the last segment of `base`. */
  function DirSegments(base: string): seq<string> {
    var segs := Segments(base);
    if segs == [] then [] else segs[..|segs| - 1]
  }

  /** `resolvePath(base, rel)`: `path.resolve(path.dirname(base), rel)`. */
  function ResolvePath(base: string, rel: string): string {
    PathOf(Normalize(if IsAbsolute(rel) then Segments(rel) else DirSegments(base) + Segments(rel)))
  }

  /** A resolved path is absolute and has no empty, `.` or `..` segment. */
  lemma ResolvedIsNormal(base: string, rel: string)
    ensures var r := ResolvePath(base, rel);
      IsAbsolute(r) && forall s :: s in Segments(r) ==> IsName(s)
  {
    var segs := Normalize(if IsAbsolute(rel) then Segments(rel) else DirSegments(base) + Segments(rel));
    SegmentsOfPath(segs);
  }

  /** An absolute reference does not depend on the document it is resolved against. */
  lemma AbsoluteIgnoresBase(base1: string, base2: string, rel: string)
    requires IsAbsolute(rel)
    ensures ResolvePath(base1, rel) == ResolvePath(base2, rel)
  {
  }

  /** A plain file name lands in the directory of the base document. */
  lemma PlainNameInBaseDir(base: string, name: string)
    requires IsName(name)
    ensures Segments(ResolvePath(base, name)) == Normalize(DirSegments(base)) + [name]
  {
    assert Split(name, '/') == [name];
    NonEmptyKeeps([name]);
    var segs := DirSegments(base) + [name];
    assert segs[..|segs| - 1] == DirSegments(base);
    SegmentsOfPath(Normalize(segs));
  }

  /**
   * `../name` lands in the parent of the base document's directory (the root
   * stays the root).
   */
  lemma ParentDirLink(base: string, name: string)
    requires IsName(name)
    ensures var d := Normalize(DirSegments(base));
      Segments(ResolvePath(base, "../" + name)) == (if d == [] then [] else d[..|d| - 1]) + [name]
  {
    ParentSegments(name);
    var d := DirSegments(base);
    ParentNormalize(d, name);
    SegmentsOfPath(Normalize(d + ["..", name]));
  }

  lemma ParentNormalize(d: seq<string>, name: string)
    requires forall i :: 0 <= i < |d| ==> '/' !in d[i]
    requires IsName(name)
    ensures var n := Normalize(d);
      Normalize(d + ["..", name]) == (if n == [] then [] else n[..|n| - 1]) + [name]
  {
    assert d + ["..", name] == (d + [".."]) + [name];
    NormalizeSteps(d, "..");
    NormalizeSteps(d + [".."], name);
  }

  lemma ParentSegments(name: string)
    requires IsName(name)
    ensures Segments("../" + name) == ["..", name]
  {
    assert "../" + name == ".." + ['/'] + name;
    SplitCons("..", name, '/');
    assert Split(name, '/') == [name];
    NonEmptyKeeps(["..", name]);
  }

  /** Resolving an already resolved path changes nothing, whatever the base. */
  lemma ResolveIdempotent(base1: string, base2: string, rel: string)
    ensures ResolvePath(base2, ResolvePath(base1, rel)) == ResolvePath(base1, rel)
  {
    var segs := Normalize(if IsAbsolute(rel) then Segments(rel) else DirSegments(base1) + Segments(rel));
    SegmentsOfPath(segs);
  }
}
