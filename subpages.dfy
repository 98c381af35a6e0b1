/**
 * The table of sub-pages (`generateTOSP`): the markdown pages next to the
 * current document, other than the document itself and the directory's
 * `index` page, sorted by name and rendered as a list of links. Reading the
 * directory is a parameter: the names `readdir` gives for the directory of
 * the current file, or `None` when reading fails.
 */
module Subpages {
  import opened Wrappers
  import opened Text
  import opened Sorting
  import opened Paths
  import opened FileSystem

  const NotAvailable := "<p><em>Table of subpages not available</em></p>"
  const NoSubpages := "<p><em>No subpages found in this directory</em></p>"
  const ReadError := "<p><em>Error generating table of subpages</em></p>"
  const Header := "<nav class=\"table-of-subpages\">\n<h3>Pages in this section:</h3>\n<ul>\n"
  const Footer := "</ul>\n</nav>"

  /**
   * The filter of the listing: a markdown file, not the current file (compared
   * exactly, by basename), and not `index.md` or `index.markdown` in any case.
   * A `readme` page is listed.
   */
  predicate Keep(file: string, currentFile: string) {
    IsMarkdownFile(file) && file != currentFile &&
    !EqualsLower(file, "index.md") && !EqualsLower(file, "index.markdown")
  }

  /** `Keep` is the source's test on the lower-cased extension and the lower-cased name. */
  lemma KeepIsSourceTest(file: string, currentFile: string)
    ensures Keep(file, currentFile) <==>
      (Lower(Extname(file)) == ".md" || Lower(Extname(file)) == ".markdown") &&
      file != currentFile && Lower(file) != "index.md" && Lower(file) != "index.markdown"
  {
    MarkdownByExtname(file);
    EqualsLowerIsEqual(file, "index.md");
    EqualsLowerIsEqual(file, "index.markdown");
  }

  /** `files.filter(...)`: the kept names, in listing order. */
  function Subpages(files: seq<string>, currentFile: string): (r: seq<string>)
    ensures |r| <= |files|
    decreases |files|
  {
    if files == [] then []
    else (if Keep(files[0], currentFile) then [files[0]] else []) + Subpages(files[1..], currentFile)
  }

  /** The filter keeps exactly the names that pass `Keep`. */
  lemma {:induction false} SubpagesExactly(files: seq<string>, currentFile: string)
    ensures forall f :: f in Subpages(files, currentFile) <==> f in files && Keep(f, currentFile)
    decreases |files|
  {
    if files != [] {
      SubpagesExactly(files[1..], currentFile);
      assert files == [files[0]] + files[1..];
    }
  }

  /** The sort key: `localeCompare` with base sensitivity ignores case. */
  function SortKey(file: string): string {
    Lower(file)
  }

  /** The kept names in the order they are listed. */
  function Listing(files: seq<string>, currentFile: string): seq<string> {
    SortBy(Subpages(files, currentFile), SortKey)
  }

  /**
   * The listing holds exactly the kept names, each as often as in the
   * filtered directory listing, sorted case-insensitively.
   */
  lemma ListingIsSortedKept(files: seq<string>, currentFile: string)
    ensures forall f :: f in Listing(files, currentFile) <==> f in files && Keep(f, currentFile)
    ensures multiset(Listing(files, currentFile)) == multiset(Subpages(files, currentFile))
    ensures forall i, j :: 0 <= i < j < |Listing(files, currentFile)| ==>
      LexLe(Lower(Listing(files, currentFile)[i]), Lower(Listing(files, currentFile)[j]))
  {
    var kept := Subpages(files, currentFile);
    var l := Listing(files, currentFile);
    SubpagesExactly(files, currentFile);
    forall f ensures f in l <==> f in kept {
      assert f in l <==> f in multiset(l);
      assert f in kept <==> f in multiset(kept);
    }
    forall i, j | 0 <= i < j < |l| ensures LexLe(Lower(l[i]), Lower(l[j])) {
      assert LexLe(SortKey(l[i]), SortKey(l[j]));
    }
  }

  /** `path.basename(file, path.extname(file)).replace(/-/g, ' ')`. */
  function DisplayName(file: string): string {
    ReplaceChar(Stem(file), '-', ' ')
  }

  /** The display name is the stem, hyphen for space: no hyphen is left and no other character changes. */
  lemma DisplayNameOfStem(file: string)
    ensures |DisplayName(file)| == |Stem(file)|
    ensures '-' !in DisplayName(file)
    ensures forall i :: 0 <= i < |Stem(file)| && Stem(file)[i] != '-' ==> DisplayName(file)[i] == Stem(file)[i]
    ensures forall i :: 0 <= i < |Stem(file)| && Stem(file)[i] == '-' ==> DisplayName(file)[i] == ' '
  {
    var d := DisplayName(file);
    forall i | 0 <= i < |d| ensures d[i] != '-' {
    }
  }

  /** The list item of one page: a link to the file, labelled with its display name. */
  function Item(file: string): (r: string)
    ensures |r| > 0
  {
    "<li><a href=\"" + file + "\">" + DisplayName(file) + "</a></li>\n"
  }

  /** The list item of each page, in order. */
  function ItemList(files: seq<string>): (r: seq<string>)
    ensures |r| == |files|
    ensures forall i :: 0 <= i < |files| ==> r[i] == Item(files[i])
  {
    seq(|files|, i requires 0 <= i < |files| => Item(files[i]))
  }

  /** The list items of `files`, one after another. */
  function Items(files: seq<string>): string {
    Concat(ItemList(files))
  }

  /** What `generateTOSP(currentFilePath)` returns when `readdir` of its directory gives `readdir`. */
  function Tosp(currentFilePath: Option<string>, readdir: Option<seq<string>>): string {
    if currentFilePath.None? || currentFilePath.value == "" then NotAvailable
    else if readdir.None? then ReadError
    else
      var pages := Listing(readdir.value, Basename(currentFilePath.value));
      if pages == [] then NoSubpages else Header + Items(pages) + Footer
  }

  /** `generateTOSP`, with the `forEach` that appends one item per page. */
  method GenerateTosp(currentFilePath: Option<string>, readdir: Option<seq<string>>) returns (tosp: string)
    ensures tosp == Tosp(currentFilePath, readdir)
  {
    if currentFilePath.None? || currentFilePath.value == "" {
      return NotAvailable;
    }
    if readdir.None? {
      return ReadError;
    }
    var currentFile := Basename(currentFilePath.value);
    var mdFiles := Subpages(readdir.value, currentFile);
    if |mdFiles| == 0 {
      return NoSubpages;
    }
    mdFiles := SortBy(mdFiles, SortKey);
    tosp := AppendItems(Header, mdFiles);
    tosp := tosp + Footer;
  }

  /** The `forEach` over the sorted pages: one item appended per page, in order. */
  method AppendItems(tosp0: string, pages: seq<string>) returns (tosp: string)
    ensures tosp == tosp0 + Items(pages)
  {
    tosp := tosp0;
    ghost var items := ItemList(pages);
    for i := 0 to |pages|
      invariant tosp == tosp0 + Concat(items[..i])
    {
      ConcatSnoc(items, i);
      Assoc(tosp0, Concat(items[..i]), items[i]);
      tosp := tosp + Item(pages[i]);
    }
    assert items[..|pages|] == items;
  }

  /** Without a current file there is nothing to list, whatever the directory holds. */
  lemma NoPathNotAvailable(readdir: Option<seq<string>>)
    ensures Tosp(None, readdir) == NotAvailable
    ensures Tosp(Some(""), readdir) == NotAvailable
  {
  }

  /**
   * For a current file and a readable directory, the "no subpages" message
   * appears exactly when no name in the directory is kept.
   */
  lemma NoSubpagesIff(path: string, files: seq<string>)
    requires path != ""
    ensures Tosp(Some(path), Some(files)) == NoSubpages <==>
      forall f :: f in files ==> !Keep(f, Basename(path))
  {
    var pages := Listing(files, Basename(path));
    ListingIsSortedKept(files, Basename(path));
    if pages != [] {
      TableIsNotMessage(Items(pages));
      assert pages[0] in pages;
    } else {
      forall f | f in files ensures !Keep(f, Basename(path)) {
        assert f !in pages;
      }
    }
  }

  /** A table of pages is never the "no subpages" message. */
  lemma TableIsNotMessage(items: string)
    ensures Header + items + Footer != NoSubpages
  {
    assert (Header + items + Footer)[1] == Header[1];
  }

  /**
   * The item of the k-th page starts where the items of the pages before it
   * end, and ends before the item of any later page; so each page gets its
   * item, in the order of `files`.
   */
  lemma ItemAt(files: seq<string>, k: nat)
    requires k < |files|
    ensures StartsAt(Items(files), Item(files[k]), |Concat(ItemList(files)[..k])|)
    ensures forall j :: k < j <= |files| ==>
      |Concat(ItemList(files)[..k])| + |Item(files[k])| <= |Concat(ItemList(files)[..j])|
  {
    var items := ItemList(files);
    ConcatAt(items, k);
    forall j | k < j <= |files|
      ensures |Concat(items[..k])| + |Item(files[k])| <= |Concat(items[..j])|
    {
      ConcatPrefix(items, k + 1, j);
      ConcatSnoc(items, k);
    }
  }

  /**
   * Every kept page of the directory appears in the table as a link to the
   * file labelled with its display name.
   */
  lemma EveryKeptPageListed(path: string, files: seq<string>, f: string)
    requires path != "" && f in files && Keep(f, Basename(path))
    ensures Contains(Tosp(Some(path), Some(files)), Item(f))
  {
    var pages := Listing(files, Basename(path));
    ListingIsSortedKept(files, Basename(path));
    assert Tosp(Some(path), Some(files)) == Header + Items(pages) + Footer;
    var k :| 0 <= k < |pages| && pages[k] == f;
    TableListsPage(pages, k);
  }

  /** The table of `pages` holds the item of each of them. */
  lemma TableListsPage(pages: seq<string>, k: nat)
    requires k < |pages|
    ensures Contains(Header + Items(pages) + Footer, Item(pages[k]))
  {
    ItemAt(pages, k);
    var at := |Concat(ItemList(pages)[..k])|;
    StartsAtInside(Header, Items(pages), Footer, Item(pages[k]), at);
    assert StartsAt(Header + Items(pages) + Footer, Item(pages[k]), |Header| + at);
  }

  /** An occurrence inside the middle part is an occurrence in the whole text, shifted. */
  lemma StartsAtInside(a: string, b: string, c: string, p: string, k: nat)
    requires StartsAt(b, p, k)
    ensures StartsAt(a + b + c, p, |a| + k)
  {
    assert (a + b + c)[|a| + k..|a| + k + |p|] == b[k..k + |p|];
  }
}
