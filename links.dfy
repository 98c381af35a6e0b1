/**
 * What the renderer does with links and images: the `link_open` override
 * that classifies every href, the image override that turns a relative
 * source into a `file:///` URL, the extension fallback that decides whether a
 * link target exists, the broken-link pass, and the click dispatcher.
 * Existence of files is a parameter: the set of paths `fs.access` accepts.
 */
module Links {
  import opened Wrappers
  import opened Text
  import opened Paths
  import opened FileSystem

  // ---------------------------------------------------------------------------
  // Link tokens

  /** One attribute of a markdown-it token: a name and a value. */
  datatype Attr = Attr(name: string, value: string)

  /** `token.attrIndex(name)`: the first attribute called `name`, or -1. */
  function AttrIndex(attrs: seq<Attr>, name: string): (r: int)
    ensures -1 <= r < |attrs|
    ensures r >= 0 ==> attrs[r].name == name && forall j :: 0 <= j < r ==> attrs[j].name != name
    ensures r == -1 ==> forall j :: 0 <= j < |attrs| ==> attrs[j].name != name
  {
    AttrIndexFrom(attrs, name, 0)
  }

  function AttrIndexFrom(attrs: seq<Attr>, name: string, from: nat): (r: int)
    requires from <= |attrs|
    ensures -1 <= r < |attrs|
    ensures r >= 0 ==> from <= r && attrs[r].name == name && forall j :: from <= j < r ==> attrs[j].name != name
    ensures r == -1 ==> forall j :: from <= j < |attrs| ==> attrs[j].name != name
    decreases |attrs| - from
  {
    if from == |attrs| then -1
    else if attrs[from].name == name then from
    else AttrIndexFrom(attrs, name, from + 1)
  }

  /** The values of the attributes called `name`, in order. */
  function Values(attrs: seq<Attr>, name: string): seq<string> {
    if attrs == [] then []
    else (if attrs[0].name == name then [attrs[0].value] else []) + Values(attrs[1..], name)
  }

  /** The three kinds of link the override tells apart. */
  datatype LinkKind = External | Anchor | Internal

  /** The test order of `link_open`: `http://` or `https://` first, then a leading `#`. */
  function KindOf(href: string): LinkKind {
    if StartsWith(href, "http://") || StartsWith(href, "https://") then External
    else if StartsWith(href, "#") then Anchor
    else Internal
  }

  /**
   * The two prefixes exclude each other, so a link is an anchor exactly when it
   * starts with `#`, and internal exactly when it has none of the three prefixes;
   * the empty href is internal.
   */
  lemma KindIff(href: string)
    ensures KindOf(href) == External <==> StartsWith(href, "http://") || StartsWith(href, "https://")
    ensures KindOf(href) == Anchor <==> StartsWith(href, "#")
    ensures KindOf(href) == Internal <==>
      !StartsWith(href, "http://") && !StartsWith(href, "https://") && !StartsWith(href, "#")
    ensures KindOf("") == Internal
  {
    if StartsWith(href, "#") {
      assert href[0] == '#';
      assert !StartsWith(href, "http://") by { assert "http://"[0] == 'h'; }
      assert !StartsWith(href, "https://") by { assert "https://"[0] == 'h'; }
    }
  }

  function ClassName(k: LinkKind): string {
    match k
    case External => "external-link"
    case Anchor => "anchor-link"
    case Internal => "internal-link"
  }

  /** Each kind has its own class name. */
  lemma ClassNamesDistinct()
    ensures forall k1: LinkKind, k2: LinkKind :: ClassName(k1) == ClassName(k2) ==> k1 == k2
  {
    assert "internal-link"[0] != "external-link"[0];
    assert "internal-link"[0] != "anchor-link"[0];
    assert "external-link"[0] != "anchor-link"[0];
  }

  /** The attributes `link_open` pushes for a link of kind `k` to `href`. */
  function Pushed(k: LinkKind, href: string): seq<Attr> {
    match k
    case External => [Attr("target", "_blank"), Attr("rel", "noopener noreferrer"), Attr("class", ClassName(k))]
    case Anchor => [Attr("class", ClassName(k))]
    case Internal => [Attr("class", ClassName(k)), Attr("data-href", href)]
  }

  /** The attributes of a link token after `link_open`. */
  function Opened(attrs: seq<Attr>): seq<Attr> {
    var i := AttrIndex(attrs, "href");
    if i < 0 then attrs
    else
      var href := attrs[i].value;
      var k := KindOf(href);
      (if k == Internal then attrs[i := Attr("href", "javascript:void(0)")] else attrs) + Pushed(k, href)
  }

  /** A link token whose attribute list the override changes in place. */
  class LinkToken {
    var attrs: seq<Attr>

    constructor(attrs: seq<Attr>)
      ensures this.attrs == attrs
    {
      this.attrs := attrs;
    }

    /** `md.renderer.rules.link_open`, up to the call of the default renderer. */
    method LinkOpen()
      modifies this
      ensures attrs == Opened(old(attrs))
    {
      var hrefIndex := AttrIndex(attrs, "href");
      if hrefIndex >= 0 {
        var href := attrs[hrefIndex].value;
        if StartsWith(href, "http://") || StartsWith(href, "https://") {
          attrs := attrs + [Attr("target", "_blank")];
          attrs := attrs + [Attr("rel", "noopener noreferrer")];
          attrs := attrs + [Attr("class", "external-link")];
        } else if StartsWith(href, "#") {
          attrs := attrs + [Attr("class", "anchor-link")];
        } else {
          attrs := attrs + [Attr("class", "internal-link")];
          attrs := attrs + [Attr("data-href", href)];
          attrs := attrs[hrefIndex := Attr("href", "javascript:void(0)")];
        }
      }
    }
  }

  /** A token without an href keeps its attributes. */
  lemma OpenedWithoutHref(attrs: seq<Attr>)
    requires forall j :: 0 <= j < |attrs| ==> attrs[j].name != "href"
    ensures Opened(attrs) == attrs
  {
  }

  /**
   * After `link_open` a link keeps its earlier attributes except that an
   * internal one's href becomes `javascript:void(0)`; exactly one class is
   * added, the one of its kind, and only an internal link gets a `data-href`,
   * holding the original href.
   */
  lemma OpenedLink(attrs: seq<Attr>)
    requires AttrIndex(attrs, "href") >= 0
    ensures var i, href := AttrIndex(attrs, "href"), attrs[AttrIndex(attrs, "href")].value;
      var r := Opened(attrs);
      |attrs| < |r| &&
      (forall j :: 0 <= j < |attrs| && j != i ==> r[j] == attrs[j]) &&
      r[i] == Attr("href", if KindOf(href) == Internal then "javascript:void(0)" else href) &&
      Values(r[|attrs|..], "class") == [ClassName(KindOf(href))] &&
      Values(r[|attrs|..], "data-href") == (if KindOf(href) == Internal then [href] else [])
  {
    var i := AttrIndex(attrs, "href");
    var href := attrs[i].value;
    var r := Opened(attrs);
    assert r[|attrs|..] == Pushed(KindOf(href), href);
    PushedValues(KindOf(href), href);
  }

  lemma PushedValues(k: LinkKind, href: string)
    ensures Values(Pushed(k, href), "class") == [ClassName(k)]
    ensures Values(Pushed(k, href), "data-href") == (if k == Internal then [href] else [])
  {
    assert "data-href" != "class" by { assert "data-href"[0] == 'd'; }
    var p := Pushed(k, href);
    match k
    case External =>
      assert "target" != "class" && "target" != "data-href" by { assert "target"[0] == 't'; }
      assert "rel" != "class" && "rel" != "data-href" by { assert "rel"[0] == 'r'; }
      assert p[1..][1..][1..] == [];
      assert Values(p[1..][1..], "class") == [ClassName(k)];
      assert Values(p[1..][1..], "data-href") == [];
    case Anchor =>
      assert p[1..] == [];
    case Internal =>
      assert p[1..][1..] == [];
      assert Values(p[1..], "class") == [];
      assert Values(p[1..], "data-href") == [href];
  }

  // ---------------------------------------------------------------------------
  // Images

  /**
   * `resolveImagePath(src, currentFilePath)`: web and `data:` sources are
   * kept, and so is every source when there is no current file; otherwise the
   * source resolved against the document's directory, with each backslash
   * turned into `/`, behind `file:///`.
   */
  function ResolveImage(src: string, currentFilePath: Option<string>): string {
    if StartsWith(src, "http://") || StartsWith(src, "https://") then src
    else if StartsWith(src, "data:") then src
    else if currentFilePath.Some? && currentFilePath.value != "" then
      "file:///" + ReplaceChar(ResolvePath(currentFilePath.value, src), '\\', '/')
    else src
  }

  /** Web and `data:` sources, and every source of a document without a path, are left alone. */
  lemma ImageKept(src: string, currentFilePath: Option<string>)
    requires StartsWith(src, "http://") || StartsWith(src, "https://") || StartsWith(src, "data:") ||
      currentFilePath.None? || currentFilePath.value == ""
    ensures ResolveImage(src, currentFilePath) == src
  {
  }

  /**
   * A resolved image is a `file:` URL with four slashes (the resolved path is
   * already absolute), and holds no backslash.
   */
  lemma ImageResolved(src: string, current: string)
    requires !StartsWith(src, "http://") && !StartsWith(src, "https://") && !StartsWith(src, "data:")
    requires current != ""
    ensures StartsWith(ResolveImage(src, Some(current)), "file:////")
    ensures '\\' !in ResolveImage(src, Some(current))
  {
    var p := ResolvePath(current, src);
    ResolvedIsNormal(current, src);
    FileUrl(p);
  }

  /** An absolute path with its backslashes replaced, behind `file:///`, is a four-slash URL with no backslash. */
  lemma FileUrl(p: string)
    requires IsAbsolute(p)
    ensures StartsWith("file:///" + ReplaceChar(p, '\\', '/'), "file:////")
    ensures '\\' !in "file:///" + ReplaceChar(p, '\\', '/')
  {
    var q := ReplaceChar(p, '\\', '/');
    var r := "file:///" + q;
    assert q[0] == '/';
    assert r[..9] == "file:///" + [q[0]];
    forall k | 0 <= k < |r| ensures r[k] != '\\' {
      if k >= 8 {
        assert r[k] == q[k - 8];
      }
    }
  }

  /** Two documents in the same directory see the same image. */
  lemma ImageSameDirectory(src: string, c1: string, c2: string)
    requires c1 != "" && c2 != "" && DirSegments(c1) == DirSegments(c2)
    ensures ResolveImage(src, Some(c1)) == ResolveImage(src, Some(c2))
  {
  }

  /** An absolute image path does not depend on the document. */
  lemma ImageAbsolute(src: string, c1: string, c2: string)
    requires IsAbsolute(src) && c1 != "" && c2 != ""
    ensures ResolveImage(src, Some(c1)) == ResolveImage(src, Some(c2))
  {
    assert !StartsWith(src, "http://") by { assert "http://"[0] == 'h'; }
    assert !StartsWith(src, "https://") by { assert "https://"[0] == 'h'; }
    assert !StartsWith(src, "data:") by { assert "data:"[0] == 'd'; }
    AbsoluteIgnoresBase(c1, c2, src);
  }

  // ---------------------------------------------------------------------------
  // Extension fallback

  /**
   * The file a resolved link target stands for: the path itself when it
   * exists, else, when it has no `.md`/`.markdown` ending, the path with
   * `.md` added when that exists.
   */
  function Target(existing: set<string>, p: string): Option<string> {
    if p in existing then Some(p)
    else if !EndsWith(p, ".md") && !EndsWith(p, ".markdown") && p + ".md" in existing then Some(p + ".md")
    else None
  }

  /** A target is found exactly when the fallback rule says so, and what is found exists. */
  lemma TargetIff(existing: set<string>, p: string)
    ensures Target(existing, p).Some? <==>
      p in existing || (!EndsWith(p, ".md") && !EndsWith(p, ".markdown") && p + ".md" in existing)
    ensures Target(existing, p).Some? ==> Target(existing, p).value in existing
    ensures Target(existing, p).Some? ==> Target(existing, p).value in {p, p + ".md"}
    ensures p in existing ==> Target(existing, p) == Some(p)
  {
  }

  /** The part of an href before its first `#`. */
  function FilePart(href: string): string {
    Split(href, '#')[0]
  }

  /** An href with a `#` splits into at least two pieces. */
  lemma SplitAtHash(href: string)
    requires '#' in href
    ensures |Split(href, '#')| >= 2
  {
  }

  /** The piece after the first `#` (and before a second one). */
  function AnchorPart(href: string): string
    requires '#' in href
  {
    SplitAtHash(href);
    Split(href, '#')[1]
  }

  // ---------------------------------------------------------------------------
  // Broken links

  /**
   * The broken-link test of `checkBrokenLinks`: not an in-page link, a
   * non-empty part before the `#`, and no target for that part.
   */
  predicate IsBroken(href: string, current: string, existing: set<string>) {
    !StartsWith(href, "#") && FilePart(href) != "" &&
    Target(existing, ResolvePath(current, FilePart(href))).None?
  }

  /** `classList.add(c)`. */
  function AddClass(classes: seq<string>, c: string): (r: seq<string>)
    ensures c in r && forall x :: x in r <==> x in classes || x == c
  {
    if c in classes then classes else classes + [c]
  }

  /** What the broken-link pass reads and writes of an `a.internal-link` element. */
  datatype LinkState = LinkState(dataHref: string, classes: seq<string>, title: string)

  /**
   * A link after the pass: a broken one has the class `broken-link` added and
   * the title `File not found: ` followed by its href; any other is unchanged.
   */
  function Checked(l: LinkState, current: string, existing: set<string>): LinkState {
    if IsBroken(l.dataHref, current, existing) then
      LinkState(l.dataHref, AddClass(l.classes, "broken-link"), "File not found: " + l.dataHref)
    else l
  }

  /** The rendered page, as far as the broken-link pass sees it: its internal links in document order. */
  class Viewer {
    var internalLinks: seq<LinkState>

    constructor(internalLinks: seq<LinkState>)
      ensures this.internalLinks == internalLinks
    {
      this.internalLinks := internalLinks;
    }

    /**
     * `checkBrokenLinks`: every internal link is left as the pass leaves it,
     * in place, and the page keeps the same links in the same order.
     */
    method CheckBrokenLinks(current: string, existing: set<string>)
      modifies this
      ensures |internalLinks| == |old(internalLinks)|
      ensures forall i :: 0 <= i < |internalLinks| ==>
        internalLinks[i] == Checked(old(internalLinks[i]), current, existing)
    {
      for i := 0 to |internalLinks|
        invariant |internalLinks| == |old(internalLinks)|
        invariant forall j :: 0 <= j < i ==> internalLinks[j] == Checked(old(internalLinks[j]), current, existing)
        invariant forall j :: i <= j < |internalLinks| ==> internalLinks[j] == old(internalLinks[j])
      {
        var link := CheckLink(internalLinks[i], current, existing);
        internalLinks := internalLinks[i := link];
      }
    }
  }

  /** One pass of the loop of `checkBrokenLinks`: the test of one link and its marking. */
  method CheckLink(link: LinkState, current: string, existing: set<string>) returns (r: LinkState)
    ensures r == Checked(link, current, existing)
  {
    r := link;
    var href := link.dataHref;
    if StartsWith(href, "#") {
      return;
    }
    var filePart := Split(href, '#')[0];
    if filePart == "" {
      return;
    }
    var resolvedPath := ResolvePath(current, filePart);
    var found := resolvedPath in existing;
    if !found && !EndsWith(resolvedPath, ".md") && !EndsWith(resolvedPath, ".markdown") {
      found := resolvedPath + ".md" in existing;
    }
    TargetIff(existing, resolvedPath);
    if !found {
      r := r.(classes := AddClass(r.classes, "broken-link"));
      r := r.(title := "File not found: " + href);
    }
  }

  /**
   * The pass marks a link exactly when it is broken, never drops a class,
   * and never changes a link's href.
   */
  lemma CheckedMarks(l: LinkState, current: string, existing: set<string>)
    ensures var r := Checked(l, current, existing);
      r.dataHref == l.dataHref &&
      (forall c :: c in l.classes ==> c in r.classes) &&
      ("broken-link" in r.classes && r.title == "File not found: " + l.dataHref
        <== IsBroken(l.dataHref, current, existing)) &&
      (!IsBroken(l.dataHref, current, existing) ==> r == l)
  {
  }

  // ---------------------------------------------------------------------------
  // Clicks

  /** What a click on a link leads to. */
  datatype Action = Scroll(id: string) | Load(path: string) | NotFound(href: string) | OpenExternal(url: string) | Ignore

  /** The clicked anchor as the handler reads it: its classes and its `href` and `data-href` attributes. */
  datatype Element = Element(classes: set<string>, href: Option<string>, dataHref: Option<string>)

  /** `getAttribute(name)`: the value of the first attribute called `name`. */
  function GetAttr(attrs: seq<Attr>, name: string): Option<string> {
    var i := AttrIndex(attrs, name);
    if i < 0 then None else Some(attrs[i].value)
  }

  /**
   * The element a rendered link token becomes. Of repeated attributes the HTML
   * parser keeps the first, so the class is the first `class` value, read as
   * one class name.
   */
  function ElementOf(attrs: seq<Attr>): Element {
    Element(match GetAttr(attrs, "class") case Some(c) => {c} case None => {},
            GetAttr(attrs, "href"), GetAttr(attrs, "data-href"))
  }

  /**
   * A click on an internal link: a `#` link into the current page (nothing or
   * the current file's name before the `#`) scrolls; any other is resolved
   * whole, fragment included, and loads its target or reports it missing.
   */
  function InternalClick(href: string, current: string, existing: set<string>): Action {
    if href != "" && '#' in href && (FilePart(href) == "" || FilePart(href) == Basename(current)) then
      Scroll(AnchorPart(href))
    else
      match Target(existing, ResolvePath(current, href))
      case Some(p) => Load(p)
      case None => NotFound(href)
  }

  /**
   * The capture-phase click handler of `processInternalLinks`. A missing
   * attribute makes the handler's call on it fail, so nothing happens.
   */
  function Dispatch(e: Element, current: string, existing: set<string>): Action {
    if "internal-link" in e.classes then
      (match e.dataHref
       case None => Ignore
       case Some(h) => InternalClick(h, current, existing))
    else if "external-link" in e.classes then
      (match e.href
       case None => Ignore
       case Some(h) => OpenExternal(h))
    else if "anchor-link" in e.classes then
      (match e.href
       case None => Ignore
       case Some(h) => Scroll(if h == "" then "" else h[1..]))
    else Ignore
  }

  /** A click loads only a file that exists. */
  lemma LoadsOnlyExisting(e: Element, current: string, existing: set<string>, p: string)
    requires Dispatch(e, current, existing) == Load(p)
    ensures p in existing
  {
    var h := e.dataHref.value;
    TargetIff(existing, ResolvePath(current, h));
  }

  /**
   * For an href without `#`, the click reports a missing file exactly when the
   * broken-link pass marks the link (the empty href aside, which the pass skips).
   */
  lemma ClickAgreesWithCheck(href: string, current: string, existing: set<string>)
    requires '#' !in href && href != ""
    ensures InternalClick(href, current, existing).NotFound? <==> IsBroken(href, current, existing)
  {
    assert Split(href, '#') == [href];
    assert FilePart(href) == href;
    assert !StartsWith(href, "#") by { assert href[0] in href; }
    var t := Target(existing, ResolvePath(current, href));
    assert InternalClick(href, current, existing) == if t.Some? then Load(t.value) else NotFound(href);
  }

  /**
   * A rendered link does what its kind says when clicked: an external link
   * opens its href, an anchor link scrolls to the href without its `#`, and an
   * internal link follows its original href. Link tokens from markdown carry no
   * class or `data-href` of their own.
   */
  lemma ClickOnRenderedLink(attrs: seq<Attr>, current: string, existing: set<string>)
    requires AttrIndex(attrs, "href") >= 0
    requires forall j :: 0 <= j < |attrs| ==> attrs[j].name != "class" && attrs[j].name != "data-href"
    ensures var href := attrs[AttrIndex(attrs, "href")].value;
      Dispatch(ElementOf(Opened(attrs)), current, existing) ==
        match KindOf(href)
        case External => OpenExternal(href)
        case Anchor => Scroll(href[1..])
        case Internal => InternalClick(href, current, existing)
  {
    var href := attrs[AttrIndex(attrs, "href")].value;
    OpenedElement(attrs);
    ClassNamesDistinct();
    if KindOf(href) == Anchor {
      assert href[0] == '#';
    }
  }

  /**
   * The element a link token becomes after `link_open`: the class of its kind,
   * its href (replaced for an internal link), and the original href as
   * `data-href` for an internal link only.
   */
  lemma OpenedElement(attrs: seq<Attr>)
    requires AttrIndex(attrs, "href") >= 0
    requires forall j :: 0 <= j < |attrs| ==> attrs[j].name != "class" && attrs[j].name != "data-href"
    ensures var href := attrs[AttrIndex(attrs, "href")].value;
      var k := KindOf(href);
      ElementOf(Opened(attrs)) ==
        Element({ClassName(k)}, Some(if k == Internal then "javascript:void(0)" else href),
                if k == Internal then Some(href) else None)
  {
    var i := AttrIndex(attrs, "href");
    var href := attrs[i].value;
    var k := KindOf(href);
    var base := if k == Internal then attrs[i := Attr("href", "javascript:void(0)")] else attrs;
    var pushed := Pushed(k, href);
    var r := base + pushed;
    assert Opened(attrs) == r;
    assert AttrIndex(base, "href") == i;
    AttrIndexAppend(base, pushed, "href");
    assert AttrIndex(pushed, "href") == -1 by { PushedNames(k, href); }
    AttrIndexAppend(base, pushed, "data-href");
    assert AttrIndex(base, "data-href") == -1;
    PushedNames(k, href);
    ClassesOfOpened(base, pushed, k, href);
  }

  /** The names `link_open` pushes: never `href`, `data-href` last for an internal link. */
  lemma PushedNames(k: LinkKind, href: string)
    ensures AttrIndex(Pushed(k, href), "href") == -1
    ensures AttrIndex(Pushed(k, href), "data-href") == (if k == Internal then 1 else -1)
    ensures forall j :: 0 <= j < |Pushed(k, href)| && Pushed(k, href)[j].name == "class" ==>
      Pushed(k, href)[j].value == ClassName(k)
    ensures exists j :: 0 <= j < |Pushed(k, href)| && Pushed(k, href)[j] == Attr("class", ClassName(k))
  {
    assert "data-href" != "href" && "data-href" != "class" by { assert "data-href"[0] == 'd'; }
    assert "class" != "href" by { assert "class"[0] == 'c'; }
    assert "target" != "href" && "target" != "data-href" by { assert "target"[0] == 't'; }
    assert "rel" != "href" && "rel" != "data-href" by { assert "rel"[0] == 'r'; }
    var p := Pushed(k, href);
    if k == External {
      assert p[2] == Attr("class", ClassName(k));
    } else {
      assert p[0] == Attr("class", ClassName(k));
    }
    if k == Internal {
      assert p[1] == Attr("data-href", href);
    }
  }

  /** With no class before the pushed attributes, the classes are the pushed ones. */
  lemma ClassesOfOpened(base: seq<Attr>, pushed: seq<Attr>, k: LinkKind, href: string)
    requires forall j :: 0 <= j < |base| ==> base[j].name != "class"
    requires pushed == Pushed(k, href)
    requires forall j :: 0 <= j < |pushed| && pushed[j].name == "class" ==> pushed[j].value == ClassName(k)
    requires exists j :: 0 <= j < |pushed| && pushed[j] == Attr("class", ClassName(k))
    ensures ElementOf(base + pushed).classes == {ClassName(k)}
  {
    var j :| 0 <= j < |pushed| && pushed[j] == Attr("class", ClassName(k));
    assert pushed[j].name == "class";
    AttrIndexAppend(base, pushed, "class");
  }

  /** The first attribute of a name in a concatenation. */
  lemma AttrIndexAppend(a: seq<Attr>, b: seq<Attr>, n: string)
    ensures AttrIndex(a + b, n) ==
      if AttrIndex(a, n) >= 0 then AttrIndex(a, n)
      else if AttrIndex(b, n) >= 0 then |a| + AttrIndex(b, n)
      else -1
  {
    var r, ia, ib := AttrIndex(a + b, n), AttrIndex(a, n), AttrIndex(b, n);
    if ia >= 0 {
      assert (a + b)[ia] == a[ia];
    } else if ib >= 0 {
      assert (a + b)[|a| + ib] == b[ib];
      if r >= 0 && r >= |a| { assert (a + b)[r] == b[r - |a|]; }
    }
  }

  /** The directory part `path.resolve` puts before a plain name resolved against `base`. */
  function DirPrefix(base: string): string {
    var d := Normalize(DirSegments(base));
    if d == [] then "/" else "/" + Join(d, "/") + "/"
  }

  /** A plain name resolves to the directory prefix of the document followed by the name. */
  lemma ResolveName(base: string, name: string)
    requires IsName(name)
    ensures ResolvePath(base, name) == DirPrefix(base) + name
  {
    SegmentsOfName(name);
    NormalizeSnoc(DirSegments(base), name);
    PathOfSnoc(Normalize(DirSegments(base)), name);
  }

  lemma SegmentsOfName(name: string)
    requires IsName(name)
    ensures Segments(name) == [name]
  {
    assert Split(name, '/') == [name];
    NonEmptyKeeps([name]);
  }

  lemma NormalizeSnoc(d: seq<string>, name: string)
    requires forall i :: 0 <= i < |d| ==> '/' !in d[i]
    requires IsName(name)
    ensures Normalize(d + [name]) == Normalize(d) + [name]
  {
    var segs := d + [name];
    assert segs[..|segs| - 1] == d;
  }

  lemma PathOfSnoc(d: seq<string>, name: string)
    ensures PathOf(d + [name]) == (if d == [] then "/" else "/" + Join(d, "/") + "/") + name
  {
    if d != [] {
      JoinSnoc(d, name, "/");
    } else {
      assert d + [name] == [name];
    }
  }

  lemma {:induction false} JoinSnoc(parts: seq<string>, last: string, sep: string)
    requires parts != []
    ensures Join(parts + [last], sep) == Join(parts, sep) + sep + last
    decreases |parts|
  {
    if |parts| > 1 {
      assert (parts + [last])[1..] == parts[1..] + [last];
      JoinSnoc(parts[1..], last, sep);
    }
  }

  /**
   * A link to a section of another page is not reported broken, since the
   * check drops the fragment, but clicking it reports the file missing,
   * since the click resolves the fragment with the path: with only
   * `/wiki/guide.md` present, `guide.md#setup` in `/wiki/home.md` is one.
   */
  lemma OtherPageSectionNotFound(current: string, file: string, frag: string)
    requires IsName(file) && '#' !in file && '#' !in frag && '/' !in frag
    requires file != Basename(current)
    ensures var existing, href := {ResolvePath(current, file)}, file + "#" + frag;
      !IsBroken(href, current, existing) && InternalClick(href, current, existing) == NotFound(href)
  {
    FragmentNotBroken(current, file, frag);
    FragmentClickNotFound(current, file, frag);
  }

  /** The pass checks only the file part of `file#frag`, and that file exists. */
  lemma FragmentNotBroken(current: string, file: string, frag: string)
    requires IsName(file) && '#' !in file && '#' !in frag
    ensures !IsBroken(file + "#" + frag, current, {ResolvePath(current, file)})
  {
    var href := file + "#" + frag;
    SplitName(file, frag);
    assert href[0] == file[0];
    TargetIff({ResolvePath(current, file)}, ResolvePath(current, file));
  }

  /** The click resolves the whole `file#frag`, which names no existing file. */
  lemma FragmentClickNotFound(current: string, file: string, frag: string)
    requires IsName(file) && '#' !in file && '#' !in frag && '/' !in frag
    requires file != Basename(current)
    ensures var href := file + "#" + frag;
      InternalClick(href, current, {ResolvePath(current, file)}) == NotFound(href)
  {
    var href := file + "#" + frag;
    var pf, ph := ResolvePath(current, file), ResolvePath(current, href);
    SplitName(file, frag);
    assert FilePart(href) == file;
    assert href[|file|] == '#';
    assert '/' !in href;
    ResolveName(current, file);
    ResolveName(current, href);
    assert |ph| > |pf| && |ph + ".md"| > |pf|;
    assert Target({pf}, ph) == None;
    assert InternalClick(href, current, {pf}) == match Target({pf}, ph) case Some(q) => Load(q) case None => NotFound(href);
  }

  /** `file#frag` splits at the `#` into its two parts. */
  lemma SplitName(file: string, frag: string)
    requires '#' !in file && '#' !in frag
    ensures Split(file + "#" + frag, '#') == [file, frag]
  {
    SplitCons(file, frag, '#');
    assert file + "#" + frag == file + ['#'] + frag;
  }
}
