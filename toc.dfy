/**
 * The table of contents the renderer puts in place of `[[_TOC_]]`
 * (`generateTOC`), and the rule that turns heading text into heading ids.
 *
 * `GenerateToc` follows the source's loops and is proved to build `Toc`, the
 * text defined heading by heading. The same text is then read as a list of
 * pieces (the opening of the `nav`, `<ul>`, `</ul>`, one entry per heading,
 * the closing of the `nav`), and nesting and order are stated about the pieces.
 */
module Toc {
  import opened Text

  /** The level of an `h1` … `h6` element. */
  type Level = l: nat | 1 <= l <= 6 witness 1

  /** A heading element: its level, its text content and its `id` attribute (`""` when it has none). */
  datatype Heading = Heading(level: Level, text: string, id: string)

  /** The id a heading is linked by: its own, or `heading-<index>` when it has none. */
  function AnchorId(h: Heading, index: nat): string {
    if h.id != "" then h.id else "heading-" + NatToString(index)
  }

  // ---------------------------------------------------------------------------
  // The text of the table

  /** `n` opening `<ul>` tags (none when `n` is not positive). */
  function Opens(n: int): string
    decreases n
  {
    if n <= 0 then "" else Opens(n - 1) + "<ul>\n"
  }

  /** `n` closing `</ul>` tags (none when `n` is not positive). */
  function Closes(n: int): string
    decreases n
  {
    if n <= 0 then "" else Closes(n - 1) + "</ul>\n"
  }

  function EntryText(id: string, text: string): string {
    "<li><a href=\"#" + id + "\">" + text + "</a></li>\n"
  }

  /** The tags that move the list from depth `cur` to depth `level`. */
  function AdjustText(cur: Level, level: Level): string {
    if cur < level then Opens(level - cur) else Closes(cur - level)
  }

  /** What the `forEach` callback appends for heading `h` at position `index` when the depth is `cur`. */
  function StepText(cur: Level, h: Heading, index: nat): string {
    AdjustText(cur, h.level) + EntryText(AnchorId(h, index), h.text)
  }

  /** The list depth before heading `i`: the level of the heading before it, or 1 at the start. */
  function LevelBefore(hs: seq<Heading>, i: nat): Level
    requires i <= |hs|
  {
    if i == 0 then 1 else hs[i - 1].level
  }

  lemma EmptyCat<T>(a: seq<T>)
    ensures [] + a == a
  {
  }

  lemma Regroup<T>(a: seq<T>, b: seq<T>, c: seq<T>, d: seq<T>, bc: seq<T>)
    requires b + c == bc
    ensures a + b + c + d == a + (bc + d)
  {
  }

  /** After the two adjusting loops the text added is `AdjustText(start, level)`, then the entry follows. */
  lemma StepReached(toc0: string, start: Level, mid: int, level: Level, entry: string)
    requires start <= mid && (mid == start || mid <= level) && level <= mid
    requires start < level ==> mid == level
    ensures toc0 + Opens(mid - start) + Closes(mid - level) + entry == toc0 + (AdjustText(start, level) + entry)
  {
    assert Opens(mid - start) + Closes(mid - level) == AdjustText(start, level) by {
      if start < level {
        assert Closes(mid - level) == [];
      } else {
        assert Opens(mid - start) == [];
      }
    }
    Regroup(toc0, Opens(mid - start), Closes(mid - level), entry, AdjustText(start, level));
  }

  /**
   * The `forEach` callback for heading `index`: open or close lists until the
   * depth is the heading's level, then append its entry. The callback's
   * captured `toc` and `currentLevel` are passed in and returned.
   */
  method AddHeading(toc0: string, level0: Level, heading: Heading, index: nat)
    returns (toc: string, currentLevel: int)
    ensures toc == toc0 + StepText(level0, heading, index)
    ensures currentLevel == heading.level
  {
    toc, currentLevel := toc0, level0;
    var level := heading.level;
    var text := heading.text;
    var id := if heading.id != "" then heading.id else "heading-" + NatToString(index);
    while currentLevel < level
      invariant level0 <= currentLevel && (currentLevel == level0 || currentLevel <= level)
      invariant toc == toc0 + Opens(currentLevel - level0)
    {
      Assoc(toc0, Opens(currentLevel - level0), "<ul>\n");
      toc := toc + "<ul>\n";
      currentLevel := currentLevel + 1;
    }
    ghost var mid := currentLevel;
    while currentLevel > level
      invariant level <= currentLevel <= mid
      invariant toc == toc0 + Opens(mid - level0) + Closes(mid - currentLevel)
    {
      Assoc(toc0 + Opens(mid - level0), Closes(mid - currentLevel), "</ul>\n");
      toc := toc + "</ul>\n";
      currentLevel := currentLevel - 1;
    }
    StepReached(toc0, level0, mid, level, EntryText(id, text));
    toc := toc + ("<li><a href=\"#" + id + "\">" + text + "</a></li>\n");
  }

  /**
   * `generateTOC`: one entry per heading, with `<ul>`s opened or closed
   * before it until the list depth reaches its level, and every list closed
   * at the end.
   */
  method GenerateToc(headings: seq<Heading>) returns (toc: string)
    ensures toc == Toc(headings)
  {
    if |headings| == 0 {
      return "";
    }
    toc := "<nav class=\"table-of-contents\">\n<ul>\n";
    StartRenders(headings);
    var currentLevel := 1;
    for index := 0 to |headings|
      invariant toc == Render(headings, PiecesBefore(headings, index))
      invariant currentLevel == LevelBefore(headings, index)
    {
      toc, currentLevel := AddHeading(toc, currentLevel, headings[index], index);
      StepRenders(headings, index);
      RenderCat(headings, PiecesBefore(headings, index), Step(headings, index));
    }
    toc := CloseLists(toc, currentLevel);
    TocText(headings);
    toc := toc + "</ul>\n</nav>";
  }

  /** The loop after the `forEach`: a `</ul>` for every level above the first that is still open. */
  method CloseLists(toc0: string, level0: Level) returns (toc: string)
    ensures toc == toc0 + Closes(level0 - 1)
  {
    toc := toc0;
    var currentLevel := level0;
    while currentLevel > 1
      invariant 1 <= currentLevel <= level0
      invariant toc == toc0 + Closes(level0 - currentLevel)
    {
      Assoc(toc0, Closes(level0 - currentLevel), "</ul>\n");
      toc := toc + "</ul>\n";
      currentLevel := currentLevel - 1;
    }
  }

  // ---------------------------------------------------------------------------
  // The table as a list of pieces

  /**
   * The pieces of text `generateTOC` appends: the opening of the `nav` with the
   * outer `<ul>`, a nested `<ul>` or `</ul>`, the entry of heading `index`, and
   * the closing of the outer list and the `nav`.
   */
  datatype Piece = Start | ListOpen | ListClose | Entry(index: nat) | Finish

  /** A list of pieces, built like the `toc` string by appending at the end. */
  datatype Pieces = Nil | Snoc(init: Pieces, last: Piece)

  /** `a` followed by `b`. */
  function Cat(a: Pieces, b: Pieces): Pieces {
    match b
    case Nil => a
    case Snoc(b', p) => Snoc(Cat(a, b'), p)
  }

  lemma {:induction false} CatAssoc(a: Pieces, b: Pieces, c: Pieces)
    ensures Cat(Cat(a, b), c) == Cat(a, Cat(b, c))
  {
    match c
    case Nil =>
    case Snoc(c', p) => CatAssoc(a, b, c');
  }

  function PieceText(hs: seq<Heading>, p: Piece): string {
    match p
    case Start => "<nav class=\"table-of-contents\">\n<ul>\n"
    case ListOpen => "<ul>\n"
    case ListClose => "</ul>\n"
    case Entry(i) => if i < |hs| then EntryText(AnchorId(hs[i], i), hs[i].text) else ""
    case Finish => "</ul>\n</nav>"
  }

  /** The HTML of a list of pieces for headings `hs`. */
  function Render(hs: seq<Heading>, ps: Pieces): string {
    match ps
    case Nil => ""
    case Snoc(ps', p) => Render(hs, ps') + PieceText(hs, p)
  }

  /** `n` copies of `p`. */
  function Repeat(p: Piece, n: nat): Pieces
    decreases n
  {
    if n == 0 then Nil else Snoc(Repeat(p, n - 1), p)
  }

  /** The `<ul>`s or `</ul>`s that move the list from depth `cur` to depth `level`. */
  function Adjust(cur: Level, level: Level): Pieces {
    if cur < level then Repeat(ListOpen, level - cur) else Repeat(ListClose, cur - level)
  }

  /** The pieces the `forEach` callback appends for heading `i`: the adjusting tags, then its entry. */
  function Step(hs: seq<Heading>, i: nat): Pieces
    requires i < |hs|
  {
    Snoc(Adjust(LevelBefore(hs, i), hs[i].level), Entry(i))
  }

  /** The pieces written before heading `i`: the opening, then the steps of the headings before it. */
  function PiecesBefore(hs: seq<Heading>, i: nat): Pieces
    requires i <= |hs|
    decreases i
  {
    if i == 0 then Snoc(Nil, Start) else Cat(PiecesBefore(hs, i - 1), Step(hs, i - 1))
  }

  /** The steps of headings `i` up to, not including, `j`. */
  function StepsBetween(hs: seq<Heading>, i: nat, j: nat): Pieces
    requires j <= |hs|
    decreases j
  {
    if j <= i then Nil else Cat(StepsBetween(hs, i, j - 1), Step(hs, j - 1))
  }

  /** The closing `</ul>`s of the lists still open after the last heading. */
  function FinalCloses(hs: seq<Heading>): Pieces {
    Repeat(ListClose, LevelBefore(hs, |hs|) - 1)
  }

  /** All pieces of the table for a non-empty list of headings. */
  function TocPieces(hs: seq<Heading>): Pieces {
    Snoc(Cat(PiecesBefore(hs, |hs|), FinalCloses(hs)), Finish)
  }

  /** `generateTOC(html)` for the headings of `html`, in document order: nothing when there are none. */
  function Toc(hs: seq<Heading>): string {
    if hs == [] then "" else Render(hs, TocPieces(hs))
  }

  lemma {:induction false} RenderCat(hs: seq<Heading>, a: Pieces, b: Pieces)
    ensures Render(hs, Cat(a, b)) == Render(hs, a) + Render(hs, b)
  {
    match b
    case Nil =>
    case Snoc(b', p) =>
      RenderCat(hs, a, b');
      Assoc(Render(hs, a), Render(hs, b'), PieceText(hs, p));
  }

  lemma {:induction false} RepeatRenders(hs: seq<Heading>, n: nat)
    ensures Render(hs, Repeat(ListOpen, n)) == Opens(n)
    ensures Render(hs, Repeat(ListClose, n)) == Closes(n)
    decreases n
  {
    if n > 0 {
      RepeatRenders(hs, n - 1);
    }
  }

  /** The text the callback appends for heading `i` is the text of its step. */
  lemma StepRenders(hs: seq<Heading>, i: nat)
    requires i < |hs|
    ensures StepText(LevelBefore(hs, i), hs[i], i) == Render(hs, Step(hs, i))
  {
    AdjustRenders(hs, LevelBefore(hs, i), hs[i].level);
  }

  lemma AdjustRenders(hs: seq<Heading>, cur: Level, level: Level)
    ensures Render(hs, Adjust(cur, level)) == AdjustText(cur, level)
  {
    if cur < level {
      RepeatRenders(hs, level - cur);
    } else {
      RepeatRenders(hs, cur - level);
    }
  }

  /** Before the first heading the table is the opening of the `nav` and the outer list. */
  lemma StartRenders(hs: seq<Heading>)
    ensures Render(hs, PiecesBefore(hs, 0)) == "<nav class=\"table-of-contents\">\n<ul>\n"
  {
    assert Render(hs, PiecesBefore(hs, 0)) == Render(hs, Nil) + PieceText(hs, Start);
    EmptyCat(PieceText(hs, Start));
  }

  /**
   * The table is what was written for the headings, a `</ul>` for every level
   * still open after the last of them, and the closing `</ul></nav>`.
   */
  lemma TocText(hs: seq<Heading>)
    requires hs != []
    ensures Toc(hs) == Render(hs, PiecesBefore(hs, |hs|)) + Closes(LevelBefore(hs, |hs|) - 1) + "</ul>\n</nav>"
  {
    RepeatRenders(hs, LevelBefore(hs, |hs|) - 1);
    RenderCat(hs, PiecesBefore(hs, |hs|), FinalCloses(hs));
  }

  // ---------------------------------------------------------------------------
  // What the table contains

  /** How a piece changes the list depth: `+1` for each `<ul>` it opens, `-1` for each `</ul>`. */
  function Delta(p: Piece): int {
    match p
    case Start => 1
    case ListOpen => 1
    case ListClose => -1
    case Entry(_) => 0
    case Finish => -1
  }

  /** The list depth at the end of `ps`. */
  function Depth(ps: Pieces): int {
    match ps
    case Nil => 0
    case Snoc(ps', p) => Depth(ps') + Delta(p)
  }

  lemma {:induction false} DepthCat(a: Pieces, b: Pieces)
    ensures Depth(Cat(a, b)) == Depth(a) + Depth(b)
  {
    match b
    case Nil =>
    case Snoc(b', p) => DepthCat(a, b');
  }

  lemma {:induction false} DepthRepeat(q: Piece, n: nat)
    ensures Depth(Repeat(q, n)) == n * Delta(q)
    decreases n
  {
    if n > 0 {
      DepthRepeat(q, n - 1);
    }
  }

  /** The step of heading `i` moves the depth from the level before it to its own level. */
  lemma StepDepth(hs: seq<Heading>, i: nat)
    requires i < |hs|
    ensures Depth(Adjust(LevelBefore(hs, i), hs[i].level)) == hs[i].level - LevelBefore(hs, i)
    ensures Depth(Step(hs, i)) == hs[i].level - LevelBefore(hs, i)
  {
    if LevelBefore(hs, i) < hs[i].level {
      DepthRepeat(ListOpen, hs[i].level - LevelBefore(hs, i));
    } else {
      DepthRepeat(ListClose, LevelBefore(hs, i) - hs[i].level);
    }
  }

  /** Before heading `i` the list is as deep as the heading before it is high. */
  lemma {:induction false} PiecesDepth(hs: seq<Heading>, i: nat)
    requires i <= |hs|
    ensures Depth(PiecesBefore(hs, i)) == LevelBefore(hs, i)
    decreases i
  {
    if i > 0 {
      PiecesDepth(hs, i - 1);
      StepDepth(hs, i - 1);
      DepthCat(PiecesBefore(hs, i - 1), Step(hs, i - 1));
    }
  }

  /** Every `<ul>` of the table is closed: the list depth at its end is zero. */
  lemma TocBalanced(hs: seq<Heading>)
    ensures Depth(TocPieces(hs)) == 0
  {
    PiecesDepth(hs, |hs|);
    DepthRepeat(ListClose, LevelBefore(hs, |hs|) - 1);
    DepthCat(PiecesBefore(hs, |hs|), FinalCloses(hs));
  }

  /** The pieces before heading `j` are those before heading `i`, then the steps in between. */
  lemma {:induction false} PiecesSplit(hs: seq<Heading>, i: nat, j: nat)
    requires i <= j <= |hs|
    ensures PiecesBefore(hs, j) == Cat(PiecesBefore(hs, i), StepsBetween(hs, i, j))
    decreases j
  {
    if i < j {
      PiecesSplit(hs, i, j - 1);
      CatAssoc(PiecesBefore(hs, i), StepsBetween(hs, i, j - 1), Step(hs, j - 1));
    }
  }

  /** What follows the entry of heading `i` in the table. */
  function After(hs: seq<Heading>, i: nat): Pieces
    requires i < |hs|
  {
    Snoc(Cat(StepsBetween(hs, i + 1, |hs|), FinalCloses(hs)), Finish)
  }

  /**
   * The entry for heading `i` comes right after the pieces of the headings
   * before it and the `<ul>`/`</ul>` run that brings the list to depth
   * `hs[i].level`; it links the heading's text to its anchor id.
   */
  lemma EntryAtItsLevel(hs: seq<Heading>, i: nat)
    requires i < |hs|
    ensures var pre := Cat(PiecesBefore(hs, i), Adjust(LevelBefore(hs, i), hs[i].level));
      Depth(pre) == hs[i].level &&
      TocPieces(hs) == Cat(Snoc(pre, Entry(i)), After(hs, i)) &&
      PieceText(hs, Entry(i)) == "<li><a href=\"#" + AnchorId(hs[i], i) + "\">" + hs[i].text + "</a></li>\n"
  {
    var adj := Adjust(LevelBefore(hs, i), hs[i].level);
    var pre := Cat(PiecesBefore(hs, i), adj);
    PiecesDepth(hs, i);
    StepDepth(hs, i);
    DepthCat(PiecesBefore(hs, i), adj);
    PiecesSplit(hs, i + 1, |hs|);
    CatAssoc(Snoc(pre, Entry(i)), StepsBetween(hs, i + 1, |hs|), FinalCloses(hs));
  }

  /** The headings whose entries appear in a list of pieces, in order. */
  function Entries(ps: Pieces): seq<nat> {
    match ps
    case Nil => []
    case Snoc(ps', p) => Entries(ps') + (if p.Entry? then [p.index] else [])
  }

  lemma {:induction false} EntriesCat(a: Pieces, b: Pieces)
    ensures Entries(Cat(a, b)) == Entries(a) + Entries(b)
  {
    match b
    case Nil =>
      assert Entries(a) + [] == Entries(a);
    case Snoc(b', p) =>
      EntriesCat(a, b');
      Assoc(Entries(a), Entries(b'), if p.Entry? then [p.index] else []);
  }

  lemma {:induction false} EntriesRepeat(q: Piece, n: nat)
    requires !q.Entry?
    ensures Entries(Repeat(q, n)) == []
    decreases n
  {
    if n > 0 {
      EntriesRepeat(q, n - 1);
    }
  }

  /** `0`, …, `n - 1`. */
  function UpTo(n: nat): (r: seq<nat>)
    ensures |r| == n
    decreases n
  {
    if n == 0 then [] else UpTo(n - 1) + [n - 1]
  }

  lemma {:induction false} UpToAt(n: nat, k: nat)
    requires k < n
    ensures UpTo(n)[k] == k
    decreases n
  {
    if k < n - 1 {
      UpToAt(n - 1, k);
    }
  }

  /** The only entry in the step of heading `i` is its own. */
  lemma StepEntries(hs: seq<Heading>, i: nat)
    requires i < |hs|
    ensures Entries(Step(hs, i)) == [i]
  {
    if LevelBefore(hs, i) < hs[i].level {
      EntriesRepeat(ListOpen, hs[i].level - LevelBefore(hs, i));
    } else {
      EntriesRepeat(ListClose, LevelBefore(hs, i) - hs[i].level);
    }
  }

  /** Before heading `i` the entries are those of the headings before it, in order. */
  lemma {:induction false} PiecesEntries(hs: seq<Heading>, i: nat)
    requires i <= |hs|
    ensures Entries(PiecesBefore(hs, i)) == UpTo(i)
    decreases i
  {
    if i > 0 {
      PiecesEntries(hs, i - 1);
      StepEntries(hs, i - 1);
      EntriesCat(PiecesBefore(hs, i - 1), Step(hs, i - 1));
    }
  }

  /** The table lists every heading once, in document order. */
  lemma TocEntries(hs: seq<Heading>)
    ensures |Entries(TocPieces(hs))| == |hs|
    ensures forall k :: 0 <= k < |hs| ==> Entries(TocPieces(hs))[k] == k
  {
    PiecesEntries(hs, |hs|);
    EntriesRepeat(ListClose, LevelBefore(hs, |hs|) - 1);
    EntriesCat(PiecesBefore(hs, |hs|), FinalCloses(hs));
    assert Entries(TocPieces(hs)) == UpTo(|hs|);
    forall k | 0 <= k < |hs| ensures UpTo(|hs|)[k] == k {
      UpToAt(|hs|, k);
    }
  }

  /** Two headings without ids never get the same fallback id. */
  lemma FallbackIdsDistinct(hs: seq<Heading>, i: nat, j: nat)
    requires i < j < |hs| && hs[i].id == "" && hs[j].id == ""
    ensures AnchorId(hs[i], i) != AnchorId(hs[j], j)
  {
    NatToStringInjective(i, j);
    var a, b := "heading-" + NatToString(i), "heading-" + NatToString(j);
    assert a[8..] == NatToString(i) && b[8..] == NatToString(j);
  }

  // ---------------------------------------------------------------------------
  // Heading ids

  predicate IsSlugChar(c: char) {
    ('a' <= c <= 'z') || IsDigit(c) || c == '_' || c == '-'
  }

  /** `s.replace(/[^\w\s-]/g, '')`: only word characters, whitespace and `-` stay. */
  function KeepSlugChars(s: string): (r: string)
    ensures forall i :: 0 <= i < |r| ==> IsWordChar(r[i]) || IsSpace(r[i]) || r[i] == '-'
    ensures forall c :: c in r ==> c in s
    ensures (forall i :: 0 <= i < |s| ==> IsWordChar(s[i]) || IsSpace(s[i]) || s[i] == '-') ==> r == s
    decreases |s|
  {
    if s == [] then []
    else
      var rest := KeepSlugChars(s[1..]);
      if IsWordChar(s[0]) || IsSpace(s[0]) || s[0] == '-' then [s[0]] + rest else rest
  }

  /**
   * `KeepSlugChars` is the order-preserving filter of its input: one character
   * is kept exactly when it is a word character, whitespace or `-`, and the
   * result for a concatenation is the concatenation of the results.
   */
  lemma KeepSlugCharsFilter(a: string, b: string)
    ensures KeepSlugChars([]) == []
    ensures forall c: char :: KeepSlugChars([c]) == if IsWordChar(c) || IsSpace(c) || c == '-' then [c] else []
    ensures KeepSlugChars(a + b) == KeepSlugChars(a) + KeepSlugChars(b)
  {
    forall c: char ensures KeepSlugChars([c]) == if IsWordChar(c) || IsSpace(c) || c == '-' then [c] else [] {
      assert [c][1..] == [];
    }
    KeepSlugCharsAppend(a, b);
  }

  lemma {:induction false} KeepSlugCharsAppend(a: string, b: string)
    ensures KeepSlugChars(a + b) == KeepSlugChars(a) + KeepSlugChars(b)
    decreases |a|
  {
    if a == [] {
      assert a + b == b;
    } else {
      var x := a + b;
      assert x[0] == a[0];
      assert x[1..] == a[1..] + b;
      KeepSlugCharsAppend(a[1..], b);
      var ka, kb := KeepSlugChars(a[1..]), KeepSlugChars(b);
      if IsWordChar(a[0]) || IsSpace(a[0]) || a[0] == '-' {
        assert KeepSlugChars(x) == [a[0]] + (ka + kb);
        assert KeepSlugChars(a) == [a[0]] + ka;
      } else {
        assert KeepSlugChars(x) == ka + kb;
      }
    }
  }

  /**
   * The anchor plugin's `slugify`: lower-case, drop every character other than
   * word characters, whitespace and `-`, then turn each run of whitespace into `-`.
   */
  function Slugify(s: string): string {
    HyphenateSpaces(KeepSlugChars(Lower(s)))
  }

  /** A slug holds only lower-case ASCII letters, digits, `_` and `-`. */
  lemma SlugChars(s: string)
    ensures forall i :: 0 <= i < |Slugify(s)| ==> IsSlugChar(Slugify(s)[i])
  {
    var k := KeepSlugChars(Lower(s));
    HyphenateChars(k);
    forall c | c in k ensures !('A' <= c <= 'Z') {
      assert c in Lower(s);
    }
  }

  /** Slugifying a slug changes nothing. */
  lemma SlugifyIdempotent(s: string)
    ensures Slugify(Slugify(s)) == Slugify(s)
  {
    var t := Slugify(s);
    SlugChars(s);
    assert Lower(t) == t;
    assert KeepSlugChars(t) == t;
  }
}
