/**
 * The Azure DevOps wiki macros the renderer expands before markdown is
 * compiled (`processAzureDevOpsSyntax`). Each macro is one global
 * regular-expression replacement; a replacement is a left-to-right scan that,
 * at each index, either finds the rule's match there (and continues after it)
 * or copies one character. The rules are applied in a fixed order, each to the
 * output of the one before.
 */
module Macros {
  import opened Wrappers
  import opened Text

  /** The rewrite rules, one per `content.replace` call of the source. */
  datatype Rule =
    | TocRule                                  // /\[\[_TOC_\]\]/gi
    | TospRule                                 // /\[\[_TOSP_\]\]/gi
    | WikiRule                                 // /\[\[([^\]]+)\]\]/g
    | MentionRule                              // /@(\w+)/g
    | WorkItemRule                             // /#(\d+)/g
    | AttachmentRule                           // /\[\[attachment:([^\]]+)\]\]/gi
    | MermaidRule                              // /:::[\s]*mermaid\s*\n([\s\S]*?):::/gi
    | EmojiRule(code: string, value: string)   // the escaped shortcode, globally

  /** A match of a rule starting at some index: where it ends and its first capture group. */
  datatype Hit = Hit(end: nat, capture: string)

  /** A case-insensitive match of the lower-case literal `lit` at index `p`. */
  predicate StartsAtLower(s: string, lit: string, p: nat) {
    p + |lit| <= |s| && EqualsLower(s[p..p + |lit|], lit)
  }

  /** The end of the longest run of characters satisfying `isIn` that starts at `i` (a greedy `[..]*`). */
  function RunEnd(s: string, i: nat, isIn: char -> bool): (e: nat)
    requires i <= |s|
    ensures i <= e <= |s|
    ensures forall j :: i <= j < e ==> isIn(s[j])
    ensures e == |s| || !isIn(s[e])
    decreases |s| - i
  {
    if i < |s| && isIn(s[i]) then RunEnd(s, i + 1, isIn) else i
  }

  /** The last line feed in `s[a..b]`, if any. */
  function LastNewline(s: string, a: nat, b: nat): (r: Option<nat>)
    requires a <= b <= |s|
    ensures r.Some? ==> a <= r.value < b && s[r.value] == '\n'
    ensures r.Some? ==> forall j :: r.value < j < b ==> s[j] != '\n'
    ensures r.None? ==> forall j :: a <= j < b ==> s[j] != '\n'
    decreases b - a
  {
    if a == b then None
    else if s[b - 1] == '\n' then Some(b - 1)
    else LastNewline(s, a, b - 1)
  }

  /**
   * `\[\[ ([^\]]+) \]\]` after a literal opening `open` at `p`: the capture
   * runs to the first `]`, which must be followed by a second `]`.
   */
  function BracketMatch(s: string, p: nat, start: nat): (h: Option<Hit>)
    requires p < start <= |s|
    ensures h.Some? ==> start < h.value.end - 1 <= |s| - 1
    ensures h.Some? ==> h.value.end == start + |h.value.capture| + 2
    ensures h.Some? ==> h.value.capture == s[start..h.value.end - 2] && StartsAt(s, "]]", h.value.end - 2)
    ensures h.Some? ==> h.value.capture != [] && ']' !in h.value.capture
  {
    match FindChar(s, ']', start)
    case None => None
    case Some(e) =>
      if e > start && e + 1 < |s| && s[e + 1] == ']' then
        assert forall j :: 0 <= j < e - start ==> s[start..e][j] == s[start + j];
        Some(Hit(e + 2, s[start..e]))
      else None
  }

  /** `@(\w+)` at `p`: the greedy run of word characters after the `@`. */
  function MentionMatch(s: string, p: nat): (h: Option<Hit>)
    requires p <= |s|
  {
    if p + 1 < |s| && s[p] == '@' && IsWordChar(s[p + 1]) then
      var e := RunEnd(s, p + 1, IsWordChar);
      Some(Hit(e, s[p + 1..e]))
    else None
  }

  /** `#(\d+)` at `p`: the greedy run of digits after the `#`. */
  function WorkItemMatch(s: string, p: nat): (h: Option<Hit>)
    requires p <= |s|
  {
    if p + 1 < |s| && s[p] == '#' && IsDigit(s[p + 1]) then
      var e := RunEnd(s, p + 1, IsDigit);
      Some(Hit(e, s[p + 1..e]))
    else None
  }

  /**
   * `:::[\s]*mermaid\s*\n([\s\S]*?):::` at `p`, case-insensitively. The
   * whitespace before `mermaid` cannot give back characters (`m` is not
   * whitespace); `\s*\n` ends at the last line feed of the whitespace run
   * after `mermaid`, since only a start that late can leave the lazy body
   * anything the earlier starts could not; the body stops at the first `:::`.
   */
  function MermaidMatch(s: string, p: nat): (h: Option<Hit>)
    requires p <= |s|
    ensures h.Some? ==> p < h.value.end <= |s|
  {
    if !StartsAt(s, ":::", p) then None else MermaidWord(s, RunEnd(s, p + 3, IsSpace))
  }

  /** `mermaid` at `a`, then the whitespace run after it. */
  function MermaidWord(s: string, a: nat): (h: Option<Hit>)
    requires a <= |s|
    ensures h.Some? ==> a < h.value.end <= |s|
  {
    if !StartsAtLower(s, "mermaid", a) then None else MermaidLine(s, a + 7, RunEnd(s, a + 7, IsSpace))
  }

  /** The whitespace run `s[a..b]` must hold a line feed; the body starts after the last one. */
  function MermaidLine(s: string, a: nat, b: nat): (h: Option<Hit>)
    requires a <= b <= |s|
    ensures h.Some? ==> a < h.value.end <= |s|
  {
    match LastNewline(s, a, b)
    case None => None
    case Some(n) => MermaidBody(s, n + 1)
  }

  /** The lazy body from `start` up to the first `:::`, and the match's end after it. */
  function MermaidBody(s: string, start: nat): (h: Option<Hit>)
    requires start <= |s|
    ensures h.Some? ==> start < h.value.end <= |s|
  {
    match FindFrom(s, ":::", start)
    case None => None
    case Some(c) => Some(Hit(c + 3, s[start..c]))
  }

  /** The match of rule `r` that starts at index `p` of `s`, if there is one. */
  function MatchAt(r: Rule, s: string, p: nat): (h: Option<Hit>)
    requires p <= |s|
    ensures h.Some? ==> p < h.value.end <= |s|
  {
    match r
    case TocRule => if StartsAtLower(s, "[[_toc_]]", p) then Some(Hit(p + 9, "")) else None
    case TospRule => if StartsAtLower(s, "[[_tosp_]]", p) then Some(Hit(p + 10, "")) else None
    case WikiRule => if StartsAt(s, "[[", p) then BracketMatch(s, p, p + 2) else None
    case MentionRule => MentionMatch(s, p)
    case WorkItemRule => WorkItemMatch(s, p)
    case AttachmentRule =>
      if StartsAtLower(s, "[[attachment:", p) then BracketMatch(s, p, p + 13) else None
    case MermaidRule => MermaidMatch(s, p)
    case EmojiRule(code, value) =>
      // every shortcode of the table is non-empty and free of regular-expression syntax
      if code != [] && StartsAt(s, code, p) then Some(Hit(p + |code|, "")) else None
  }

  /** The replacement of the wiki-link callback for the whole match `matched` and its page name. */
  function WikiReplacement(matched: string, pageName: string): string {
    if StartsWith(pageName, "_") && EndsWith(pageName, "_") then matched
    else if '|' in pageName then
      var parts := Split(pageName, '|');
      "[" + Trim(parts[1]) + "](" + HyphenateSpaces(Trim(parts[0])) + ".md)"
    else
      "[" + Trim(pageName) + "](" + HyphenateSpaces(Trim(pageName)) + ".md)"
  }

  /** The paperclip the attachment link is labelled with, exactly as the source file spells it. */
  const AttachmentIcon: string := "\U{00F0}\U{0178}\U{201C}\U{017D}"

  /** The id of a diagram: the clock reading `t` and the per-call counter `k`. */
  function MermaidId(t: nat, k: nat): string {
    "mermaid-" + NatToString(t) + "-" + NatToString(k)
  }

  /**
   * What rule `r` puts in place of the match `matched` with first capture
   * `capture`; `k` is the number of matches replaced before it in the same
   * call and `clock(k)` the time `Date.now()` reads for that replacement.
   */
  function Replacement(r: Rule, matched: string, capture: string, clock: nat -> nat, k: nat): string {
    match r
    case TocRule => "<!-- TOC_PLACEHOLDER -->"
    case TospRule => "<!-- TOSP_PLACEHOLDER -->"
    case WikiRule => WikiReplacement(matched, capture)
    case MentionRule => "<span class=\"mention\">@" + capture + "</span>"
    case WorkItemRule =>
      "<span class=\"work-item-link\" title=\"Work Item " + capture + "\">#" + capture + "</span>"
    case AttachmentRule =>
      "<a href=\"#\" class=\"attachment-link\" data-attachment=\"" + capture + "\">" +
      AttachmentIcon + " " + capture + "</a>"
    case MermaidRule =>
      "\n<div class=\"mermaid-diagram\" id=\"" + MermaidId(clock(k), k) + "\">\n" + Trim(capture) + "\n</div>\n"
    case EmojiRule(code, value) => value
  }

  /** `s.replace(regex, callback)` from index `i` on, after `k` replacements. */
  function ReplaceFrom(r: Rule, s: string, i: nat, k: nat, clock: nat -> nat): string
    requires i <= |s|
    decreases |s| - i
  {
    if i == |s| then ""
    else
      match MatchAt(r, s, i)
      case Some(h) => Replacement(r, s[i..h.end], h.capture, clock, k) + ReplaceFrom(r, s, h.end, k + 1, clock)
      case None => [s[i]] + ReplaceFrom(r, s, i + 1, k, clock)
  }

  function ApplyRule(r: Rule, s: string, clock: nat -> nat): string {
    ReplaceFrom(r, s, 0, 0, clock)
  }

  /** Each rule applied to the output of the one before it. */
  function ApplyRules(rules: seq<Rule>, s: string, clock: nat -> nat): string
    decreases |rules|
  {
    if rules == [] then s else ApplyRules(rules[1..], ApplyRule(rules[0], s, clock), clock)
  }

  /** The shortcode table in the order its keys were written, values as the source file spells them. */
  const Shortcodes: seq<(string, string)> := [
    (":smile:", "\U{00F0}\U{0178}\U{02DC}\U{201E}"),
    (":tada:", "\U{00F0}\U{0178}\U{017D}\U{2030}"),
    (":rocket:", "\U{00F0}\U{0178}\U{0161}\U{20AC}"),
    (":warning:", "\U{00E2}\U{0161}\U{00A0}\U{00EF}\U{00B8}"),
    (":white_check_mark:", "\U{00E2}\U{0153}\U{2026}"),
    (":x:", "\U{00E2}\U{0152}"),
    (":bulb:", "\U{00F0}\U{0178}\U{2019}\U{00A1}"),
    (":fire:", "\U{00F0}\U{0178}\U{201D}\U{00A5}"),
    (":star:", "\U{00E2}\U{00AD}"),
    (":heart:", "\U{00E2}\U{00A4}\U{00EF}\U{00B8}"),
    (":thumbsup:", "\U{00F0}\U{0178}\U{2018}"),
    (":thumbsdown:", "\U{00F0}\U{0178}\U{2018}\U{017D}"),
    (":eyes:", "\U{00F0}\U{0178}\U{2018}\U{20AC}"),
    (":memo:", "\U{00F0}\U{0178}\U{201C}"),
    (":books:", "\U{00F0}\U{0178}\U{201C}\U{0161}"),
    (":hammer:", "\U{00F0}\U{0178}\U{201D}\U{00A8}"),
    (":computer:", "\U{00F0}\U{0178}\U{2019}\U{00BB}"),
    (":thinking:", "\U{00F0}\U{0178}\U{00A4}\U{201D}"),
    (":question:", "\U{00E2}\U{201C}"),
    (":exclamation:", "\U{00E2}\U{2014}")
  ]

  /** One replacement rule per row of the shortcode table. */
  function EmojiRules(): (rules: seq<Rule>)
    ensures |rules| == |Shortcodes|
    ensures forall i :: 0 <= i < |rules| ==> rules[i] == EmojiRule(Shortcodes[i].0, Shortcodes[i].1)
  {
    seq(|Shortcodes|, i requires 0 <= i < |Shortcodes| => EmojiRule(Shortcodes[i].0, Shortcodes[i].1))
  }

  /** A shortcode: a name without `:` between two colons. */
  predicate IsShortcode(code: string) {
    |code| >= 2 && code[0] == ':' && code[|code| - 1] == ':' &&
    forall j :: 0 < j < |code| - 1 ==> code[j] != ':'
  }

  /** Every key of the table is a shortcode. */
  lemma ShortcodeKeys()
    ensures forall i :: 0 <= i < |Shortcodes| ==> IsShortcode(Shortcodes[i].0)
  {
    ShortcodeKeysBelow();
    ShortcodeKeysAbove();
  }

  lemma ShortcodeKeysBelow()
    ensures forall i :: 0 <= i < 10 ==> IsShortcode(Shortcodes[i].0)
  {
  }

  lemma ShortcodeKeysAbove()
    ensures forall i :: 10 <= i < |Shortcodes| ==> IsShortcode(Shortcodes[i].0)
  {
  }

  /** No value of the table holds a `:`. */
  lemma ShortcodeValues()
    ensures forall i :: 0 <= i < |Shortcodes| ==> ':' !in Shortcodes[i].1
  {
  }

  /** The keys of the table differ. */
  lemma ShortcodesDistinct()
    ensures forall i, j :: 0 <= i < j < |Shortcodes| ==> Shortcodes[i].0 != Shortcodes[j].0
  {
  }

  /** The seven macro rules in the order the source applies them. */
  const MacroRules: seq<Rule> :=
    [TocRule, TospRule, WikiRule, MentionRule, WorkItemRule, AttachmentRule, MermaidRule]

  /** The whole chain: the macros, then the shortcodes. */
  function Chain(): seq<Rule> {
    MacroRules + EmojiRules()
  }

  /**
   * `processAzureDevOpsSyntax(content)`: the seven macro replacements in
   * order, then one replacement per shortcode of the table. `clock(k)` is what
   * `Date.now()` returns for the `k`-th diagram.
   */
  method ProcessAzureDevOpsSyntax(content: string, clock: nat -> nat) returns (result: string)
    ensures result == ApplyRules(Chain(), content, clock)
  {
    result := ApplyRule(TocRule, content, clock);
    result := ApplyRule(TospRule, result, clock);
    result := ApplyRule(WikiRule, result, clock);
    result := ApplyRule(MentionRule, result, clock);
    result := ApplyRule(WorkItemRule, result, clock);
    result := ApplyRule(AttachmentRule, result, clock);
    result := ApplyRule(MermaidRule, result, clock);
    MacroRulesApplied(content, clock);
    ghost var expanded := result;
    for i := 0 to |Shortcodes|
      invariant ApplyRules(EmojiRules(), expanded, clock) == ApplyRules(EmojiRules()[i..], result, clock)
    {
      ApplyStep(EmojiRules(), i, result, clock);
      var shortcode, emoji := Shortcodes[i].0, Shortcodes[i].1;
      result := ApplyRule(EmojiRule(shortcode, emoji), result, clock);
    }
    ApplyRulesAppend(MacroRules, EmojiRules(), content, clock);
  }

  /** What the seven statements of the macro phase compute, as a fold over `MacroRules`. */
  lemma MacroRulesApplied(s: string, clock: nat -> nat)
    ensures ApplyRules(MacroRules, s, clock) ==
      ApplyRule(MermaidRule, ApplyRule(AttachmentRule, ApplyRule(WorkItemRule, ApplyRule(MentionRule,
        ApplyRule(WikiRule, ApplyRule(TospRule, ApplyRule(TocRule, s, clock), clock), clock), clock), clock), clock), clock)
  {
    var m := MacroRules;
    assert m[1..][1..][1..][1..][1..][1..][1..] == [];
  }

  lemma {:induction false} ApplyRulesAppend(a: seq<Rule>, b: seq<Rule>, s: string, clock: nat -> nat)
    ensures ApplyRules(a + b, s, clock) == ApplyRules(b, ApplyRules(a, s, clock), clock)
    decreases |a|
  {
    if a == [] {
      assert a + b == b;
    } else {
      assert (a + b)[1..] == a[1..] + b;
      ApplyRulesAppend(a[1..], b, ApplyRule(a[0], s, clock), clock);
    }
  }

  /** Applying `rules[j..]` is applying `rules[j]` and then the rest. */
  lemma ApplyStep(rules: seq<Rule>, j: nat, s: string, clock: nat -> nat)
    requires j < |rules|
    ensures ApplyRules(rules[j..], s, clock) == ApplyRules(rules[j + 1..], ApplyRule(rules[j], s, clock), clock)
  {
    assert rules[j..][1..] == rules[j + 1..];
  }

  // ---------------------------------------------------------------------------
  // The scan

  /** No match of `r` starts anywhere in `s`. */
  predicate Inert(r: Rule, s: string) {
    forall j :: 0 <= j < |s| ==> MatchAt(r, s, j).None?
  }

  /** Characters at which no match starts are copied unchanged. */
  lemma ScanSkips(r: Rule, s: string, i: nat, m: nat, k: nat, clock: nat -> nat)
    requires i <= m <= |s|
    requires forall j :: i <= j < m ==> MatchAt(r, s, j).None?
    ensures ReplaceFrom(r, s, i, k, clock) == s[i..m] + ReplaceFrom(r, s, m, k, clock)
  {
    var f := (j: nat) => if j <= |s| then ReplaceFrom(r, s, j, k, clock) else "";
    CopySteps(r, s, i, m, k, clock);
    CopyChain(s, i, m, f);
  }

  /** Each character of `s[i..m]` is copied by the scan. */
  lemma CopySteps(r: Rule, s: string, i: nat, m: nat, k: nat, clock: nat -> nat)
    requires i <= m <= |s|
    requires forall j :: i <= j < m ==> MatchAt(r, s, j).None?
    ensures forall j :: i <= j < m ==> ReplaceFrom(r, s, j, k, clock) == [s[j]] + ReplaceFrom(r, s, j + 1, k, clock)
  {
    forall j | i <= j < m
      ensures ReplaceFrom(r, s, j, k, clock) == [s[j]] + ReplaceFrom(r, s, j + 1, k, clock)
    {
      CopyStep(r, s, j, k, clock);
    }
  }

  /** A scan that copies each character of `s[i..m]` outputs them, then the scan from `m`. */
  lemma {:induction false} CopyChain(s: string, i: nat, m: nat, f: nat -> string)
    requires i <= m <= |s|
    requires forall j :: i <= j < m ==> f(j) == [s[j]] + f(j + 1)
    ensures f(i) == s[i..m] + f(m)
    decreases m - i
  {
    if i < m {
      CopyChain(s, i + 1, m, f);
      assert s[i..m] == [s[i]] + s[i + 1..m];
      Assoc([s[i]], s[i + 1..m], f(m));
    }
  }

  lemma CopyStep(r: Rule, s: string, i: nat, k: nat, clock: nat -> nat)
    requires i < |s| && MatchAt(r, s, i).None?
    ensures ReplaceFrom(r, s, i, k, clock) == [s[i]] + ReplaceFrom(r, s, i + 1, k, clock)
  {
  }

  lemma MatchStep(r: Rule, s: string, i: nat, k: nat, clock: nat -> nat)
    requires i < |s| && MatchAt(r, s, i).Some?
    ensures var h := MatchAt(r, s, i).value;
      ReplaceFrom(r, s, i, k, clock) == Replacement(r, s[i..h.end], h.capture, clock, k) + ReplaceFrom(r, s, h.end, k + 1, clock)
  {
  }

  /** A replacement with nothing to match returns its input. */
  lemma InertUnchanged(r: Rule, s: string, clock: nat -> nat)
    requires Inert(r, s)
    ensures ApplyRule(r, s, clock) == s
  {
    ScanSkips(r, s, 0, |s|, 0, clock);
  }

  /**
   * When the first match in `s` is at `p` and ends at `e`, the output is the
   * text before it, its replacement (the first of the call), and the scan of
   * the rest.
   */
  lemma FirstMatch(r: Rule, s: string, p: nat, e: nat, clock: nat -> nat)
    requires p <= |s|
    requires forall j :: 0 <= j < p ==> MatchAt(r, s, j).None?
    requires MatchAt(r, s, p).Some? && MatchAt(r, s, p).value.end == e
    ensures ApplyRule(r, s, clock) ==
      s[..p] + Replacement(r, s[p..e], MatchAt(r, s, p).value.capture, clock, 0) + ReplaceFrom(r, s, e, 1, clock)
  {
    ScanSkips(r, s, 0, p, 0, clock);
    MatchStep(r, s, p, 0, clock);
    var h := MatchAt(r, s, p).value;
    assert s[0..p] == s[..p];
    Assoc(s[..p], Replacement(r, s[p..e], h.capture, clock, 0), ReplaceFrom(r, s, e, 1, clock));
  }

  /** A diagram match that spans the whole text is replaced by the first diagram div and nothing else. */
  lemma WholeMatch(s: string, clock: nat -> nat)
    requires MatchAt(MermaidRule, s, 0).Some? && MatchAt(MermaidRule, s, 0).value.end == |s|
    ensures ApplyRule(MermaidRule, s, clock) ==
      Replacement(MermaidRule, s, MatchAt(MermaidRule, s, 0).value.capture, clock, 0)
  {
    var h := MatchAt(MermaidRule, s, 0).value;
    assert s[0..h.end] == s;
    assert ReplaceFrom(MermaidRule, s, h.end, 1, clock) == "";
  }

  /** A chain of rules none of which matches leaves the text unchanged. */
  lemma {:induction false} InertChainUnchanged(rules: seq<Rule>, s: string, clock: nat -> nat)
    requires forall i :: 0 <= i < |rules| ==> Inert(rules[i], s)
    ensures ApplyRules(rules, s, clock) == s
    decreases |rules|
  {
    if rules != [] {
      InertUnchanged(rules[0], s, clock);
      InertChainUnchanged(rules[1..], s, clock);
    }
  }

  // ---------------------------------------------------------------------------
  // Text without macros

  /** No `[[` that a `]]` follows later, starting two or more characters after it. */
  predicate NoBracketPair(s: string) {
    forall j, k :: 0 <= j && j + 2 <= k < |s| - 1 && s[j] == '[' && s[j + 1] == '[' ==>
      !(s[k] == ']' && s[k + 1] == ']')
  }

  /** No `:::` followed, after optional whitespace, by `mermaid` in any letter case. */
  predicate NoMermaidFence(s: string) {
    forall j :: 0 <= j < |s| && StartsAt(s, ":::", j) ==> !StartsAtLower(s, "mermaid", RunEnd(s, j + 3, IsSpace))
  }

  /**
   * No bracket macro (a `[[` with a `]]` after it), no `@` before a word
   * character, no `#` before a digit and no opening of a diagram fence.
   */
  predicate MacroFree(s: string) {
    NoBracketPair(s) &&
    (forall j :: 0 <= j < |s| - 1 ==> !(s[j] == '@' && IsWordChar(s[j + 1]))) &&
    (forall j :: 0 <= j < |s| - 1 ==> !(s[j] == '#' && IsDigit(s[j + 1]))) &&
    NoMermaidFence(s)
  }

  /** Text without macros and without any of the shortcodes. */
  predicate PlainText(s: string) {
    MacroFree(s) && forall i :: 0 <= i < |Shortcodes| ==> !Contains(s, Shortcodes[i].0)
  }

  /** A literal that opens with `[[`, matched in any letter case, needs `[[` in the text. */
  lemma LowerOpensBrackets(s: string, lit: string, p: nat)
    requires |lit| >= 2 && lit[0] == '[' && lit[1] == '['
    ensures StartsAtLower(s, lit, p) ==> s[p] == '[' && s[p + 1] == '['
  {
    if StartsAtLower(s, lit, p) {
      var w := s[p..p + |lit|];
      EqualsLowerIsEqual(w, lit);
      assert Lower(w)[0] == LowerChar(s[p]) && Lower(w)[1] == LowerChar(s[p + 1]);
    }
  }

  lemma OpensWith(s: string, lit: string, p: nat)
    requires |lit| >= 2
    ensures StartsAt(s, lit, p) ==> s[p] == lit[0] && s[p + 1] == lit[1] && Contains(s, lit)
  {
    if StartsAt(s, lit, p) {
      assert s[p..p + |lit|][0] == s[p] && s[p..p + |lit|][1] == s[p + 1];
    }
  }

  /** A literal that closes with `]]`, matched in any letter case, ends on `]]` in the text. */
  lemma LowerClosesBrackets(s: string, lit: string, p: nat)
    requires |lit| >= 2 && lit[|lit| - 2] == ']' && lit[|lit| - 1] == ']'
    ensures StartsAtLower(s, lit, p) ==> s[p + |lit| - 2] == ']' && s[p + |lit| - 1] == ']'
  {
    if StartsAtLower(s, lit, p) {
      var w := s[p..p + |lit|];
      EqualsLowerIsEqual(w, lit);
      assert Lower(w)[|lit| - 2] == LowerChar(s[p + |lit| - 2]) && Lower(w)[|lit| - 1] == LowerChar(s[p + |lit| - 1]);
    }
  }

  /** A placeholder marker `lit` needs a `[[` with a `]]` after it. */
  lemma MarkerInert(s: string, lit: string, j: nat)
    requires NoBracketPair(s) && j < |s| && |lit| >= 4
    requires lit[0] == '[' && lit[1] == '[' && lit[|lit| - 2] == ']' && lit[|lit| - 1] == ']'
    ensures !StartsAtLower(s, lit, j)
  {
    LowerOpensBrackets(s, lit, j);
    LowerClosesBrackets(s, lit, j);
  }

  lemma WikiInertAt(s: string, j: nat)
    requires NoBracketPair(s) && j < |s|
    ensures MatchAt(WikiRule, s, j).None?
  {
    OpensWith(s, "[[", j);
    WikiClosesAt(s, j);
  }

  lemma AttachmentInertAt(s: string, j: nat)
    requires NoBracketPair(s) && j < |s|
    ensures MatchAt(AttachmentRule, s, j).None?
  {
    LowerOpensBrackets(s, "[[attachment:", j);
    AttachmentClosesAt(s, j);
  }

  lemma PlainMacroInert(r: Rule, s: string)
    requires MacroFree(s) && r in MacroRules
    ensures Inert(r, s)
  {
    forall j | 0 <= j < |s| ensures MatchAt(r, s, j).None? {
      match r
      case TocRule => MarkerInert(s, "[[_toc_]]", j);
      case TospRule => MarkerInert(s, "[[_tosp_]]", j);
      case WikiRule => WikiInertAt(s, j);
      case AttachmentRule => AttachmentInertAt(s, j);
      case MermaidRule =>
      case MentionRule =>
      case WorkItemRule =>
    }
  }

  lemma PlainShortcodeInert(i: nat, s: string)
    requires PlainText(s) && i < |Shortcodes|
    ensures Inert(EmojiRules()[i], s)
  {
    var code := Shortcodes[i].0;
    forall j | 0 <= j < |s| ensures !StartsAt(s, code, j) {
      ContainsAt(s, code, j);
    }
  }

  lemma ContainsAt(s: string, p: string, j: nat)
    ensures StartsAt(s, p, j) ==> Contains(s, p)
  {
  }

  /** Text without any macro or shortcode comes out of the preprocessor unchanged. */
  lemma PlainTextUnchanged(s: string, clock: nat -> nat)
    requires PlainText(s)
    ensures ApplyRules(Chain(), s, clock) == s
  {
    var rules := Chain();
    forall i | 0 <= i < |rules| ensures Inert(rules[i], s) {
      if i < |MacroRules| {
        assert rules[i] in MacroRules;
        PlainMacroInert(rules[i], s);
      } else {
        assert rules[i] == EmojiRules()[i - |MacroRules|];
        PlainShortcodeInert(i - |MacroRules|, s);
      }
    }
    InertChainUnchanged(rules, s, clock);
  }

  // ---------------------------------------------------------------------------
  // Shortcodes

  /** A match of a shortcode starts and ends with a colon. */
  lemma ShortcodeAt(s: string, code: string, j: nat)
    requires IsShortcode(code)
    ensures StartsAt(s, code, j) ==> s[j] == ':' && s[j + |code| - 1] == ':' && s[j..j + |code|] == code
  {
    if StartsAt(s, code, j) {
      assert s[j..j + |code|][0] == s[j];
      assert s[j..j + |code|][|code| - 1] == s[j + |code| - 1];
    }
  }

  /** The only colons of `pre + code + post` are the two of the shortcode. */
  lemma ColonsOf(pre: string, code: string, post: string)
    requires IsShortcode(code) && ':' !in pre && ':' !in post
    ensures var s := pre + code + post;
      forall k :: 0 <= k < |s| ==> (s[k] == ':' ==> k == |pre| || k == |pre| + |code| - 1)
    ensures (pre + code + post)[|pre|..|pre| + |code|] == code
  {
    var s := pre + code + post;
    forall k | 0 <= k < |s| ensures s[k] == ':' ==> k == |pre| || k == |pre| + |code| - 1 {
      if k < |pre| {
        assert s[k] == pre[k];
      } else if k < |pre| + |code| {
        assert s[k] == code[k - |pre|];
      } else {
        assert s[k] == post[k - |pre| - |code|];
      }
    }
  }

  /** A different shortcode does not occur in `pre + code + post`. */
  lemma OtherShortcodeInert(code: string, other: string, value: string, pre: string, post: string)
    requires IsShortcode(code) && IsShortcode(other) && code != other
    requires ':' !in pre && ':' !in post
    ensures Inert(EmojiRule(other, value), pre + code + post)
  {
    var s := pre + code + post;
    ColonsOf(pre, code, post);
    forall j | 0 <= j < |s| ensures !StartsAt(s, other, j) {
      ShortcodeAt(s, other, j);
    }
  }

  /** No shortcode occurs in a text without colons. */
  lemma ColonFreeInert(t: string, code: string, value: string)
    requires IsShortcode(code) && ':' !in t
    ensures Inert(EmojiRule(code, value), t)
  {
    forall j | 0 <= j < |t| ensures !StartsAt(t, code, j) {
      ShortcodeAt(t, code, j);
    }
  }

  /** A shortcode's own rule puts its value in its place. */
  lemma OwnShortcodeReplaced(code: string, value: string, pre: string, post: string, clock: nat -> nat)
    requires IsShortcode(code) && ':' !in pre && ':' !in post
    ensures ApplyRule(EmojiRule(code, value), pre + code + post, clock) == pre + value + post
  {
    var s := pre + code + post;
    var r := EmojiRule(code, value);
    var p, e := |pre|, |pre| + |code|;
    ColonsOf(pre, code, post);
    forall j | 0 <= j < p ensures MatchAt(r, s, j).None? {
      ShortcodeAt(s, code, j);
    }
    assert MatchAt(r, s, p) == Some(Hit(e, ""));
    FirstMatch(r, s, p, e, clock);
    forall j | e <= j < |s| ensures MatchAt(r, s, j).None? {
      ShortcodeAt(s, code, j);
    }
    ScanSkips(r, s, e, |s|, 1, clock);
    assert s[..p] == pre;
    assert s[e..|s|] == post;
  }

  /**
   * The shortcode rules from the `j`-th on, applied to the text as the loop
   * has it by then: the `i`-th shortcode until its own rule, its value after.
   */
  lemma {:induction false} EmojiChainFrom(j: nat, i: nat, pre: string, post: string, clock: nat -> nat)
    requires i < |Shortcodes| && j <= |Shortcodes|
    requires ':' !in pre && ':' !in post
    ensures var code, value := Shortcodes[i].0, Shortcodes[i].1;
      ApplyRules(EmojiRules()[j..], if j <= i then pre + code + post else pre + value + post, clock) ==
        pre + value + post
    decreases |Shortcodes| - j
  {
    var code, value := Shortcodes[i].0, Shortcodes[i].1;
    var t := if j <= i then pre + code + post else pre + value + post;
    if j == |Shortcodes| {
      assert EmojiRules()[j..] == [];
    } else {
      ShortcodeKeys();
      ShortcodeValues();
      ApplyStep(EmojiRules(), j, t, clock);
      if j < i {
        ShortcodesDistinct();
        OtherShortcodeInert(code, Shortcodes[j].0, Shortcodes[j].1, pre, post);
        InertUnchanged(EmojiRules()[j], t, clock);
      } else if j == i {
        OwnShortcodeReplaced(code, value, pre, post, clock);
      } else {
        ColonFreeInert(t, Shortcodes[j].0, Shortcodes[j].1);
        InertUnchanged(EmojiRules()[j], t, clock);
      }
      EmojiChainFrom(j + 1, i, pre, post, clock);
    }
  }

  /**
   * The shortcode loop puts each shortcode's value from the table in its
   * place: in a text whose only colons are the two of one shortcode, that
   * shortcode becomes its value and nothing else changes.
   */
  lemma ShortcodeReplaced(i: nat, pre: string, post: string, clock: nat -> nat)
    requires i < |Shortcodes| && ':' !in pre && ':' !in post
    ensures ApplyRules(EmojiRules(), pre + Shortcodes[i].0 + post, clock) == pre + Shortcodes[i].1 + post
  {
    EmojiChainFrom(0, i, pre, post, clock);
    assert EmojiRules()[0..] == EmojiRules();
  }

  /** The whole preprocessor on such a text without macros: only the shortcode changes. */
  lemma ShortcodeInPreprocessor(i: nat, pre: string, post: string, clock: nat -> nat)
    requires i < |Shortcodes| && ':' !in pre && ':' !in post
    requires MacroFree(pre + Shortcodes[i].0 + post)
    ensures ApplyRules(Chain(), pre + Shortcodes[i].0 + post, clock) == pre + Shortcodes[i].1 + post
  {
    var s := pre + Shortcodes[i].0 + post;
    forall k | 0 <= k < |MacroRules| ensures Inert(MacroRules[k], s) {
      PlainMacroInert(MacroRules[k], s);
    }
    InertChainUnchanged(MacroRules, s, clock);
    ApplyRulesAppend(MacroRules, EmojiRules(), s, clock);
    ShortcodeReplaced(i, pre, post, clock);
  }

  // ---------------------------------------------------------------------------
  // Placeholders and wiki links

  /** `[[_TOC_]]`, in any letter case, becomes the table-of-contents placeholder. */
  lemma TocMarker(m: string, clock: nat -> nat)
    requires Lower(m) == "[[_toc_]]"
    ensures ApplyRule(TocRule, m, clock) == "<!-- TOC_PLACEHOLDER -->"
  {
    EqualsLowerIsEqual(m, "[[_toc_]]");
    assert m[0..9] == m;
    FirstMatch(TocRule, m, 0, 9, clock);
  }

  /** `[[_TOSP_]]`, in any letter case, becomes the sub-page placeholder. */
  lemma TospMarker(m: string, clock: nat -> nat)
    requires Lower(m) == "[[_tosp_]]"
    ensures ApplyRule(TospRule, m, clock) == "<!-- TOSP_PLACEHOLDER -->"
  {
    EqualsLowerIsEqual(m, "[[_tosp_]]");
    assert m[0..10] == m;
    FirstMatch(TospRule, m, 0, 10, clock);
  }

  /**
   * A wiki-link match at `p` is exactly `[[`, a non-empty page name without
   * `]`, and `]]`.
   */
  lemma WikiMatchIff(s: string, p: nat, name: string)
    requires p <= |s|
    ensures MatchAt(WikiRule, s, p) == Some(Hit(p + |name| + 4, name)) <==>
      (StartsAt(s, "[[" + name + "]]", p) && name != [] && ']' !in name)
  {
    if StartsAt(s, "[[" + name + "]]", p) && name != [] && ']' !in name {
      WikiMatchFound(s, p, name);
    }
    if MatchAt(WikiRule, s, p) == Some(Hit(p + |name| + 4, name)) {
      WikiMatchShape(s, p, name);
    }
  }

  lemma WikiMatchFound(s: string, p: nat, name: string)
    requires StartsAt(s, "[[" + name + "]]", p) && name != [] && ']' !in name
    ensures MatchAt(WikiRule, s, p) == Some(Hit(p + |name| + 4, name))
  {
    var lit := "[[" + name + "]]";
    var e := p + 2 + |name|;
    assert s[p..p + 2] == lit[..2];
    assert forall j :: p + 2 <= j < e ==> s[j] == name[j - p - 2] by {
      assert forall j :: p + 2 <= j < e ==> s[j] == lit[j - p];
    }
    assert s[e] == lit[|name| + 2] && s[e + 1] == lit[|name| + 3];
    FindCharFrom(s, ']', p + 2, e);
    assert s[p + 2..e] == name;
  }

  lemma WikiMatchShape(s: string, p: nat, name: string)
    requires p <= |s| && MatchAt(WikiRule, s, p) == Some(Hit(p + |name| + 4, name))
    ensures StartsAt(s, "[[" + name + "]]", p) && name != [] && ']' !in name
  {
    var lit := "[[" + name + "]]";
    assert s[p..p + |lit|] == s[p..p + 2] + s[p + 2..p + 2 + |name|] + s[p + 2 + |name|..p + |lit|];
  }

  /** A lone wiki macro `[[name]]` is replaced by the callback's value for it. */
  lemma WikiMacro(name: string, clock: nat -> nat)
    requires name != [] && ']' !in name
    ensures ApplyRule(WikiRule, "[[" + name + "]]", clock) == WikiReplacement("[[" + name + "]]", name)
  {
    var m := "[[" + name + "]]";
    WikiMatchIff(m, 0, name);
    assert m[0..|m|] == m;
    FirstMatch(WikiRule, m, 0, |m|, clock);
  }

  /** `[[_name_]]` (for instance an unknown `[[_X_]]` marker) is left as it is. */
  lemma SpecialMarkerKept(name: string, clock: nat -> nat)
    requires name != [] && ']' !in name && name[0] == '_' && name[|name| - 1] == '_'
    ensures ApplyRule(WikiRule, "[[" + name + "]]", clock) == "[[" + name + "]]"
  {
    WikiMacro(name, clock);
    assert name[..1] == "_" && name[|name| - 1..] == "_";
  }

  /**
   * `[[Target]]` becomes `[text](file)` where the text is the trimmed target
   * and the file the trimmed target with each run of whitespace turned into
   * `-`, then `.md`.
   */
  lemma PageLink(target: string, clock: nat -> nat)
    requires target != [] && ']' !in target && '|' !in target
    requires !(target[0] == '_' && target[|target| - 1] == '_')
    ensures ApplyRule(WikiRule, "[[" + target + "]]", clock) ==
      "[" + Trim(target) + "](" + HyphenateSpaces(Trim(target)) + ".md)"
  {
    WikiMacro(target, clock);
    assert !(StartsWith(target, "_") && EndsWith(target, "_")) by {
      assert StartsWith(target, "_") ==> target[0] == '_';
      assert EndsWith(target, "_") ==> target[|target| - 1] == '_';
    }
  }

  /**
   * `[[Target|Display]]` becomes `[text](file)`: the text is the trimmed
   * display up to any further `|` (what follows it is dropped), the file is
   * still the trimmed target with whitespace runs turned into `-`, then `.md`.
   */
  lemma DisplayPageLink(target: string, text: string, rest: string, clock: nat -> nat)
    requires ']' !in target && '|' !in target && ']' !in text && ']' !in rest
    requires '|' !in text && (rest == [] || rest[0] == '|')
    requires !(target != [] && target[0] == '_' && EndsWith(text + rest, "_"))
    ensures ApplyRule(WikiRule, "[[" + target + "|" + text + rest + "]]", clock) ==
      "[" + Trim(text) + "](" + HyphenateSpaces(Trim(target)) + ".md)"
  {
    var name := target + "|" + (text + rest);
    assert "[[" + target + "|" + text + rest + "]]" == "[[" + name + "]]";
    assert name[|target|] == '|';
    WikiMacro(name, clock);
    DisplayReplacement(target, text, rest);
  }

  lemma DisplayReplacement(target: string, text: string, rest: string)
    requires '|' !in target && '|' !in text && (rest == [] || rest[0] == '|')
    requires !(target != [] && target[0] == '_' && EndsWith(text + rest, "_"))
    ensures var name := target + "|" + (text + rest);
      WikiReplacement("[[" + name + "]]", name) == "[" + Trim(text) + "](" + HyphenateSpaces(Trim(target)) + ".md)"
  {
    var display := text + rest;
    var name := target + "|" + display;
    assert name == target + ['|'] + display;
    assert name[|target|] == '|';
    SplitCons(target, display, '|');
    assert display[..|text|] == text;
    SplitFirst(display, '|', |text|);
    var parts := Split(name, '|');
    assert parts[0] == target && parts[1] == text;
    NotSpecial(name, target, display);
  }

  lemma NotSpecial(name: string, target: string, display: string)
    requires name == target + "|" + display
    requires !(target != [] && target[0] == '_' && EndsWith(display, "_"))
    ensures !(StartsWith(name, "_") && EndsWith(name, "_"))
  {
    assert StartsWith(name, "_") ==> name[0] == '_';
    assert EndsWith(name, "_") ==> name[|name| - 1] == '_';
    assert name[0] == (if target == [] then '|' else target[0]);
    assert name[|name| - 1] == (if display == [] then '|' else display[|display| - 1]);
    assert EndsWith(display, "_") <==> display != [] && display[|display| - 1] == '_' by {
      if display != [] { assert display[|display| - 1..] == [display[|display| - 1]]; }
    }
  }

  /** The target of a wiki link holds no whitespace and ends in `.md`. */
  lemma WikiTargetShape(name: string)
    requires !(StartsWith(name, "_") && EndsWith(name, "_"))
    ensures var r := WikiReplacement("[[" + name + "]]", name);
      exists display: string, file: string ::
        r == "[" + display + "](" + file + ".md)" && forall i :: 0 <= i < |file| ==> !IsSpace(file[i])
  {
    var r := WikiReplacement("[[" + name + "]]", name);
    if '|' in name {
      var parts := Split(name, '|');
      assert r == "[" + Trim(parts[1]) + "](" + HyphenateSpaces(Trim(parts[0])) + ".md)";
    } else {
      assert r == "[" + Trim(name) + "](" + HyphenateSpaces(Trim(name)) + ".md)";
    }
  }

  // ---------------------------------------------------------------------------
  // Mentions and work items

  /** A mention match at `p` is `@` followed by the longest run of word characters there. */
  lemma MentionMatchIff(s: string, p: nat, user: string)
    requires p <= |s|
    ensures MatchAt(MentionRule, s, p) == Some(Hit(p + 1 + |user|, user)) <==>
      (StartsAt(s, "@" + user, p) && user != [] && (forall i :: 0 <= i < |user| ==> IsWordChar(user[i])) &&
       (p + 1 + |user| == |s| || !IsWordChar(s[p + 1 + |user|])))
  {
    RunMatchIff(s, p, '@', user, IsWordChar);
  }

  /** A work-item match at `p` is `#` followed by the longest run of digits there. */
  lemma WorkItemMatchIff(s: string, p: nat, id: string)
    requires p <= |s|
    ensures MatchAt(WorkItemRule, s, p) == Some(Hit(p + 1 + |id|, id)) <==>
      (StartsAt(s, "#" + id, p) && id != [] && (forall i :: 0 <= i < |id| ==> IsDigit(id[i])) &&
       (p + 1 + |id| == |s| || !IsDigit(s[p + 1 + |id|])))
  {
    RunMatchIff(s, p, '#', id, IsDigit);
  }

  lemma RunMatchIff(s: string, p: nat, sigil: char, w: string, isIn: char -> bool)
    requires p <= |s|
    ensures (p + 1 < |s| && s[p] == sigil && isIn(s[p + 1]) &&
             RunEnd(s, p + 1, isIn) == p + 1 + |w| && s[p + 1..RunEnd(s, p + 1, isIn)] == w) <==>
      (StartsAt(s, [sigil] + w, p) && w != [] && (forall i :: 0 <= i < |w| ==> isIn(w[i])) &&
       (p + 1 + |w| == |s| || !isIn(s[p + 1 + |w|])))
  {
    var lit := [sigil] + w;
    if StartsAt(s, lit, p) && w != [] && (forall i :: 0 <= i < |w| ==> isIn(w[i])) &&
       (p + 1 + |w| == |s| || !isIn(s[p + 1 + |w|]))
    {
      assert s[p] == lit[0] && s[p + 1] == lit[1];
      assert s[p + 1..p + 1 + |w|] == w by {
        assert forall j :: p + 1 <= j < p + 1 + |w| ==> s[j] == lit[j - p];
      }
      RunEndIs(s, p + 1, p + 1 + |w|, isIn);
    }
    if p + 1 < |s| && s[p] == sigil && isIn(s[p + 1]) &&
       RunEnd(s, p + 1, isIn) == p + 1 + |w| && s[p + 1..RunEnd(s, p + 1, isIn)] == w
    {
      assert s[p..p + |lit|] == [s[p]] + s[p + 1..p + 1 + |w|];
      assert forall i :: 0 <= i < |w| ==> w[i] == s[p + 1 + i];
    }
  }

  lemma {:induction false} RunEndIs(s: string, i: nat, e: nat, isIn: char -> bool)
    requires i <= e <= |s|
    requires forall j :: i <= j < e ==> isIn(s[j])
    requires e == |s| || !isIn(s[e])
    ensures RunEnd(s, i, isIn) == e
    decreases e - i
  {
    if i < e {
      RunEndIs(s, i + 1, e, isIn);
    }
  }

  // ---------------------------------------------------------------------------
  // Diagrams

  /** Diagrams numbered differently within a call get different ids, whatever the clock reads. */
  lemma MermaidIdsDistinct(t1: nat, k1: nat, t2: nat, k2: nat)
    requires k1 != k2
    ensures MermaidId(t1, k1) != MermaidId(t2, k2)
  {
    var a, b := NatToString(k1), NatToString(k2);
    var x, y := MermaidId(t1, k1), MermaidId(t2, k2);
    IdEndsWithCounter(t1, k1);
    IdEndsWithCounter(t2, k2);
    if x == y && |a| == |b| {
      NatToStringInjective(k1, k2);
    }
  }

  /** An id ends with `-` and then the counter's digits. */
  lemma IdEndsWithCounter(t: nat, k: nat)
    ensures var x, a := MermaidId(t, k), NatToString(k);
      |a| < |x| && x[|x| - |a| - 1] == '-' && x[|x| - |a|..] == a &&
      forall i :: |x| - |a| <= i < |x| ==> IsDigit(x[i])
  {
    var x, a := MermaidId(t, k), NatToString(k);
    NatToStringDigits(k);
    assert x == ("mermaid-" + NatToString(t)) + "-" + a;
  }

  /** `s` opens with `:::`, whitespace up to `o`, and `mermaid` in any case at `o`. */
  predicate OpensFence(s: string, o: nat) {
    StartsAt(s, ":::", 0) && 3 <= o && StartsAtLower(s, "mermaid", o) &&
    (forall j :: 3 <= j < o ==> IsSpace(s[j])) && !IsSpace(s[o])
  }

  /**
   * A terminated block becomes one diagram div holding the trimmed body, with
   * the first id of the call. The opening fence is `:::`, optional whitespace,
   * `mermaid` in any case, optional whitespace and a line feed; no `:::` may
   * start inside the body or overlap the closing fence.
   */
  lemma MermaidBlock(w: string, m: string, t: string, body: string, clock: nat -> nat)
    requires IsBlank(w) && IsBlank(t) && Lower(m) == "mermaid"
    requires !Contains(body + "::", ":::")
    ensures ApplyRule(MermaidRule, ":::" + w + m + t + "\n" + body + ":::", clock) ==
      "\n<div class=\"mermaid-diagram\" id=\"" + MermaidId(clock(0), 0) + "\">\n" + Trim(body) + "\n</div>\n"
  {
    var s := ":::" + w + m + t + "\n" + body + ":::";
    var o := 3 + |w|;
    var k := o + 7 + |t|;
    FenceOpens(w, m, t, body);
    MermaidBlockAt(s, o, k, body, clock);
  }

  /** The same, on a text that opens with `:::`, finds `mermaid` at `o` and ends the fence line at `k`. */
  lemma MermaidBlockAt(s: string, o: nat, k: nat, body: string, clock: nat -> nat)
    requires OpensFence(s, o)
    requires o + 7 <= k < |s| && s[k] == '\n' && forall j :: o + 7 <= j < k ==> IsSpace(s[j])
    requires s[k + 1..] == body + ":::"
    requires !Contains(body + "::", ":::")
    ensures ApplyRule(MermaidRule, s, clock) ==
      "\n<div class=\"mermaid-diagram\" id=\"" + MermaidId(clock(0), 0) + "\">\n" + Trim(body) + "\n</div>\n"
  {
    BodyCloses(s, k + 1, body);
    MermaidBlockFound(s, o, k, body, clock);
  }

  /** The same, once the closing fence is known to be the first `:::` after the fence line. */
  lemma MermaidBlockFound(s: string, o: nat, k: nat, body: string, clock: nat -> nat)
    requires OpensFence(s, o)
    requires o + 7 <= k && k + 1 <= |s| - 3 && s[k] == '\n' && forall j :: o + 7 <= j < k ==> IsSpace(s[j])
    requires StartsAt(s, ":::", |s| - 3) && s[k + 1..|s| - 3] == body
    requires forall j :: k + 1 <= j < |s| - 3 ==> !StartsAt(s, ":::", j)
    ensures ApplyRule(MermaidRule, s, clock) ==
      "\n<div class=\"mermaid-diagram\" id=\"" + MermaidId(clock(0), 0) + "\">\n" + Trim(body) + "\n</div>\n"
  {
    FindFromAt(s, ":::", k + 1, |s| - 3);
    var n, cap := MermaidFenced(s, o, k, clock);
    FenceBodyTrim(s, k, n, body, cap);
    SameDiv(ApplyRule(MermaidRule, s, clock), MermaidId(clock(0), 0), Trim(cap), Trim(body));
  }

  lemma FenceBodyTrim(s: string, k: nat, n: nat, body: string, cap: string)
    requires k <= n < |s| - 3 && (forall j :: k < j <= n ==> IsSpace(s[j])) && cap == s[n + 1..|s| - 3]
    requires s[k + 1..|s| - 3] == body
    ensures Trim(cap) == Trim(body)
  {
    BlankHead(s, k + 1, n, body, cap);
  }

  lemma SameDiv(out: string, id: string, a: string, b: string)
    requires out == "\n<div class=\"mermaid-diagram\" id=\"" + id + "\">\n" + a + "\n</div>\n" && a == b
    ensures out == "\n<div class=\"mermaid-diagram\" id=\"" + id + "\">\n" + b + "\n</div>\n"
  {
  }

  /** After the fence line, the body runs up to the closing fence and no `:::` starts before it. */
  lemma BodyCloses(s: string, q: nat, body: string)
    requires q <= |s| && s[q..] == body + ":::"
    requires !Contains(body + "::", ":::")
    ensures q + |body| + 3 == |s| && StartsAt(s, ":::", |s| - 3) && s[q..|s| - 3] == body
    ensures forall j :: q <= j < |s| - 3 ==> !StartsAt(s, ":::", j)
  {
    var c := q + |body|;
    var u := body + "::";
    assert s[c..c + 3] == s[q..][|body|..];
    forall j | q <= j < c ensures !StartsAt(s, ":::", j) {
      assert s[j..j + 3] == s[q..][j - q..j - q + 3];
      assert s[q..][j - q..j - q + 3] == u[j - q..j - q + 3];
      ContainsAt(u, ":::", j - q);
    }
    assert s[q..|s| - 3] == s[q..][..|body|];
  }

  /** A blank head of the body, cut off by the fence line's last line feed, does not change the trimmed body. */
  lemma BlankHead(s: string, q: nat, n: nat, body: string, cap: string)
    requires q <= n + 1 <= |s| - 3 && s[q..|s| - 3] == body
    requires (forall j :: q <= j <= n ==> IsSpace(s[j])) && cap == s[n + 1..|s| - 3]
    ensures Trim(cap) == Trim(body)
  {
    var d := n + 1 - q;
    var blank := body[..d];
    forall i | 0 <= i < |blank| ensures IsSpace(blank[i]) {
      assert blank[i] == s[q + i];
    }
    assert body[d..] == cap;
    TrimBlankPrefix(body, d);
  }

  /** `trim` drops a blank prefix along with the rest of the leading whitespace. */
  lemma TrimBlankPrefix(body: string, d: nat)
    requires d <= |body| && IsBlank(body[..d])
    ensures Trim(body[d..]) == Trim(body)
  {
    assert body[..d] + body[d..] == body;
    TrimStartBlank(body[..d], body[d..]);
  }

  /**
   * A text that opens with a fence line ending with the line feed at `k`, and
   * whose first `:::` after it is its last three characters, is replaced by one
   * diagram div with the first id. The div holds the trimmed text after the
   * last line feed `n` of the whitespace run that follows `mermaid`; between
   * `k` and `n` there is only whitespace.
   */
  lemma MermaidFenced(s: string, o: nat, k: nat, clock: nat -> nat) returns (n: nat, cap: string)
    requires OpensFence(s, o)
    requires o + 7 <= k && k + 1 <= |s| - 3 && s[k] == '\n' && forall j :: o + 7 <= j < k ==> IsSpace(s[j])
    requires FindFrom(s, ":::", k + 1) == Some(|s| - 3)
    ensures k <= n < |s| - 3 && (forall j :: k < j <= n ==> IsSpace(s[j])) && cap == s[n + 1..|s| - 3]
    ensures ApplyRule(MermaidRule, s, clock) ==
      "\n<div class=\"mermaid-diagram\" id=\"" + MermaidId(clock(0), 0) + "\">\n" + Trim(cap) + "\n</div>\n"
  {
    n := FencedBody(s, o, k);
    cap := LazyBody(s, k, n);
    MermaidApplied(s, o, n, cap, clock);
  }

  /** The fence line's whitespace run ends with the line feed `n`, at or after `k`. */
  lemma FencedBody(s: string, o: nat, k: nat) returns (n: nat)
    requires o + 7 <= k && k + 1 <= |s| - 3 && s[k] == '\n' && forall j :: o + 7 <= j < k ==> IsSpace(s[j])
    requires FindFrom(s, ":::", k + 1) == Some(|s| - 3)
    ensures LastNewline(s, o + 7, RunEnd(s, o + 7, IsSpace)) == Some(n)
    ensures k <= n < |s| - 3 && forall j :: k < j <= n ==> IsSpace(s[j])
  {
    FenceChars(s, |s| - 3);
    n := FenceRun(s, o + 7, k, |s| - 3);
  }

  /** The last line feed `n` of the whitespace run from `a` is at or after `k`, and what lies between is blank. */
  lemma FenceRun(s: string, a: nat, k: nat, c: nat) returns (n: nat)
    requires a <= k < c < |s| && s[k] == '\n' && !IsSpace(s[c])
    requires forall j :: a <= j < k ==> IsSpace(s[j])
    ensures LastNewline(s, a, RunEnd(s, a, IsSpace)) == Some(n)
    ensures k <= n < c && forall j :: k < j <= n ==> IsSpace(s[j])
  {
    FenceLine(s, a, k, c);
    n := LastNewline(s, a, RunEnd(s, a, IsSpace)).value;
  }

  /** The lazy body from inside the block runs up to the closing fence and the match ends just after it. */
  lemma LazyBody(s: string, k: nat, n: nat) returns (cap: string)
    requires k <= n < |s| - 3 && FindFrom(s, ":::", k + 1) == Some(|s| - 3)
    ensures n + 1 <= |s| && MermaidBody(s, n + 1).Some? && MermaidBody(s, n + 1).value.end == |s|
    ensures MermaidBody(s, n + 1).value.capture == cap && cap == s[n + 1..|s| - 3]
  {
    FindFromLater(s, ":::", k + 1, n + 1, |s| - 3);
    cap := s[n + 1..|s| - 3];
  }

  /** The first occurrence from `from` is also the first from any later start up to it. */
  lemma FindFromLater(s: string, p: string, from: nat, later: nat, c: nat)
    requires FindFrom(s, p, from) == Some(c) && from <= later <= c
    ensures FindFrom(s, p, later) == Some(c)
  {
    FindFromAt(s, p, later, c);
  }

  /** A text the block pattern matches whole, with the lazy body `capture`, becomes one diagram div. */
  lemma MermaidApplied(s: string, o: nat, n: nat, capture: string, clock: nat -> nat)
    requires OpensFence(s, o)
    requires LastNewline(s, o + 7, RunEnd(s, o + 7, IsSpace)) == Some(n)
    requires n + 1 <= |s| && MermaidBody(s, n + 1).Some?
    requires MermaidBody(s, n + 1).value.end == |s| && MermaidBody(s, n + 1).value.capture == capture
    ensures ApplyRule(MermaidRule, s, clock) ==
      "\n<div class=\"mermaid-diagram\" id=\"" + MermaidId(clock(0), 0) + "\">\n" + Trim(capture) + "\n</div>\n"
  {
    MermaidMatchWhole(s, o, n, capture);
    WholeMatch(s, clock);
  }

  /** The block pattern matches the whole of `s` and captures `capture`. */
  lemma MermaidMatchWhole(s: string, o: nat, n: nat, capture: string)
    requires OpensFence(s, o)
    requires LastNewline(s, o + 7, RunEnd(s, o + 7, IsSpace)) == Some(n)
    requires n + 1 <= |s| && MermaidBody(s, n + 1).Some?
    requires MermaidBody(s, n + 1).value.end == |s| && MermaidBody(s, n + 1).value.capture == capture
    ensures MatchAt(MermaidRule, s, 0).Some? && MatchAt(MermaidRule, s, 0).value.end == |s|
    ensures MatchAt(MermaidRule, s, 0).value.capture == capture
  {
    MermaidMatchBody(s, o, n, n + 1);
  }

  /** The fence line matched, the match is the lazy body from after the line feed at `n`. */
  lemma MermaidMatchBody(s: string, o: nat, n: nat, start: nat)
    requires OpensFence(s, o)
    requires LastNewline(s, o + 7, RunEnd(s, o + 7, IsSpace)) == Some(n) && start == n + 1
    ensures MatchAt(MermaidRule, s, 0) == MermaidBody(s, start)
  {
    RunEndIs(s, 3, o, IsSpace);
    MermaidFence(s);
    MermaidWordLine(s, o);
    MermaidLineBody(s, o + 7, RunEnd(s, o + 7, IsSpace), n);
  }

  lemma MermaidFence(s: string)
    requires StartsAt(s, ":::", 0)
    ensures MatchAt(MermaidRule, s, 0) == MermaidWord(s, RunEnd(s, 3, IsSpace))
  {
  }

  lemma MermaidWordLine(s: string, o: nat)
    requires o <= |s| && StartsAtLower(s, "mermaid", o)
    ensures MermaidWord(s, o) == MermaidLine(s, o + 7, RunEnd(s, o + 7, IsSpace))
  {
  }

  lemma MermaidLineBody(s: string, a: nat, b: nat, n: nat)
    requires a <= b <= |s| && LastNewline(s, a, b) == Some(n)
    ensures MermaidLine(s, a, b) == MermaidBody(s, n + 1)
  {
  }

  lemma FenceOpens(w: string, m: string, t: string, body: string)
    requires IsBlank(w) && IsBlank(t) && Lower(m) == "mermaid"
    ensures var s, o := ":::" + w + m + t + "\n" + body + ":::", 3 + |w|;
      OpensFence(s, o) &&
      s[o + 7 + |t|] == '\n' && (forall j :: o + 7 <= j < o + 7 + |t| ==> IsSpace(s[j])) &&
      s[o + 8 + |t|..] == body + ":::"
  {
    var head, rest := ":::" + w + m, t + "\n" + body + ":::";
    FenceWord(w, m, rest);
    Regroup(head, t, body);
    FenceTail(head, t, body);
  }

  lemma Regroup(head: string, t: string, body: string)
    ensures head + t + "\n" + body + ":::" == head + (t + "\n" + body + ":::")
  {
  }

  /** `:::`, whitespace and `mermaid` in any case. */
  lemma FenceWord(w: string, m: string, rest: string)
    requires IsBlank(w) && Lower(m) == "mermaid"
    ensures |m| == 7
    ensures var s, o := ":::" + w + m + rest, 3 + |w|;
      OpensFence(s, o)
  {
    var s, o := ":::" + w + m + rest, 3 + |w|;
    assert |m| == 7 && Lower(m)[0] == LowerChar(m[0]);
    assert s[0..3] == ":::";
    forall j | 3 <= j < o ensures IsSpace(s[j]) {
      assert s[j] == w[j - 3];
    }
    assert s[o] == m[0];
    assert s[o..o + 7] == m;
    EqualsLowerIsEqual(m, "mermaid");
  }

  /** Whitespace, the line feed that ends the fence line, then the body and the closing fence. */
  lemma FenceTail(head: string, t: string, body: string)
    requires IsBlank(t)
    ensures var s, o := head + t + "\n" + body + ":::", |head|;
      s[o + |t|] == '\n' && (forall j :: o <= j < o + |t| ==> IsSpace(s[j])) &&
      s[o + 1 + |t|..] == body + ":::"
  {
    var s, o := head + t + "\n" + body + ":::", |head|;
    forall j | o <= j < o + |t| ensures IsSpace(s[j]) {
      assert s[j] == t[j - o];
    }
    assert s[o + 1 + |t|..] == body + ":::";
  }

  /** The whitespace run from `a` passes the line feed at `k`, so the last line feed in it is at `k` or later. */
  lemma FenceLine(s: string, a: nat, k: nat, c: nat)
    requires a <= k < c < |s| && s[k] == '\n' && !IsSpace(s[c])
    requires forall j :: a <= j < k ==> IsSpace(s[j])
    ensures k < RunEnd(s, a, IsSpace) <= c
    ensures LastNewline(s, a, RunEnd(s, a, IsSpace)).Some?
    ensures k <= LastNewline(s, a, RunEnd(s, a, IsSpace)).value
  {
    assert IsSpace(s[k]);
  }

  lemma {:induction false} FindFromAt(s: string, p: string, from: nat, k: nat)
    requires from <= k && StartsAt(s, p, k) && forall j :: from <= j < k ==> !StartsAt(s, p, j)
    ensures FindFrom(s, p, from) == Some(k)
    decreases k - from
  {
    if from < k {
      FindFromAt(s, p, from + 1, k);
    }
  }

  /** A diagram fence that is never closed is left as literal text. */
  lemma UnterminatedMermaidKept(rest: string, clock: nat -> nat)
    requires !Contains(rest, ":::")
    ensures ApplyRule(MermaidRule, ":::mermaid\n" + rest, clock) == ":::mermaid\n" + rest
  {
    var s := ":::mermaid\n" + rest;
    forall j | 1 <= j < |s| ensures !StartsAt(s, ":::", j) {
      if j >= 11 {
        assert StartsAt(s, ":::", j) ==> StartsAt(rest, ":::", j - 11) by {
          if StartsAt(s, ":::", j) { assert s[j..j + 3] == rest[j - 11..j - 8]; }
        }
        ContainsAt(rest, ":::", j - 11);
      } else {
        FenceChars(s, j);
      }
    }
    assert MermaidMatch(s, 0).None?;
    InertUnchanged(MermaidRule, s, clock);
  }

  /**
   * A text whose only `:::` is at `p` is left as it is: whatever opens at `p`,
   * there is no `:::` after it to close a diagram.
   */
  lemma OneFenceKept(s: string, p: nat, clock: nat -> nat)
    requires forall j :: 0 <= j < |s| && StartsAt(s, ":::", j) ==> j == p
    ensures ApplyRule(MermaidRule, s, clock) == s
  {
    forall j | 0 <= j < |s| ensures MatchAt(MermaidRule, s, j).None? {
      if j == p {
        UnclosedFence(s, p);
      }
    }
    InertUnchanged(MermaidRule, s, clock);
  }

  /** A fence at `p` with no `:::` after it opens no diagram. */
  lemma UnclosedFence(s: string, p: nat)
    requires p <= |s| && forall j :: p < j < |s| ==> !StartsAt(s, ":::", j)
    ensures MermaidMatch(s, p).None?
  {
    if StartsAt(s, ":::", p) {
      var a := RunEnd(s, p + 3, IsSpace);
      if StartsAtLower(s, "mermaid", a) {
        var b := RunEnd(s, a + 7, IsSpace);
        match LastNewline(s, a + 7, b)
        case None =>
        case Some(n) =>
          assert FindFrom(s, ":::", n + 1).None?;
      }
    }
  }

  lemma FenceChars(s: string, j: nat)
    ensures StartsAt(s, ":::", j) ==> s[j] == ':' && s[j + 1] == ':' && s[j + 2] == ':'
  {
    if StartsAt(s, ":::", j) {
      assert s[j..j + 3][0] == s[j] && s[j..j + 3][1] == s[j + 1] && s[j..j + 3][2] == s[j + 2];
    }
  }

  // ---------------------------------------------------------------------------
  // Examples and the attachment rule

  /** No `]]` anywhere in the text. */
  predicate NoDoubleClose(s: string) {
    forall j :: 0 <= j < |s| - 1 ==> !(s[j] == ']' && s[j + 1] == ']')
  }

  /** Neither bracket rule can match text without `]]`. */
  lemma NoDoubleCloseInert(s: string)
    requires NoDoubleClose(s)
    ensures Inert(WikiRule, s) && Inert(AttachmentRule, s)
  {
    forall j | 0 <= j < |s| ensures MatchAt(WikiRule, s, j).None? && MatchAt(AttachmentRule, s, j).None? {
      ClosesAt(s, j);
    }
  }

  lemma ClosesAt(s: string, j: nat)
    requires j <= |s|
    ensures MatchAt(WikiRule, s, j).Some? ==>
      var e := MatchAt(WikiRule, s, j).value.end; s[e - 2] == ']' && s[e - 1] == ']'
    ensures MatchAt(AttachmentRule, s, j).Some? ==>
      var e := MatchAt(AttachmentRule, s, j).value.end; s[e - 2] == ']' && s[e - 1] == ']'
  {
    WikiClosesAt(s, j);
    AttachmentClosesAt(s, j);
  }

  lemma WikiClosesAt(s: string, j: nat)
    requires j <= |s|
    ensures MatchAt(WikiRule, s, j).Some? ==>
      var e := MatchAt(WikiRule, s, j).value.end; s[e - 2] == ']' && s[e - 1] == ']'
  {
    var w := MatchAt(WikiRule, s, j);
    if w.Some? { OpensWith(s, "]]", w.value.end - 2); }
  }

  lemma AttachmentClosesAt(s: string, j: nat)
    requires j <= |s|
    ensures MatchAt(AttachmentRule, s, j).Some? ==>
      var e := MatchAt(AttachmentRule, s, j).value.end; s[e - 2] == ']' && s[e - 1] == ']'
  {
    var a := MatchAt(AttachmentRule, s, j);
    if a.Some? { OpensWith(s, "]]", a.value.end - 2); }
  }

  lemma LinkHasNoDoubleClose(a: string, b: string)
    requires ']' !in a && ']' !in b
    ensures NoDoubleClose(a + "](" + b)
  {
    var s := a + "](" + b;
    forall j | 0 <= j < |s| - 1 ensures !(s[j] == ']' && s[j + 1] == ']') {
      if j < |a| { assert s[j] == a[j]; }
      else if j == |a| { assert s[j + 1] == '('; }
      else if j == |a| + 1 { assert s[j] == '('; }
      else { assert s[j] == b[j - |a| - 2]; }
    }
  }

  /**
   * `[[attachment:f]]` is taken by the wiki-link rule, which runs first: it
   * becomes a link to the page `attachment:f` (trimmed, with whitespace runs
   * turned into `-`, then `.md`), and the attachment rule then finds nothing
   * to match.
   */
  lemma AttachmentTakenByWikiRule(f: string, clock: nat -> nat)
    requires f != [] && ']' !in f && '|' !in f
    ensures var target := "attachment:" + f;
      var linked := ApplyRule(WikiRule, "[[" + target + "]]", clock);
      linked == "[" + Trim(target) + "](" + HyphenateSpaces(Trim(target)) + ".md)" &&
      ApplyRule(AttachmentRule, linked, clock) == linked
  {
    var target := "attachment:" + f;
    AttachmentAsPageLink(f, target, clock);
    var text := Trim(target);
    assert ']' !in text && ']' !in HyphenateSpaces(text) by {
      TrimChars(target);
      HyphenateChars(text);
    }
    LinkInert(text, HyphenateSpaces(text), clock);
  }

  lemma AttachmentAsPageLink(f: string, target: string, clock: nat -> nat)
    requires f != [] && ']' !in f && '|' !in f && target == "attachment:" + f
    ensures ']' !in target
    ensures ApplyRule(WikiRule, "[[" + target + "]]", clock) ==
      "[" + Trim(target) + "](" + HyphenateSpaces(Trim(target)) + ".md)"
  {
    assert ']' !in target && '|' !in target && target[0] == 'a';
    PageLink(target, clock);
  }

  /** A markdown link whose text and file hold no `]` gives the attachment rule nothing to match. */
  lemma LinkInert(text: string, file: string, clock: nat -> nat)
    requires ']' !in text && ']' !in file
    ensures var linked := "[" + text + "](" + file + ".md)";
      ApplyRule(AttachmentRule, linked, clock) == linked
  {
    var linked := "[" + text + "](" + file + ".md)";
    LinkHasNoDoubleClose("[" + text, file + ".md)");
    assert linked == ("[" + text) + "](" + (file + ".md)");
    NoDoubleCloseInert(linked);
    InertUnchanged(AttachmentRule, linked, clock);
  }

  /** The first three characters of a case-insensitive match. */
  lemma LowerPrefix3(s: string, lit: string, p: nat)
    requires |lit| >= 3
    ensures StartsAtLower(s, lit, p) ==>
      LowerChar(s[p]) == lit[0] && LowerChar(s[p + 1]) == lit[1] && LowerChar(s[p + 2]) == lit[2]
  {
    if StartsAtLower(s, lit, p) {
      var w := s[p..p + |lit|];
      EqualsLowerIsEqual(w, lit);
      assert Lower(w)[0] == LowerChar(s[p]) && Lower(w)[1] == LowerChar(s[p + 1]) && Lower(w)[2] == LowerChar(s[p + 2]);
    }
  }

  /**
   * The attachment rule does fire on an attachment macro nested in a
   * `[[_..._]]` marker, which the wiki-link rule leaves alone: in
   * `[[_[[attachment:f]]` with `f` ending in `_`, both rules end at the same
   * closing brackets.
   */
  lemma NestedAttachmentFires(f: string, clock: nat -> nat)
    requires f != [] && ']' !in f && f[|f| - 1] == '_'
    ensures var macro := "[[attachment:" + f + "]]";
      var s := "[[_" + macro;
      ApplyRule(WikiRule, s, clock) == s &&
      ApplyRule(AttachmentRule, s, clock) == "[[_" + Replacement(AttachmentRule, macro, f, clock, 0)
  {
    var macro := "[[attachment:" + f + "]]";
    var s := "[[_" + macro;
    var name := "_[[attachment:" + f;
    NestedAsWiki(f, name, macro, s);
    SpecialMarkerKept(name, clock);
    NestedAttachmentMatch(s, f, macro);
    FirstMatch(AttachmentRule, s, 3, |s|, clock);
  }

  lemma NestedAsWiki(f: string, name: string, macro: string, s: string)
    requires f != [] && ']' !in f && f[|f| - 1] == '_'
    requires macro == "[[attachment:" + f + "]]" && s == "[[_" + macro && name == "_[[attachment:" + f
    ensures s == "[[" + name + "]]"
    ensures name != [] && ']' !in name && name[0] == '_' && name[|name| - 1] == '_'
  {
    assert name[|name| - 1] == f[|f| - 1];
  }

  lemma NestedAttachmentMatch(s: string, f: string, macro: string)
    requires f != [] && ']' !in f
    requires macro == "[[attachment:" + f + "]]" && s == "[[_" + macro
    ensures forall j :: 0 <= j < 3 ==> MatchAt(AttachmentRule, s, j).None?
    ensures MatchAt(AttachmentRule, s, 3) == Some(Hit(|s|, f)) && s[..3] == "[[_" && s[3..|s|] == macro
  {
    NestedNoEarlierMatch(s, f, macro);
    NestedMatchAt3(s, f, macro);
  }

  lemma NestedNoEarlierMatch(s: string, f: string, macro: string)
    requires macro == "[[attachment:" + f + "]]" && s == "[[_" + macro
    ensures forall j :: 0 <= j < 3 ==> !StartsAtLower(s, "[[attachment:", j)
  {
    assert s[2] == '_';
    forall j | 0 <= j < 3 ensures !StartsAtLower(s, "[[attachment:", j) {
      LowerPrefix3(s, "[[attachment:", j);
    }
  }

  lemma NestedMatchAt3(s: string, f: string, macro: string)
    requires f != [] && ']' !in f
    requires macro == "[[attachment:" + f + "]]" && s == "[[_" + macro
    ensures StartsAtLower(s, "[[attachment:", 3) && BracketMatch(s, 3, 16) == Some(Hit(|s|, f))
  {
    var lit := "[[attachment:";
    assert s[3..16] == lit;
    EqualsLowerIsEqual(lit, lit);
    FindCharFrom(s, ']', 16, 16 + |f|);
    assert s[16..16 + |f|] == f;
  }

  // ---------------------------------------------------------------------------
  // A macro the wiki-link rule rebuilds

  /**
   * `[[[[attachment:f]]]]`: the wiki-link rule takes `[[attachment:f` as the
   * page name, links it and copies the last `]]`; the attachment rule then
   * finds `[[attachment:f.md)]]` in the file part of that link and replaces it.
   */
  lemma RebuiltAttachmentFires(f: string, clock: nat -> nat)
    requires f != [] && '[' !in f && ']' !in f && '|' !in f
    requires forall i :: 0 <= i < |f| ==> !IsSpace(f[i])
    ensures var name := "[[attachment:" + f;
      var linked := "[" + name + "](" + name + ".md)]]";
      ApplyRule(WikiRule, "[[" + name + "]]]]", clock) == linked &&
      ApplyRule(AttachmentRule, linked, clock) ==
        "[" + name + "](" + Replacement(AttachmentRule, "[[attachment:" + f + ".md)]]", f + ".md)", clock, 0)
  {
    var name := "[[attachment:" + f;
    RebuiltAsWiki(f, name, clock);
    RebuiltAttachment(f, name, clock);
  }

  /** The wiki-link rule links the page `[[attachment:f` and copies the `]]` after it. */
  lemma RebuiltAsWiki(f: string, name: string, clock: nat -> nat)
    requires f != [] && ']' !in f && '|' !in f && name == "[[attachment:" + f
    requires forall i :: 0 <= i < |f| ==> !IsSpace(f[i])
    ensures ApplyRule(WikiRule, "[[" + name + "]]]]", clock) == "[" + name + "](" + name + ".md)]]"
  {
    var m := "[[" + name + "]]";
    assert "[[" + name + "]]]]" == m + "]]";
    RebuiltReplacement(f, name, m);
    WikiThenCloses(m + "]]", m, name, clock);
  }

  /** A wiki macro followed by `]]`: the macro is replaced and the `]]` is copied. */
  lemma WikiThenCloses(s: string, m: string, name: string, clock: nat -> nat)
    requires name != [] && ']' !in name && m == "[[" + name + "]]" && s == m + "]]"
    ensures ApplyRule(WikiRule, s, clock) == WikiReplacement(m, name) + "]]"
  {
    assert s[..|m|] == m && s[|m|] == ']' && s[|m| + 1] == ']';
    WikiHeadMatch(s, m, name, clock);
    var k := |m|;
    TrailingCloses(s, k, clock);
  }

  /** The link written for the page `[[attachment:f`. */
  lemma RebuiltReplacement(f: string, name: string, m: string)
    requires f != [] && ']' !in f && '|' !in f && name == "[[attachment:" + f
    requires forall i :: 0 <= i < |f| ==> !IsSpace(f[i])
    ensures name != [] && ']' !in name
    ensures WikiReplacement(m, name) == "[" + name + "](" + name + ".md)"
  {
    RebuiltName(f, name);
  }

  /** A wiki macro `m` at the head of `s` is the rule's first match. */
  lemma WikiHeadMatch(s: string, m: string, name: string, clock: nat -> nat)
    requires name != [] && ']' !in name && m == "[[" + name + "]]" && |m| <= |s| && s[..|m|] == m
    ensures ApplyRule(WikiRule, s, clock) == WikiReplacement(m, name) + ReplaceFrom(WikiRule, s, |m|, 1, clock)
  {
    assert s[0..|m|] == m;
    WikiMatchFound(s, 0, name);
    FirstMatch(WikiRule, s, 0, |m|, clock);
  }

  /** A closing `]]` at the end of the text is copied unchanged. */
  lemma TrailingCloses(s: string, k: nat, clock: nat -> nat)
    requires k + 2 == |s| && s[k] == ']' && s[k + 1] == ']'
    ensures ReplaceFrom(WikiRule, s, k, 1, clock) == "]]"
  {
    forall j | k <= j < |s| ensures MatchAt(WikiRule, s, j).None? {
      assert StartsAt(s, "[[", j) ==> s[j] == s[j..j + 2][0];
    }
    ScanSkips(WikiRule, s, k, |s|, 1, clock);
    assert s[k..|s|] == "]]";
  }

  /** `[[attachment:f` is an ordinary page name that trimming and hyphenation leave alone. */
  lemma RebuiltName(f: string, name: string)
    requires f != [] && ']' !in f && '|' !in f && name == "[[attachment:" + f
    requires forall i :: 0 <= i < |f| ==> !IsSpace(f[i])
    ensures name != [] && ']' !in name && '|' !in name && !StartsWith(name, "_")
    ensures Trim(name) == name && HyphenateSpaces(name) == name
  {
    var lit := "[[attachment:";
    assert ']' !in lit && '|' !in lit;
    assert name[0..1] != "_" by { assert name[0..1][0] == name[0] == '['; }
    LiteralNoSpace(lit);
    NoSpaceAppend(lit, f);
    assert name[|name| - 1] == f[|f| - 1];
  }

  lemma LiteralNoSpace(lit: string)
    requires lit == "[[attachment:"
    ensures forall i :: 0 <= i < |lit| ==> !IsSpace(lit[i])
  {
  }

  lemma NoSpaceAppend(a: string, b: string)
    requires forall i :: 0 <= i < |a| ==> !IsSpace(a[i])
    requires forall i :: 0 <= i < |b| ==> !IsSpace(b[i])
    ensures forall i :: 0 <= i < |a + b| ==> !IsSpace((a + b)[i])
  {
  }

  /** In the link, the only attachment match is the one in its file part. */
  lemma RebuiltAttachment(f: string, name: string, clock: nat -> nat)
    requires f != [] && '[' !in f && ']' !in f && name == "[[attachment:" + f
    ensures var linked := "[" + name + "](" + name + ".md)]]";
      ApplyRule(AttachmentRule, linked, clock) ==
        "[" + name + "](" + Replacement(AttachmentRule, "[[attachment:" + f + ".md)]]", f + ".md)", clock, 0)
  {
    var a := "[" + name + "](";
    var cap := f + ".md)";
    var b := "[[attachment:" + cap + "]]";
    var linked := a + b;
    assert linked == "[" + name + "](" + name + ".md)]]";
    assert linked[..|a|] == a && linked[|a|..] == b;
    NoAttachmentInText(f, a, linked);
    AttachmentAt(linked, |a|, cap);
    LastMatch(AttachmentRule, linked, |a|, cap, clock);
  }

  /** When the first match starts at `p` and runs to the end, the rule rewrites only that match. */
  lemma LastMatch(r: Rule, s: string, p: nat, cap: string, clock: nat -> nat)
    requires p <= |s|
    requires forall j :: 0 <= j < p ==> MatchAt(r, s, j).None?
    requires MatchAt(r, s, p) == Some(Hit(|s|, cap))
    ensures ApplyRule(r, s, clock) == s[..p] + Replacement(r, s[p..], cap, clock, 0)
  {
    FirstMatch(r, s, p, |s|, clock);
    var out := Replacement(r, s[p..|s|], cap, clock, 0);
    assert s[p..|s|] == s[p..];
    assert ReplaceFrom(r, s, |s|, 1, clock) == [];
    assert s[..p] + out + [] == s[..p] + out;
  }

  /** `[[attachment:cap]]` at `p`, running to the end of `s`, is an attachment match. */
  lemma AttachmentAt(s: string, p: nat, cap: string)
    requires cap != [] && ']' !in cap
    requires p <= |s| && s[p..] == "[[attachment:" + cap + "]]"
    ensures MatchAt(AttachmentRule, s, p) == Some(Hit(|s|, cap))
  {
    var lit := "[[attachment:";
    var e := p + 13 + |cap|;
    assert s[p..p + 13] == lit;
    EqualsLowerIsEqual(lit, lit);
    assert forall j :: p + 13 <= j < e ==> s[j] == cap[j - p - 13];
    assert s[e] == ']' && s[e + 1] == ']' && e + 2 == |s|;
    FindCharFrom(s, ']', p + 13, e);
    assert s[p + 13..e] == cap;
  }

  /** No attachment match starts in the text part `a` of the link. */
  lemma NoAttachmentInText(f: string, a: string, linked: string)
    requires f != [] && '[' !in f && ']' !in f && a == "[[[attachment:" + f + "]("
    requires |a| < |linked| && linked[..|a|] == a
    ensures forall j :: 0 <= j < |a| ==> MatchAt(AttachmentRule, linked, j).None?
  {
    var lit := "[[attachment:";
    assert linked[2] == '[' && linked[3] == 'a';
    forall j | 3 <= j < |a| ensures linked[j] != '[' {
      assert linked[j] == a[j];
      if 14 <= j < 14 + |f| { assert a[j] == f[j - 14]; }
    }
    forall j | 0 <= j < |a| ensures MatchAt(AttachmentRule, linked, j).None? {
      LowerPrefix3(linked, lit, j);
      if j == 1 {
        var e := 14 + |f|;
        assert forall k :: 14 <= k < e ==> linked[k] == f[k - 14];
        assert linked[e] == ']' && linked[e + 1] == '(';
        FindCharFrom(linked, ']', 14, e);
      }
    }
  }
}
