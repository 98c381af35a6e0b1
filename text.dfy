/** The optional value used wherever the source returns `null` or nothing. */
module Wrappers {
  datatype Option<+T> = None | Some(value: T)
}

/**
 * Character classes and string operations of JavaScript that the wiki viewer
 * relies on: the `\s`, `\w` and `\d` regular-expression classes, ASCII
 * `toLowerCase`, `trim`, `startsWith`/`endsWith`/`includes`/`indexOf`,
 * `split` on one character, `join`, and the decimal rendering of a number.
 */
module Text {
  import opened Wrappers

  /** Concatenation is associative. */
  lemma Assoc<T>(a: seq<T>, b: seq<T>, c: seq<T>)
    ensures a + b + c == a + (b + c)
  {
  }

  /** JavaScript's `\s` class (WhiteSpace and LineTerminator), also what `trim` strips. */
  predicate IsSpace(c: char) {
    c == ' ' || c == '\t' || c == '\n' || c == '\r' || c == '\U{000B}' || c == '\U{000C}' ||
    c == '\U{00A0}' || c == '\U{1680}' || ('\U{2000}' <= c <= '\U{200A}') ||
    c == '\U{2028}' || c == '\U{2029}' || c == '\U{202F}' || c == '\U{205F}' ||
    c == '\U{3000}' || c == '\U{FEFF}'
  }

  /** JavaScript's `\d` class. */
  predicate IsDigit(c: char) {
    '0' <= c <= '9'
  }

  /** JavaScript's `\w` class: ASCII letters, digits and underscore. */
  predicate IsWordChar(c: char) {
    ('a' <= c <= 'z') || ('A' <= c <= 'Z') || IsDigit(c) || c == '_'
  }

  function LowerChar(c: char): (r: char)
    ensures 'A' <= c <= 'Z' ==> 'a' <= r <= 'z'
    ensures !('A' <= c <= 'Z') ==> r == c
  {
    if 'A' <= c <= 'Z' then (c as int + 32) as char else c
  }

  /** `toLowerCase`, restricted to ASCII letters. */
  function Lower(s: string): (r: string)
    ensures |r| == |s|
    ensures forall i :: 0 <= i < |s| ==> r[i] == LowerChar(s[i])
  {
    seq(|s|, i requires 0 <= i < |s| => LowerChar(s[i]))
  }

  lemma LowerIdempotent(s: string)
    ensures Lower(Lower(s)) == Lower(s)
  {
  }

  lemma LowerAppend(a: string, b: string)
    ensures Lower(a + b) == Lower(a) + Lower(b)
  {
  }

  lemma LowerSuffix(s: string, i: nat)
    requires i <= |s|
    ensures Lower(s[i..]) == Lower(s)[i..]
  {
  }

  /**
   * `s.toLowerCase().endsWith(suffix)` for a lower-case `suffix`, checked one
   * character at a time from the end.
   */
  predicate EndsWithLower(s: string, suffix: string)
    decreases |suffix|
  {
    suffix == [] ||
    (|s| > 0 && LowerChar(s[|s| - 1]) == suffix[|suffix| - 1] &&
     EndsWithLower(s[..|s| - 1], suffix[..|suffix| - 1]))
  }

  lemma EndsWithLowerIsEndsWith(s: string, suffix: string)
    ensures EndsWithLower(s, suffix) <==> EndsWith(Lower(s), suffix)
  {
    EndsWithLowerChars(s, suffix);
    EndsWithChars(Lower(s), suffix);
  }

  lemma EndsWithChars(t: string, suffix: string)
    ensures EndsWith(t, suffix) <==>
      |suffix| <= |t| && forall i :: 0 <= i < |suffix| ==> t[|t| - |suffix| + i] == suffix[i]
  {
    if |suffix| <= |t| {
      var u := t[|t| - |suffix|..];
      assert forall i :: 0 <= i < |suffix| ==> u[i] == t[|t| - |suffix| + i];
    }
  }

  lemma {:induction false} EndsWithLowerChars(s: string, suffix: string)
    ensures EndsWithLower(s, suffix) <==>
      |suffix| <= |s| && forall i :: 0 <= i < |suffix| ==> LowerChar(s[|s| - |suffix| + i]) == suffix[i]
    decreases |suffix|
  {
    if suffix != [] && |s| > 0 {
      var s', suffix' := s[..|s| - 1], suffix[..|suffix| - 1];
      EndsWithLowerChars(s', suffix');
      assert forall j :: 0 <= j < |s'| ==> s'[j] == s[j];
      assert forall i :: 0 <= i < |suffix'| ==> suffix'[i] == suffix[i];
    }
  }

  /** `s.toLowerCase() === t` for a lower-case `t`. */
  predicate EqualsLower(s: string, t: string) {
    |s| == |t| && EndsWithLower(s, t)
  }

  lemma EqualsLowerIsEqual(s: string, t: string)
    ensures EqualsLower(s, t) <==> Lower(s) == t
  {
    EndsWithLowerIsEndsWith(s, t);
  }

  /** `s.startsWith(p, i)`: `p` occurs in `s` at index `i`. */
  predicate StartsAt(s: string, p: string, i: nat) {
    i + |p| <= |s| && s[i..i + |p|] == p
  }

  predicate StartsWith(s: string, p: string) {
    StartsAt(s, p, 0)
  }

  predicate EndsWith(s: string, p: string) {
    |p| <= |s| && s[|s| - |p|..] == p
  }

  /** `s.includes(p)`. */
  predicate Contains(s: string, p: string) {
    exists i :: 0 <= i <= |s| && StartsAt(s, p, i)
  }

  /** `s.indexOf(p, from)` as an option: the first occurrence at or after `from`. */
  function FindFrom(s: string, p: string, from: nat): (r: Option<nat>)
    ensures r.Some? ==> from <= r.value && StartsAt(s, p, r.value)
    ensures r.Some? ==> forall j :: from <= j < r.value ==> !StartsAt(s, p, j)
    ensures r.None? ==> forall j :: from <= j ==> !StartsAt(s, p, j)
    decreases |s| - from
  {
    if from + |p| > |s| then None
    else if s[from..from + |p|] == p then Some(from)
    else FindFrom(s, p, from + 1)
  }

  /** `s.indexOf(p)`: the first index at which `p` occurs, or -1. */
  function IndexOf(s: string, p: string): (r: int)
    ensures -1 <= r <= |s|
    ensures r == -1 <==> !Contains(s, p)
    ensures r >= 0 ==> StartsAt(s, p, r) && forall j :: 0 <= j < r ==> !StartsAt(s, p, j)
  {
    match FindFrom(s, p, 0)
    case Some(i) => i
    case None => -1
  }

  /** The first index of character `c` at or after `from`, if any. */
  function FindChar(s: string, c: char, from: nat): (r: Option<nat>)
    ensures r.Some? ==> from <= r.value < |s| && s[r.value] == c
    ensures r.Some? ==> forall j :: from <= j < r.value ==> s[j] != c
    ensures r.None? ==> forall j :: from <= j < |s| ==> s[j] != c
    decreases |s| - from
  {
    if from >= |s| then None
    else if s[from] == c then Some(from)
    else FindChar(s, c, from + 1)
  }

  /** `trimStart`. */
  function TrimStart(s: string): (r: string)
    ensures |r| <= |s| && r == s[|s| - |r|..]
    ensures forall i :: 0 <= i < |s| - |r| ==> IsSpace(s[i])
    ensures r == [] || !IsSpace(r[0])
  {
    if s != [] && IsSpace(s[0]) then TrimStart(s[1..]) else s
  }

  /** `trimEnd`. */
  function TrimEnd(s: string): (r: string)
    ensures |r| <= |s| && r == s[..|r|]
    ensures forall i :: |r| <= i < |s| ==> IsSpace(s[i])
    ensures r == [] || !IsSpace(r[|r| - 1])
  {
    if s != [] && IsSpace(s[|s| - 1]) then TrimEnd(s[..|s| - 1]) else s
  }

  /** `trim`: the longest infix of `s` that neither starts nor ends with whitespace. */
  function Trim(s: string): (r: string)
    ensures r == [] || (!IsSpace(r[0]) && !IsSpace(r[|r| - 1]))
    ensures (s == [] || (!IsSpace(s[0]) && !IsSpace(s[|s| - 1]))) ==> r == s
  {
    TrimEnd(TrimStart(s))
  }

  predicate IsBlank(s: string) {
    forall i :: 0 <= i < |s| ==> IsSpace(s[i])
  }

  /**
   * `trim` removes exactly the leading and the trailing run of whitespace: the
   * result is the infix `s[a..b]`, everything before `a` and from `b` on is
   * whitespace, and the result neither starts nor ends with whitespace.
   */
  lemma TrimStrips(s: string)
    ensures exists a: nat, b: nat :: (a <= b <= |s| && Trim(s) == s[a..b] &&
      (forall i :: 0 <= i < a ==> IsSpace(s[i])) && (forall i :: b <= i < |s| ==> IsSpace(s[i])))
    ensures Trim(s) == [] || (!IsSpace(Trim(s)[0]) && !IsSpace(Trim(s)[|Trim(s)| - 1]))
  {
    var t := TrimStart(s);
    var r := TrimEnd(t);
    var a := |s| - |t|;
    Infix(s, t, r, a);
    assert a <= a + |r| <= |s| && r == s[a..a + |r|] &&
      (forall i :: 0 <= i < a ==> IsSpace(s[i])) && (forall i :: a + |r| <= i < |s| ==> IsSpace(s[i]));
  }

  /** A prefix `r` of the suffix `t == s[a..]` is the infix of `s` from `a`. */
  lemma Infix(s: string, t: string, r: string, a: nat)
    requires a <= |s| && t == s[a..] && |r| <= |t| && r == t[..|r|]
    ensures s[a..a + |r|] == r
    ensures forall i :: a + |r| <= i < |s| ==> s[i] == t[i - a]
  {
  }

  /** Whitespace in front of `y` does not change where `trimStart` stops. */
  lemma {:induction false} TrimStartBlank(x: string, y: string)
    requires IsBlank(x)
    ensures TrimStart(x + y) == TrimStart(y)
    decreases |x|
  {
    if x != [] {
      assert (x + y)[1..] == x[1..] + y;
      TrimStartBlank(x[1..], y);
    } else {
      assert x + y == y;
    }
  }

  /** `trimStart` of a text with a non-space character only reaches into that text. */
  lemma {:induction false} TrimStartAppend(x: string, y: string)
    requires !IsBlank(x)
    ensures TrimStart(x + y) == TrimStart(x) + y
    decreases |x|
  {
    if IsSpace(x[0]) {
      assert (x + y)[1..] == x[1..] + y;
      TrimStartAppend(x[1..], y);
    }
  }

  lemma TrimEmptyIffBlank(s: string)
    ensures Trim(s) == [] <==> IsBlank(s)
  {
  }

  /** `s.replace(/\s+/g, '-')`: every maximal run of whitespace becomes one hyphen. */
  function HyphenateSpaces(s: string): (r: string)
    ensures forall i :: 0 <= i < |r| ==> !IsSpace(r[i])
    ensures (forall i :: 0 <= i < |s| ==> !IsSpace(s[i])) ==> r == s
    decreases |s|
  {
    if s == [] then []
    else if IsSpace(s[0]) then "-" + HyphenateSpaces(TrimStart(s))
    else [s[0]] + HyphenateSpaces(s[1..])
  }

  /**
   * Each maximal whitespace run becomes one `-`, and the text around it is
   * hyphenated in place: for a run `w` between a text `x` that does not end
   * with whitespace and a text `y` that does not start with it,
   * the result is the result for `x`, one `-`, then the result for `y`.
   */
  lemma HyphenateRun(x: string, w: string, y: string)
    requires x == [] || !IsSpace(x[|x| - 1])
    requires w != [] && IsBlank(w)
    requires y == [] || !IsSpace(y[0])
    ensures HyphenateSpaces(x + w + y) == HyphenateSpaces(x) + "-" + HyphenateSpaces(y)
  {
    Assoc(x, w, y);
    HyphenateAppend(x, w + y);
    HyphenateLeadingRun(w, y);
    Assoc(HyphenateSpaces(x), "-", HyphenateSpaces(y));
  }

  /** `replace(/\s+/g, '-')` writes only `-` and characters of its input other than whitespace. */
  lemma {:induction false} HyphenateChars(s: string)
    ensures forall c :: c in HyphenateSpaces(s) ==> c == '-' || (c in s && !IsSpace(c))
    decreases |s|
  {
    if s != [] {
      if IsSpace(s[0]) {
        var t := TrimStart(s);
        HyphenateChars(t);
        assert forall c :: c in t ==> c in s;
      } else {
        HyphenateChars(s[1..]);
        assert forall c :: c in s[1..] ==> c in s;
      }
    }
  }

  /** `trim` keeps only characters of its input. */
  lemma TrimChars(s: string)
    ensures forall c :: c in Trim(s) ==> c in s
  {
    var t := TrimStart(s);
    assert forall c :: c in t ==> c in s;
    assert forall c :: c in TrimEnd(t) ==> c in t;
  }

  /** No whitespace run crosses the end of a text that does not end with whitespace. */
  lemma {:induction false} HyphenateAppend(x: string, z: string)
    requires x == [] || !IsSpace(x[|x| - 1])
    ensures HyphenateSpaces(x + z) == HyphenateSpaces(x) + HyphenateSpaces(z)
    decreases |x|
  {
    if x == [] {
      assert x + z == z;
    } else if !IsSpace(x[0]) {
      HyphenateCons(x, z);
      HyphenateAppend(x[1..], z);
      Assoc([x[0]], HyphenateSpaces(x[1..]), HyphenateSpaces(z));
    } else {
      var t := TrimStart(x);
      assert t == x[|x| - |t|..];
      assert t != [] && t[|t| - 1] == x[|x| - 1];
      HyphenateSpaceFirst(x, z);
      HyphenateAppend(t, z);
      Assoc("-", HyphenateSpaces(t), HyphenateSpaces(z));
    }
  }

  /** A leading whitespace run becomes one `-`. */
  lemma HyphenateLeadingRun(w: string, y: string)
    requires w != [] && IsBlank(w)
    requires y == [] || !IsSpace(y[0])
    ensures HyphenateSpaces(w + y) == "-" + HyphenateSpaces(y)
  {
    assert (w + y)[0] == w[0];
    TrimStartBlank(w, y);
  }

  /** A leading character other than whitespace is kept. */
  lemma HyphenateCons(x: string, z: string)
    requires x != [] && !IsSpace(x[0])
    ensures HyphenateSpaces(x + z) == [x[0]] + HyphenateSpaces(x[1..] + z)
    ensures HyphenateSpaces(x) == [x[0]] + HyphenateSpaces(x[1..])
  {
    assert (x + z)[0] == x[0];
    assert (x + z)[1..] == x[1..] + z;
  }

  /** A text that opens with whitespace but is not blank hyphenates that run in front of the rest. */
  lemma HyphenateSpaceFirst(x: string, z: string)
    requires x != [] && IsSpace(x[0]) && !IsSpace(x[|x| - 1])
    ensures HyphenateSpaces(x + z) == "-" + HyphenateSpaces(TrimStart(x) + z)
    ensures HyphenateSpaces(x) == "-" + HyphenateSpaces(TrimStart(x))
  {
    assert (x + z)[0] == x[0];
    assert !IsBlank(x);
    TrimStartAppend(x, z);
  }

  /** `s.replace(/c/g, d)` for one character. */
  function ReplaceChar(s: string, c: char, d: char): (r: string)
    ensures |r| == |s|
    ensures forall i :: 0 <= i < |s| ==> r[i] == (if s[i] == c then d else s[i])
  {
    seq(|s|, i requires 0 <= i < |s| => if s[i] == c then d else s[i])
  }

  /** `parts.join(sep)`. */
  function Join(parts: seq<string>, sep: string): string
    decreases |parts|
  {
    if |parts| == 0 then ""
    else if |parts| == 1 then parts[0]
    else parts[0] + sep + Join(parts[1..], sep)
  }

  /** The pieces of `parts` written one after another, as a loop of `+=` builds them. */
  function Concat(parts: seq<string>): string {
    if parts == [] then "" else Concat(parts[..|parts| - 1]) + parts[|parts| - 1]
  }

  lemma ConcatSnoc(parts: seq<string>, i: nat)
    requires i < |parts|
    ensures Concat(parts[..i + 1]) == Concat(parts[..i]) + parts[i]
  {
    assert parts[..i + 1][..i] == parts[..i];
  }

  /** The text of a shorter prefix of `parts` is a prefix of the text of a longer one. */
  lemma {:induction false} ConcatPrefix(parts: seq<string>, i: nat, j: nat)
    requires i <= j <= |parts|
    ensures |Concat(parts[..i])| <= |Concat(parts[..j])|
    ensures Concat(parts[..i]) == Concat(parts[..j])[..|Concat(parts[..i])|]
    decreases j
  {
    if i < j {
      ConcatPrefix(parts, i, j - 1);
      ConcatSnoc(parts, j - 1);
    }
  }

  /** Piece `k` occurs where the pieces before it end. */
  lemma ConcatAt(parts: seq<string>, k: nat)
    requires k < |parts|
    ensures StartsAt(Concat(parts), parts[k], |Concat(parts[..k])|)
  {
    ConcatPrefix(parts, k + 1, |parts|);
    ConcatSnoc(parts, k);
    assert parts[..|parts|] == parts;
  }

  /** `s.split(sep)` for a one-character separator: the pieces between separators, in order. */
  function Split(s: string, sep: char): (parts: seq<string>)
    ensures |parts| >= 1
    ensures Join(parts, [sep]) == s
    ensures forall i :: 0 <= i < |parts| ==> sep !in parts[i]
    ensures sep !in s ==> parts == [s]
    decreases |s|
  {
    match FindChar(s, sep, 0)
    case None => [s]
    case Some(k) =>
      var rest := Split(s[k + 1..], sep);
      assert s == s[..k] + [sep] + s[k + 1..];
      [s[..k]] + rest
  }

  /** The first piece of `s.split(sep)` is everything before the first separator. */
  lemma SplitFirst(s: string, sep: char, k: nat)
    requires k <= |s| && sep !in s[..k] && (k == |s| || s[k] == sep)
    ensures Split(s, sep)[0] == s[..k]
  {
    var f := FindChar(s, sep, 0);
    if f.None? {
      assert s[..k] == s;
    }
  }

  lemma SplitCons(a: string, b: string, sep: char)
    requires sep !in a
    ensures Split(a + [sep] + b, sep) == [a] + Split(b, sep)
  {
    var s := a + [sep] + b;
    FindCharAt(s, sep, |a|);
    assert s[..|a|] == a;
    assert s[|a| + 1..] == b;
  }

  lemma FindCharAt(s: string, c: char, k: nat)
    requires k < |s| && s[k] == c && forall j :: 0 <= j < k ==> s[j] != c
    ensures FindChar(s, c, 0) == Some(k)
  {
    FindCharFrom(s, c, 0, k);
  }

  lemma {:induction false} FindCharFrom(s: string, c: char, from: nat, k: nat)
    requires from <= k < |s| && s[k] == c && forall j :: from <= j < k ==> s[j] != c
    ensures FindChar(s, c, from) == Some(k)
    decreases k - from
  {
    if from < k {
      FindCharFrom(s, c, from + 1, k);
    }
  }

  function DigitChar(d: nat): (c: char)
    requires d < 10
    ensures IsDigit(c)
  {
    ('0' as int + d) as char
  }

  /** `String(n)` for a natural number: its decimal digits, most significant first. */
  function NatToString(n: nat): string {
    if n < 10 then [DigitChar(n)] else NatToString(n / 10) + [DigitChar(n % 10)]
  }

  lemma {:induction false} NatToStringDigits(n: nat)
    ensures |NatToString(n)| >= 1
    ensures forall i :: 0 <= i < |NatToString(n)| ==> IsDigit(NatToString(n)[i])
  {
    if n >= 10 {
      NatToStringDigits(n / 10);
    }
  }

  /** The value of a string of decimal digits. */
  function ParseDigits(s: string): int {
    if s == [] then 0 else 10 * ParseDigits(s[..|s| - 1]) + (s[|s| - 1] as int - '0' as int)
  }

  lemma {:induction false} NatToStringRoundTrip(n: nat)
    ensures ParseDigits(NatToString(n)) == n
  {
    if n >= 10 {
      var s := NatToString(n);
      NatToStringRoundTrip(n / 10);
      assert s[..|s| - 1] == NatToString(n / 10);
    }
  }

  /** Distinct numbers have distinct decimal renderings. */
  lemma NatToStringInjective(m: nat, n: nat)
    requires m != n
    ensures NatToString(m) != NatToString(n)
  {
    NatToStringRoundTrip(m);
    NatToStringRoundTrip(n);
  }
}
