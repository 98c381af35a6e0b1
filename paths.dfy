/**
 * The parts of Node's POSIX `path` module the viewer uses. A path is read as
 * the list of its non-empty `/`-separated segments; `path.resolve` is
 * segment-list normalisation (`.` dropped, `..` pops, nothing above the root).
 */
module Paths {
  import opened Wrappers
  import opened Text

  /** The non-empty pieces of a `/`-separated path. */
  function Segments(p: string): (segs: seq<string>)
    ensures forall i :: 0 <= i < |segs| ==> segs[i] != "" && '/' !in segs[i]
  {
    NonEmpty(Split(p, '/'))
  }

  function NonEmpty(parts: seq<string>): (r: seq<string>)
    requires forall i :: 0 <= i < |parts| ==> '/' !in parts[i]
    ensures forall i :: 0 <= i < |r| ==> r[i] != "" && '/' !in r[i]
    ensures forall x :: x in r <==> x in parts && x != ""
  {
    if parts == [] then []
    else if parts[0] == "" then NonEmpty(parts[1..])
    else [parts[0]] + NonEmpty(parts[1..])
  }

  /** A segment that names an entry, not `.` or `..`. */
  predicate IsName(seg: string) {
    seg != "" && seg != "." && seg != ".." && '/' !in seg
  }

  predicate IsAbsolute(p: string) {
    |p| > 0 && p[0] == '/'
  }

  /** The absolute path spelled by a list of segments: `/` followed by them joined by `/`. */
  function PathOf(segs: seq<string>): string {
    "/" + Join(segs, "/")
  }

  /** One step of `path.normalize` over the segments seen so far. */
  function Step(stack: seq<string>, seg: string): seq<string> {
    if seg == "" || seg == "." then stack
    else if seg == ".." then (if stack == [] then [] else stack[..|stack| - 1])
    else stack + [seg]
  }

  /** The segments left after every `.` is dropped and every `..` cancels the segment before it. */
  function Normalize(segs: seq<string>): (r: seq<string>)
    requires forall i :: 0 <= i < |segs| ==> '/' !in segs[i]
    ensures forall i :: 0 <= i < |r| ==> IsName(r[i])
    ensures (forall i :: 0 <= i < |segs| ==> IsName(segs[i])) ==> r == segs
    decreases |segs|
  {
    if segs == [] then []
    else
      var r := Step(Normalize(segs[..|segs| - 1]), segs[|segs| - 1]);
      assert segs == segs[..|segs| - 1] + [segs[|segs| - 1]];
      r
  }

  /**
   * How `path.resolve` treats the next segment: an empty segment and `.` are
   * dropped, `..` removes the last segment kept so far (at the root it stays
   * at the root), and a name is kept after the others.
   */
  lemma NormalizeSteps(segs: seq<string>, seg: string)
    requires forall i :: 0 <= i < |segs| ==> '/' !in segs[i]
    requires '/' !in seg
    ensures (seg == "" || seg == ".") ==> Normalize(segs + [seg]) == Normalize(segs)
    ensures seg == ".." && Normalize(segs) == [] ==> Normalize(segs + [seg]) == []
    ensures seg == ".." && Normalize(segs) != [] ==>
      Normalize(segs + [seg]) == Normalize(segs)[..|Normalize(segs)| - 1]
    ensures IsName(seg) ==> Normalize(segs + [seg]) == Normalize(segs) + [seg]
  {
    var t := segs + [seg];
    assert t[..|t| - 1] == segs;
  }

  /** Reading back the segments of `PathOf(segs)` gives `segs`, when every segment is a name. */
  lemma SegmentsOfPath(segs: seq<string>)
    requires forall i :: 0 <= i < |segs| ==> IsName(segs[i])
    ensures Segments(PathOf(segs)) == segs
  {
    var j := Join(segs, "/");
    SplitCons("", j, '/');
    assert PathOf(segs) == "" + "/" + j;
    if segs == [] {
      assert Split(j, '/') == [""];
      assert NonEmpty(["", ""]) == [];
    } else {
      SplitJoin(segs, '/');
      NonEmptyKeeps(segs);
    }
  }

  /** Splitting a join gives back the pieces, when no piece holds the separator. */
  lemma {:induction false} SplitJoin(parts: seq<string>, sep: char)
    requires |parts| >= 1 && forall i :: 0 <= i < |parts| ==> sep !in parts[i]
    ensures Split(Join(parts, [sep]), sep) == parts
    decreases |parts|
  {
    if |parts| > 1 {
      var rest := parts[1..];
      var tail := Join(rest, [sep]);
      assert Join(parts, [sep]) == parts[0] + [sep] + tail;
      assert forall i :: 0 <= i < |rest| ==> rest[i] == parts[i + 1];
      SplitJoin(rest, sep);
      SplitCons(parts[0], tail, sep);
      assert parts == [parts[0]] + rest;
    }
  }

  lemma {:induction false} NonEmptyKeeps(parts: seq<string>)
    requires forall i :: 0 <= i < |parts| ==> parts[i] != "" && '/' !in parts[i]
    ensures NonEmpty([""] + parts) == parts
    ensures NonEmpty(parts) == parts
    decreases |parts|
  {
    assert ([""] + parts)[1..] == parts;
    if parts != [] {
      NonEmptyKeeps(parts[1..]);
    }
  }

  /** `path.basename(p)`: the last segment, or `""` for the root. */
  function Basename(p: string): string {
    var segs := Segments(p);
    if segs == [] then "" else segs[|segs| - 1]
  }

  /** The index of the last `.` in `name`, if any. */
  function LastDot(name: string): (r: Option<nat>)
    ensures r.Some? ==> r.value < |name| && name[r.value] == '.'
    ensures r.Some? ==> forall j :: r.value < j < |name| ==> name[j] != '.'
    ensures r.None? ==> '.' !in name
    decreases |name|
  {
    if name == [] then None
    else if name[|name| - 1] == '.' then Some(|name| - 1)
    else LastDot(name[..|name| - 1])
  }

  /**
   * `path.extname(name)` for one path component: from the last `.` to the end,
   * or `""` when there is no `.`, when the only text
   * before it is nothing (a dot file such as `.md`), or for `..`.
   */
  function Extname(name: string): (ext: string)
    ensures ext == [] || (ext[0] == '.' && EndsWith(name, ext) && |ext| < |name|)
    ensures ext != [] ==> '.' !in ext[1..]
    ensures ext == [] <==> name == ".." || forall j :: 0 < j < |name| ==> name[j] != '.'
  {
    match LastDot(name)
    case None => ""
    case Some(k) => if k == 0 || name == ".." then "" else name[k..]
  }

  /** `path.basename(name, path.extname(name))`: the name without its extension. */
  function Stem(name: string): (stem: string)
    ensures stem + Extname(name) == name
  {
    name[..|name| - |Extname(name)|]
  }
}
