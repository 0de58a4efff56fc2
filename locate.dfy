/**
 * Locating the `clang` executable inside an installation: a depth-first
 * search of the directory tree that returns the directory holding the
 * executable, or the empty path when there is none.
 */
module Locate {
  import opened Wrappers
  import opened Setup

  /**
   * A directory entry as `lstat` sees it: symbolic links are their own
   * kind and are never entered, even when they point at a directory.
   */
  datatype Entry =
    | File(name: string)
    | Link(name: string)
    | Dir(name: string, entries: seq<Entry>)

  /**
   * `findRecursive(dir, exe)` over the listing of `dir`, in listing order:
   * an entry named `exe` answers with `dir`; a subdirectory is searched
   * before the entries after it; `""` means not found.
   */
  function FindIn(dir: Path, entries: seq<Entry>, exe: string): (r: Path)
    decreases entries
  {
    if entries == [] then ""
    else
      var e := entries[0];
      if e.name == exe then dir
      else
        var sub := if e.Dir? then FindIn(Join(dir, e.name), e.entries, exe) else "";
        if sub != "" then sub else FindIn(dir, entries[1..], exe)
  }

  /** An entry seen by the search: the directory it lives in and its name. */
  datatype Visit = Visit(dir: Path, name: string)

  /** Every entry below `dir` in depth-first, listing order, without entering links. */
  function Visits(dir: Path, entries: seq<Entry>): (vs: seq<Visit>)
    decreases entries
  {
    if entries == [] then []
    else
      var e := entries[0];
      [Visit(dir, e.name)]
      + (if e.Dir? then Visits(Join(dir, e.name), e.entries) else [])
      + Visits(dir, entries[1..])
  }

  /** The directory of the first visit named `exe`, or `""`. */
  function FirstMatch(visits: seq<Visit>, exe: string): (r: Path)
    ensures r != "" ==> Visit(r, exe) in visits
  {
    if visits == [] then ""
    else if visits[0].name == exe then visits[0].dir
    else FirstMatch(visits[1..], exe)
  }

  /** Visits below a non-empty directory all carry a non-empty directory. */
  lemma {:induction false} VisitDirsNonEmpty(dir: Path, entries: seq<Entry>)
    requires dir != ""
    ensures forall v :: v in Visits(dir, entries) ==> v.dir != ""
    decreases entries
  {
    if entries != [] {
      var e := entries[0];
      if e.Dir? {
        VisitDirsNonEmpty(Join(dir, e.name), e.entries);
      }
      VisitDirsNonEmpty(dir, entries[1..]);
    }
  }

  lemma {:induction false} FirstMatchAppend(a: seq<Visit>, b: seq<Visit>, exe: string)
    requires forall v :: v in a ==> v.dir != ""
    ensures FirstMatch(a + b, exe) == if FirstMatch(a, exe) != "" then FirstMatch(a, exe) else FirstMatch(b, exe)
  {
    if a != [] {
      assert (a + b)[1..] == a[1..] + b;
      FirstMatchAppend(a[1..], b, exe);
    } else {
      assert a + b == b;
    }
  }

  /** The search answers with the directory of the first entry named `exe` in depth-first order. */
  lemma {:induction false} FindIsFirstMatch(dir: Path, entries: seq<Entry>, exe: string)
    requires dir != ""
    ensures FindIn(dir, entries, exe) == FirstMatch(Visits(dir, entries), exe)
    decreases entries
  {
    if entries != [] {
      var e := entries[0];
      var inner := if e.Dir? then Visits(Join(dir, e.name), e.entries) else [];
      var rest := Visits(dir, entries[1..]);
      var vs := Visits(dir, entries);
      assert vs == [Visit(dir, e.name)] + (inner + rest);
      if e.name != exe {
        assert vs[1..] == inner + rest;
        assert FirstMatch(vs, exe) == FirstMatch(inner + rest, exe);
        if e.Dir? {
          FindIsFirstMatch(Join(dir, e.name), e.entries, exe);
          VisitDirsNonEmpty(Join(dir, e.name), e.entries);
        }
        FindIsFirstMatch(dir, entries[1..], exe);
        FirstMatchAppend(inner, rest, exe);
      }
    }
  }

  /** Below a non-empty root, the search finds something exactly when some entry has the name, and what it finds holds one. */
  lemma FoundIff(dir: Path, entries: seq<Entry>, exe: string)
    requires dir != ""
    ensures FindIn(dir, entries, exe) != "" <==> exists v :: v in Visits(dir, entries) && v.name == exe
    ensures FindIn(dir, entries, exe) != "" ==> Visit(FindIn(dir, entries, exe), exe) in Visits(dir, entries)
  {
    FindIsFirstMatch(dir, entries, exe);
    VisitDirsNonEmpty(dir, entries);
    FirstMatchFinds(Visits(dir, entries), exe);
  }

  lemma {:induction false} FirstMatchFinds(visits: seq<Visit>, exe: string)
    requires forall v :: v in visits ==> v.dir != ""
    ensures (exists v :: v in visits && v.name == exe) ==> FirstMatch(visits, exe) != ""
  {
    if visits != [] && visits[0].name != exe {
      FirstMatchFinds(visits[1..], exe);
      assert forall v :: v in visits && v.name == exe ==> v in visits[1..];
    }
  }

  /** The executable's file name on a platform. */
  function ExecutableName(platform: string): (name: string)
    ensures name == "clang.exe" <==> platform == "win32"
    ensures name == "clang" <==> platform != "win32"
  {
    "clang" + (if platform == "win32" then ".exe" else "")
  }

  /** `findClang(root, platform)`: an absent or empty platform means the host's. */
  function FindClang(root: Path, entries: seq<Entry>, platform: Option<string>, host: string): Path {
    var p := if platform.None? || platform.value == "" then host else platform.value;
    FindIn(root, entries, ExecutableName(p))
  }

  /** The search for `clang` finds a directory exactly when some entry carries the platform's executable name. */
  lemma ClangFound(root: Path, entries: seq<Entry>, platform: Option<string>, host: string)
    requires root != ""
    ensures var exe := ExecutableName(if platform.None? || platform.value == "" then host else platform.value);
      var r := FindClang(root, entries, platform, host);
      (r != "" <==> exists v :: v in Visits(root, entries) && v.name == exe) &&
      (r != "" ==> Visit(r, exe) in Visits(root, entries))
  {
    var exe := ExecutableName(if platform.None? || platform.value == "" then host else platform.value);
    FoundIff(root, entries, exe);
  }

  /** An empty platform string is as good as none: the host platform decides. */
  lemma EmptyPlatformMeansHost(root: Path, entries: seq<Entry>, host: string)
    ensures FindClang(root, entries, Some(""), host) == FindClang(root, entries, None, host)
  {
  }
}
